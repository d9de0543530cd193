/**
 * UTF-16 as `Encoding.Unicode` (little-endian, no byte order mark) writes it: surrogate pairs,
 * the replacement of unpaired surrogates by U+FFFD, and the two-byte layout of each code unit.
 */
module Utf16 {
  import opened CsTypes

  predicate IsHighSurrogate(c: CodeUnit) {
    0xD800 <= c <= 0xDBFF
  }

  predicate IsLowSurrogate(c: CodeUnit) {
    0xDC00 <= c <= 0xDFFF
  }

  /** U+FFFD, what the encoder writes in place of a surrogate it cannot pair. */
  const ReplacementCharacter: CodeUnit := 0xFFFD

  /** Code unit `k` is a surrogate that is not one half of a high-low pair. */
  predicate IsUnpairedAt(s: seq<CodeUnit>, k: nat)
    requires k < |s|
  {
    || (IsHighSurrogate(s[k]) && !(k + 1 < |s| && IsLowSurrogate(s[k + 1])))
    || (IsLowSurrogate(s[k]) && !(k > 0 && IsHighSurrogate(s[k - 1])))
  }

  /** Well-formed UTF-16: every surrogate belongs to a pair. */
  ghost predicate IsWellFormed(s: seq<CodeUnit>) {
    forall k :: 0 <= k < |s| ==> !IsUnpairedAt(s, k)
  }

  /**
   * The encoder's left-to-right scan with its replacement fallback: a high surrogate followed
   * by a low one is copied as a pair, any other surrogate becomes U+FFFD, and every other code
   * unit is copied.
   */
  function ReplaceUnpairedSurrogates(s: seq<CodeUnit>): (r: seq<CodeUnit>)
    ensures |r| == |s|
    decreases |s|
  {
    if s == [] then []
    else if |s| > 1 && IsHighSurrogate(s[0]) && IsLowSurrogate(s[1]) then
      [s[0], s[1]] + ReplaceUnpairedSurrogates(s[2..])
    else if IsHighSurrogate(s[0]) || IsLowSurrogate(s[0]) then
      [ReplacementCharacter] + ReplaceUnpairedSurrogates(s[1..])
    else
      [s[0]] + ReplaceUnpairedSurrogates(s[1..])
  }

  /** Position by position, the scan replaces exactly the unpaired surrogates. */
  lemma {:induction false} ReplaceUnpairedSurrogatesAt(s: seq<CodeUnit>, k: nat)
    requires k < |s|
    ensures ReplaceUnpairedSurrogates(s)[k] == if IsUnpairedAt(s, k) then ReplacementCharacter else s[k]
    decreases |s|
  {
    var r := ReplaceUnpairedSurrogates(s);
    if |s| > 1 && IsHighSurrogate(s[0]) && IsLowSurrogate(s[1]) {
      if k >= 2 {
        var rest := s[2..];
        ReplaceUnpairedSurrogatesAt(rest, k - 2);
        assert rest[k - 2] == s[k];
        assert k - 2 + 1 < |rest| ==> rest[k - 1] == s[k + 1];
        assert k - 2 > 0 ==> rest[k - 3] == s[k - 1];
        assert IsUnpairedAt(rest, k - 2) == IsUnpairedAt(s, k);
      }
    } else if k >= 1 {
      var rest := s[1..];
      ReplaceUnpairedSurrogatesAt(rest, k - 1);
      assert rest[k - 1] == s[k];
      assert k - 1 + 1 < |rest| ==> rest[k] == s[k + 1];
      assert k - 1 > 0 ==> rest[k - 2] == s[k - 1];
      assert IsUnpairedAt(rest, k - 1) == IsUnpairedAt(s, k);
    }
  }

  /** The scan changes a string exactly when the string is not well-formed. */
  lemma WellFormedIffUnchanged(s: seq<CodeUnit>)
    ensures IsWellFormed(s) <==> ReplaceUnpairedSurrogates(s) == s
  {
    var r := ReplaceUnpairedSurrogates(s);
    if IsWellFormed(s) {
      forall k | 0 <= k < |s|
        ensures r[k] == s[k]
      {
        ReplaceUnpairedSurrogatesAt(s, k);
      }
    }
    if r == s {
      forall k | 0 <= k < |s|
        ensures !IsUnpairedAt(s, k)
      {
        ReplaceUnpairedSurrogatesAt(s, k);
      }
    }
  }

  /** What the scan produces is always well-formed. */
  lemma ReplaceUnpairedSurrogatesIsWellFormed(s: seq<CodeUnit>)
    ensures IsWellFormed(ReplaceUnpairedSurrogates(s))
  {
    var r := ReplaceUnpairedSurrogates(s);
    forall k | 0 <= k < |r|
      ensures !IsUnpairedAt(r, k)
    {
      ReplaceUnpairedSurrogatesAt(s, k);
      if IsHighSurrogate(r[k]) && k + 1 < |s| {
        ReplaceUnpairedSurrogatesAt(s, k + 1);
      }
      if IsLowSurrogate(r[k]) && k > 0 {
        ReplaceUnpairedSurrogatesAt(s, k - 1);
      }
    }
  }

  /** The scan is idempotent. */
  lemma ReplaceUnpairedSurrogatesIdempotent(s: seq<CodeUnit>)
    ensures ReplaceUnpairedSurrogates(ReplaceUnpairedSurrogates(s)) == ReplaceUnpairedSurrogates(s)
  {
    ReplaceUnpairedSurrogatesIsWellFormed(s);
    WellFormedIffUnchanged(ReplaceUnpairedSurrogates(s));
  }

  /** Two well-formed strings joined stay well-formed: no pair can be split at the seam. */
  lemma WellFormedConcat(a: seq<CodeUnit>, b: seq<CodeUnit>)
    requires IsWellFormed(a) && IsWellFormed(b)
    ensures IsWellFormed(a + b)
  {
    var s := a + b;
    forall k | 0 <= k < |s|
      ensures !IsUnpairedAt(s, k)
    {
      if k < |a| {
        assert !IsUnpairedAt(a, k);
        assert 0 < k ==> s[k - 1] == a[k - 1];
        assert k + 1 < |a| ==> s[k + 1] == a[k + 1];
      } else {
        assert !IsUnpairedAt(b, k - |a|);
        assert k - |a| > 0 ==> s[k - 1] == b[k - |a| - 1];
        assert k + 1 < |s| ==> s[k + 1] == b[k - |a| + 1];
      }
    }
  }

  /** `a` ends in a high surrogate and `b` starts with a low one, so `a + b` joins them into a pair. */
  predicate SplitsPair(a: seq<CodeUnit>, b: seq<CodeUnit>) {
    |a| > 0 && |b| > 0 && IsHighSurrogate(a[|a| - 1]) && IsLowSurrogate(b[0])
  }

  /** The scan of a concatenation is the scans of the parts joined, unless a pair is split at the seam. */
  lemma ReplaceUnpairedSurrogatesConcat(a: seq<CodeUnit>, b: seq<CodeUnit>)
    ensures ReplaceUnpairedSurrogates(a + b) == ReplaceUnpairedSurrogates(a) + ReplaceUnpairedSurrogates(b)
      <==> !SplitsPair(a, b)
  {
    var s := a + b;
    var r := ReplaceUnpairedSurrogates(s);
    var ra := ReplaceUnpairedSurrogates(a);
    var rb := ReplaceUnpairedSurrogates(b);
    if SplitsPair(a, b) {
      var k := |a| - 1;
      ReplaceUnpairedSurrogatesAt(s, k);
      ReplaceUnpairedSurrogatesAt(a, k);
      assert s[k + 1] == b[0];
      assert r[k] != (ra + rb)[k];
    } else {
      forall k | 0 <= k < |s|
        ensures r[k] == (ra + rb)[k]
      {
        ReplaceUnpairedSurrogatesAt(s, k);
        if k < |a| {
          ReplaceUnpairedSurrogatesAt(a, k);
          assert k + 1 < |a| ==> s[k + 1] == a[k + 1];
          assert k + 1 == |a| && k + 1 < |s| ==> s[k + 1] == b[0];
          assert k > 0 ==> s[k - 1] == a[k - 1];
          assert IsUnpairedAt(s, k) == IsUnpairedAt(a, k);
        } else {
          ReplaceUnpairedSurrogatesAt(b, k - |a|);
          assert k + 1 < |s| ==> s[k + 1] == b[k - |a| + 1];
          assert k - |a| > 0 ==> s[k - 1] == b[k - |a| - 1];
          assert k == |a| && k > 0 ==> s[k - 1] == a[|a| - 1];
          assert IsUnpairedAt(s, k) == IsUnpairedAt(b, k - |a|);
        }
      }
    }
  }

  /** The byte layout of code units: each one becomes its low byte, then its high byte. */
  function Utf16LeBytes(s: seq<CodeUnit>): (bytes: seq<Byte>)
    ensures |bytes| == 2 * |s|
  {
    if s == [] then [] else [s[0] % 0x100, s[0] / 0x100] + Utf16LeBytes(s[1..])
  }

  /**
   * The inverse of the byte layout, pairing bytes back into code units; it serves only to
   * show that the layout loses nothing.
   */
  function Utf16LeDecode(bytes: seq<Byte>): (s: seq<CodeUnit>)
    requires |bytes| % 2 == 0
    ensures |s| == |bytes| / 2
  {
    if bytes == [] then [] else [bytes[0] as int + 0x100 * bytes[1] as int] + Utf16LeDecode(bytes[2..])
  }

  /** Reading the byte pairs back recovers every code unit. */
  lemma {:induction false} Utf16LeRoundTrip(s: seq<CodeUnit>)
    ensures Utf16LeDecode(Utf16LeBytes(s)) == s
  {
    if s != [] {
      var bytes := Utf16LeBytes(s);
      assert bytes[2..] == Utf16LeBytes(s[1..]);
      Utf16LeRoundTrip(s[1..]);
    }
  }

  /** Byte `2k` and byte `2k + 1` of the layout are the low and high half of code unit `k`. */
  lemma {:induction false} Utf16LeBytesAt(s: seq<CodeUnit>, k: nat)
    requires k < |s|
    ensures Utf16LeBytes(s)[2 * k] == s[k] % 0x100
    ensures Utf16LeBytes(s)[2 * k + 1] == s[k] / 0x100
  {
    if k > 0 {
      Utf16LeBytesAt(s[1..], k - 1);
    }
  }

  /** The layout of a concatenation is the layout of each part. */
  lemma {:induction false} Utf16LeBytesConcat(s: seq<CodeUnit>, t: seq<CodeUnit>)
    ensures Utf16LeBytes(s + t) == Utf16LeBytes(s) + Utf16LeBytes(t)
    decreases |s|
  {
    if s != [] {
      assert (s + t)[1..] == s[1..] + t;
      Utf16LeBytesConcat(s[1..], t);
    } else {
      assert s + t == t;
    }
  }

  /** `Encoding.Unicode.GetBytes`: the replacement scan, then the byte layout. */
  function GetBytes(s: seq<CodeUnit>): (bytes: seq<Byte>)
    ensures |bytes| == 2 * |s|
  {
    Utf16LeBytes(ReplaceUnpairedSurrogates(s))
  }

  /** Pairing the bytes back gives the string with its unpaired surrogates replaced. */
  lemma GetBytesRoundTrip(s: seq<CodeUnit>)
    ensures Utf16LeDecode(GetBytes(s)) == ReplaceUnpairedSurrogates(s)
    ensures IsWellFormed(s) ==> Utf16LeDecode(GetBytes(s)) == s
  {
    Utf16LeRoundTrip(ReplaceUnpairedSurrogates(s));
    WellFormedIffUnchanged(s);
  }

  /**
   * Byte `2k` and byte `2k + 1` of the encoding are the halves of code unit `k`, or of U+FFFD
   * (bytes FD FF) when that code unit is an unpaired surrogate.
   */
  lemma GetBytesAt(s: seq<CodeUnit>, k: nat)
    requires k < |s|
    ensures var c := if IsUnpairedAt(s, k) then ReplacementCharacter else s[k];
      GetBytes(s)[2 * k] == c % 0x100 && GetBytes(s)[2 * k + 1] == c / 0x100
  {
    ReplaceUnpairedSurrogatesAt(s, k);
    Utf16LeBytesAt(ReplaceUnpairedSurrogates(s), k);
  }

  /** Different well-formed strings never share an encoding. */
  lemma GetBytesInjective(s: seq<CodeUnit>, t: seq<CodeUnit>)
    requires IsWellFormed(s) && IsWellFormed(t)
    requires GetBytes(s) == GetBytes(t)
    ensures s == t
  {
    GetBytesRoundTrip(s);
    GetBytesRoundTrip(t);
  }

  /** The encoding of two strings joined is the encoding of each part, unless a pair is split at the seam. */
  lemma GetBytesConcat(s: seq<CodeUnit>, t: seq<CodeUnit>)
    requires !SplitsPair(s, t)
    ensures GetBytes(s + t) == GetBytes(s) + GetBytes(t)
  {
    ReplaceUnpairedSurrogatesConcat(s, t);
    Utf16LeBytesConcat(ReplaceUnpairedSurrogates(s), ReplaceUnpairedSurrogates(t));
  }
}
