/**
 * The string extension methods of `Scussel.StringExtensions.Extensions`.  A `string` argument
 * is a `CsString` (`None` is null).  Where the .NET code throws, the model has a precondition
 * that rules the throwing inputs out.
 */
module Extensions {
  import opened CsTypes
  import opened UnicodeTables
  import opened Sequences
  import opened Utf16
  import opened OneAtATime

  function Min(a: int, b: int): int {
    if a <= b then a else b
  }

  // ---------------------------------------------------------------- CapitalizeFirstLetter

  /** Null stays null, the empty string stays empty, otherwise the first code unit is upper-cased. */
  function CapitalizeFirstLetter(text: CsString): (r: CsString)
    ensures r.None? <==> text.None?
    ensures text.Some? ==> |r.value| == |text.value|
    ensures text.Some? && text.value != [] ==>
      r.value[0] == ToUpper(text.value[0]) && r.value[1..] == text.value[1..]
  {
    match text
    case None => None
    case Some(s) => if s == [] then text else Some([ToUpper(s[0])] + s[1..])
  }

  /** Capitalizing twice is capitalizing once, because `ToUpper` is idempotent. */
  lemma CapitalizeFirstLetterIdempotent(text: CsString)
    ensures CapitalizeFirstLetter(CapitalizeFirstLetter(text)) == CapitalizeFirstLetter(text)
  {
    if text.Some? && text.value != [] {
      var s := text.value;
      ToUpperIdempotent(s[0]);
      var once := CapitalizeFirstLetter(text).value;
      var twice := CapitalizeFirstLetter(CapitalizeFirstLetter(text)).value;
      assert twice == [twice[0]] + twice[1..];
      assert once == [once[0]] + once[1..];
    }
  }

  // ---------------------------------------------------------------- Contains

  /**
   * `options.Any(o => text.Contains(o))` reaches a null option (and throws) before it finds
   * an option that occurs in `t`.
   */
  predicate ReachesNullOption(t: seq<CodeUnit>, options: seq<CsString>) {
    |options| > 0 &&
    (options[0].None? || (!Occurs(options[0].value, t) && ReachesNullOption(t, options[1..])))
  }

  /** `Any` over the options, stopping at the first one that occurs in `t`. */
  function AnyOccurs(t: seq<CodeUnit>, options: seq<CsString>): (r: bool)
    requires !ReachesNullOption(t, options)
    ensures r <==> exists k :: 0 <= k < |options| && options[k].Some? && IsSubstring(options[k].value, t)
  {
    if options == [] then false
    else
      OccursIsSubstring(options[0].value, t);
      if Occurs(options[0].value, t) then true
      else
        var rest := AnyOccurs(t, options[1..]);
        assert forall k :: 1 <= k < |options| ==> options[k] == options[1..][k - 1];
        rest
  }

  /**
   * A null text contains nothing; otherwise the text contains the options exactly when some
   * option is a substring of it (not, as the name might suggest, equal to it).  The .NET code
   * throws when `options` is null, or when `Any` meets a null option before a match.
   */
  function Contains(text: CsString, options: Option<seq<CsString>>): (r: bool)
    requires text.Some? ==> options.Some? && !ReachesNullOption(text.value, options.value)
    ensures r <==> text.Some? && (exists k :: 0 <= k < |options.value| && options.value[k].Some?
                                               && IsSubstring(options.value[k].value, text.value))
  {
    match text
    case None => false
    case Some(t) => AnyOccurs(t, options.value)
  }

  /** An empty list of options is never contained; an empty option is contained in every text. */
  lemma ContainsEdgeCases(t: seq<CodeUnit>, options: seq<CsString>)
    ensures !Contains(Some(t), Some([]))
    ensures Some([]) in options && !ReachesNullOption(t, options) ==> Contains(Some(t), Some(options))
  {
    EmptyIsSubstring(t);
  }

  // ---------------------------------------------------------------- GetFirstWord

  /** The first index at or after `i` that is not whitespace, or the end of `s`. */
  function SkipWhiteSpace(s: seq<CodeUnit>, i: nat): (j: nat)
    requires i <= |s|
    ensures i <= j <= |s|
    ensures forall k :: i <= k < j ==> IsWhiteSpace(s[k])
    ensures j == |s| || !IsWhiteSpace(s[j])
    decreases |s| - i
  {
    if i == |s| || !IsWhiteSpace(s[i]) then i else SkipWhiteSpace(s, i + 1)
  }

  /** The first index at or after `i` that is whitespace, or the end of `s`. */
  function SkipWord(s: seq<CodeUnit>, i: nat): (j: nat)
    requires i <= |s|
    ensures i <= j <= |s|
    ensures forall k :: i <= k < j ==> !IsWhiteSpace(s[k])
    ensures j == |s| || IsWhiteSpace(s[j])
    decreases |s| - i
  {
    if i == |s| || IsWhiteSpace(s[i]) then i else SkipWord(s, i + 1)
  }

  /**
   * `s[i..j]` is the first maximal run of non-whitespace in `s`, the match of the regular
   * expression `[^\s]+`: only whitespace before it, no whitespace in it, whitespace or the end
   * after it; when there is no such run, the span is empty and at the end of `s`.
   */
  ghost predicate IsFirstWordAt(s: seq<CodeUnit>, i: nat, j: nat) {
    i <= j <= |s|
    && (forall k :: 0 <= k < i ==> IsWhiteSpace(s[k]))
    && (forall k :: i <= k < j ==> !IsWhiteSpace(s[k]))
    && (j == |s| || IsWhiteSpace(s[j]))
    && (i == j ==> i == |s|)
  }

  /** There is only one first word. */
  lemma FirstWordUnique(s: seq<CodeUnit>, i: nat, j: nat, i': nat, j': nat)
    requires IsFirstWordAt(s, i, j) && IsFirstWordAt(s, i', j')
    ensures i == i' && j == j'
  {
    assert i == |s| || !IsWhiteSpace(s[i]);
    assert i' == |s| || !IsWhiteSpace(s[i']);
  }

  /**
   * Null stays null; otherwise the result is the first word of the text, which is empty
   * exactly when the text is all whitespace.
   */
  function GetFirstWord(text: CsString): (r: CsString)
    ensures r.None? <==> text.None?
    ensures text.Some? ==>
      exists i: nat, j: nat :: IsFirstWordAt(text.value, i, j) && r.value == text.value[i..j]
    ensures text.Some? ==> forall k :: 0 <= k < |r.value| ==> !IsWhiteSpace(r.value[k])
    ensures text.Some? ==>
      (r.value == [] <==> forall k :: 0 <= k < |text.value| ==> IsWhiteSpace(text.value[k]))
  {
    match text
    case None => None
    case Some(s) =>
      var start := SkipWhiteSpace(s, 0);
      var end := SkipWord(s, start);
      assert IsFirstWordAt(s, start, end);
      Some(s[start..end])
  }

  // ---------------------------------------------------------------- GetNumbers

  /** The digits of the text, in order; a null text gives the empty string, not null. */
  function GetNumbers(text: CsString): (r: seq<CodeUnit>)
    ensures text.None? ==> r == []
    ensures forall k :: 0 <= k < |r| ==> IsDigit(r[k])
    ensures text.Some? ==> |r| <= |text.value|
  {
    match text
    case None => []
    case Some(s) => Filter(s, IsDigit)
  }

  /** Every digit of the text is kept, as often as it occurs, and nothing else is. */
  lemma GetNumbersCounts(s: seq<CodeUnit>, c: CodeUnit)
    ensures multiset(GetNumbers(Some(s)))[c] == if IsDigit(c) then multiset(s)[c] else 0
  {
    FilterMultiset(s, IsDigit, c);
  }

  /** The digits keep their order: the digits of `a + b` are those of `a`, then those of `b`. */
  lemma GetNumbersConcat(a: seq<CodeUnit>, b: seq<CodeUnit>)
    ensures GetNumbers(Some(a + b)) == GetNumbers(Some(a)) + GetNumbers(Some(b))
  {
    FilterConcat(a, b, IsDigit);
  }

  /** Extracting the digits of the digits changes nothing. */
  lemma GetNumbersIdempotent(text: CsString)
    ensures GetNumbers(Some(GetNumbers(text))) == GetNumbers(text)
  {
    FilterKeepsAll(GetNumbers(text), IsDigit);
  }

  // ---------------------------------------------------------------- Hash

  /**
   * The one-at-a-time hash of a non-null string, step by step as in the source: the loop over
   * the bytes of `Encoding.Unicode.GetBytes` (unpaired surrogates already replaced), the final
   * mixing, then the remainder modulo `int.MaxValue`.  A null text makes `GetBytes` throw.
   */
  method Hash(text: CsString) returns (h: Int32)
    requires text.Some?
    ensures h == HashOf(text.value)
    ensures 0 <= h < IntMaxValue
  {
    var uiHash: bv32 := 0;
    var bytes := GetBytes(text.value);
    for i := 0 to |bytes|
      invariant Accumulate(uiHash, bytes[i..]) == Accumulate(0, bytes)
    {
      assert bytes[i..][1..] == bytes[i + 1..];
      var letter := bytes[i];
      uiHash := Step(uiHash, letter);
    }
    assert bytes[|bytes|..] == [];
    uiHash := AddShiftedLeft(uiHash, 3);
    uiHash := XorShiftedRight(uiHash, 11);
    uiHash := AddShiftedLeft(uiHash, 15);
    h := uiHash as int % IntMaxValue;
  }

  // ---------------------------------------------------------------- Left

  /**
   * Null stays null; otherwise the prefix of length `size`, or the whole text when it is
   * shorter.  `Substring` throws on a negative size.
   */
  function Left(text: CsString, size: Int32): (r: CsString)
    requires text.Some? ==> size >= 0
    ensures r.None? <==> text.None?
    ensures text.Some? ==> |r.value| == Min(size, |text.value|) && r.value <= text.value
    ensures text.Some? && size >= |text.value| ==> r == text
  {
    match text
    case None => None
    case Some(s) =>
      if size > |s| then text
      else
        assert size == |s| ==> s[..size] == s;
        Some(s[..size])
  }

  /** Taking the left part of the left part changes nothing. */
  lemma LeftIdempotent(text: CsString, size: Int32)
    requires size >= 0
    ensures Left(Left(text, size), size) == Left(text, size)
  {
  }

  // ---------------------------------------------------------------- RemoveDiacritics

  /** `System.Text.StringBuilder`, reduced to what `RemoveDiacritics` uses. */
  class StringBuilder {
    var chars: seq<CodeUnit>

    constructor ()
      ensures chars == []
    {
      chars := [];
    }

    method Append(c: CodeUnit)
      modifies this
      ensures chars == old(chars) + [c]
    {
      chars := chars + [c];
    }

    function ToString(): seq<CodeUnit>
      reads this
    {
      chars
    }
  }

  /** The code units of `s` whose category is not `NonSpacingMark`, in order. */
  function StripNonSpacingMarks(s: seq<CodeUnit>, category: CodeUnit -> UnicodeCategory): (r: seq<CodeUnit>)
    ensures |r| <= |s|
    ensures forall k :: 0 <= k < |r| ==> category(r[k]) != NonSpacingMark
  {
    Filter(s, c => category(c) != NonSpacingMark)
  }

  /** A text without non-spacing marks passes the filter unchanged. */
  lemma StripNonSpacingMarksUnmarked(s: seq<CodeUnit>, category: CodeUnit -> UnicodeCategory)
    requires forall k :: 0 <= k < |s| ==> category(s[k]) != NonSpacingMark
    ensures StripNonSpacingMarks(s, category) == s
  {
    FilterKeepsAll(s, c => category(c) != NonSpacingMark);
  }

  /** Every code unit that is not a mark is kept, as often as it occurs, and marks are not. */
  lemma StripNonSpacingMarksCounts(s: seq<CodeUnit>, category: CodeUnit -> UnicodeCategory, c: CodeUnit)
    ensures multiset(StripNonSpacingMarks(s, category))[c] ==
      if category(c) == NonSpacingMark then 0 else multiset(s)[c]
  {
    FilterMultiset(s, x => category(x) != NonSpacingMark, c);
  }

  /** The filter keeps order: stripping `a + b` strips `a`, then `b`. */
  lemma StripNonSpacingMarksConcat(a: seq<CodeUnit>, b: seq<CodeUnit>, category: CodeUnit -> UnicodeCategory)
    ensures StripNonSpacingMarks(a + b, category) ==
      StripNonSpacingMarks(a, category) + StripNonSpacingMarks(b, category)
  {
    FilterConcat(a, b, c => category(c) != NonSpacingMark);
  }

  /**
   * Null stays null; otherwise the canonical decomposition of the text, less its non-spacing
   * marks, appended one by one to a `StringBuilder`, then recomposed.  `normalize` and
   * `category` stand for `string.Normalize` and `CharUnicodeInfo.GetUnicodeCategory`.  The
   * first `Normalize` throws on a text with an unpaired surrogate.
   */
  method RemoveDiacritics(
    text: CsString,
    normalize: (NormalizationForm, seq<CodeUnit>) -> seq<CodeUnit>,
    category: CodeUnit -> UnicodeCategory
  ) returns (r: CsString)
    requires text.Some? ==> IsWellFormed(text.value)
    ensures text.None? ==> r.None?
    ensures text.Some? ==>
      r == Some(normalize(FormC, StripNonSpacingMarks(normalize(FormD, text.value), category)))
  {
    if text.None? {
      return None;
    }
    var normalizedString := normalize(FormD, text.value);
    var stringBuilder := new StringBuilder();
    for i := 0 to |normalizedString|
      invariant stringBuilder.chars == StripNonSpacingMarks(normalizedString[..i], category)
    {
      var c := normalizedString[i];
      assert normalizedString[..i + 1][..i] == normalizedString[..i];
      var unicodeCategory := category(c);
      if unicodeCategory != NonSpacingMark {
        stringBuilder.Append(c);
      }
    }
    assert normalizedString[..|normalizedString|] == normalizedString;
    r := Some(normalize(FormC, stringBuilder.ToString()));
  }
}
