/** Order-preserving filtering and substring search over sequences. */
module Sequences {

  /**
   * The elements of `s` that satisfy `keep`, in their original order (LINQ `Where`).  Defined
   * on the last element, so that a loop scanning `s` from the left keeps `Filter(s[..i], keep)`.
   */
  function Filter<T>(s: seq<T>, keep: T -> bool): (r: seq<T>)
    ensures |r| <= |s|
    ensures forall k :: 0 <= k < |r| ==> keep(r[k])
  {
    if s == [] then []
    else Filter(s[..|s| - 1], keep) + (if keep(s[|s| - 1]) then [s[|s| - 1]] else [])
  }

  /** Filtering a concatenation filters each part. */
  lemma {:induction false} FilterConcat<T>(a: seq<T>, b: seq<T>, keep: T -> bool)
    ensures Filter(a + b, keep) == Filter(a, keep) + Filter(b, keep)
    decreases |b|
  {
    if b == [] {
      assert a + b == a;
    } else {
      var last := b[|b| - 1];
      assert (a + b)[..|a + b| - 1] == a + b[..|b| - 1];
      FilterConcat(a, b[..|b| - 1], keep);
      calc {
        Filter(a + b, keep);
        Filter(a + b[..|b| - 1], keep) + (if keep(last) then [last] else []);
        Filter(a, keep) + Filter(b[..|b| - 1], keep) + (if keep(last) then [last] else []);
        Filter(a, keep) + Filter(b, keep);
      }
    }
  }

  /** A singleton is kept exactly when its element satisfies `keep`. */
  lemma FilterSingleton<T>(x: T, keep: T -> bool)
    ensures Filter([x], keep) == if keep(x) then [x] else []
  {
    assert [x][..0] == [];
  }

  /** The filter seen from the front: the head is kept or dropped, then the tail is filtered. */
  lemma FilterHead<T>(s: seq<T>, keep: T -> bool)
    requires s != []
    ensures Filter(s, keep) == (if keep(s[0]) then [s[0]] else []) + Filter(s[1..], keep)
  {
    FilterConcat([s[0]], s[1..], keep);
    FilterSingleton(s[0], keep);
    assert [s[0]] + s[1..] == s;
  }

  /** When no element satisfies `keep`, nothing is left. */
  lemma FilterKeepsNone<T>(s: seq<T>, keep: T -> bool)
    requires forall k :: 0 <= k < |s| ==> !keep(s[k])
    ensures Filter(s, keep) == []
  {
    var r := Filter(s, keep);
    if r != [] {
      FilterMembership(s, keep, r[0]);
    }
  }

  /** When every element satisfies `keep`, nothing is removed. */
  lemma {:induction false} FilterKeepsAll<T>(s: seq<T>, keep: T -> bool)
    requires forall k :: 0 <= k < |s| ==> keep(s[k])
    ensures Filter(s, keep) == s
  {
    if s != [] {
      FilterKeepsAll(s[..|s| - 1], keep);
      assert s[..|s| - 1] + [s[|s| - 1]] == s;
    }
  }

  /** Filtering twice with the same predicate is filtering once. */
  lemma FilterIdempotent<T>(s: seq<T>, keep: T -> bool)
    ensures Filter(Filter(s, keep), keep) == Filter(s, keep)
  {
    FilterKeepsAll(Filter(s, keep), keep);
  }

  /** Each element occurs in the result as often as in `s` when it is kept, and never otherwise. */
  lemma {:induction false} FilterMultiset<T>(s: seq<T>, keep: T -> bool, x: T)
    ensures multiset(Filter(s, keep))[x] == if keep(x) then multiset(s)[x] else 0
  {
    if s != [] {
      var init, last := s[..|s| - 1], s[|s| - 1];
      FilterMultiset(init, keep, x);
      assert s == init + [last];
      assert multiset(s) == multiset(init) + multiset{last};
    }
  }

  /** An element is in the result exactly when it is in `s` and is kept. */
  lemma FilterMembership<T>(s: seq<T>, keep: T -> bool, x: T)
    ensures x in Filter(s, keep) <==> x in s && keep(x)
  {
    FilterMultiset(s, keep, x);
    assert x in Filter(s, keep) <==> multiset(Filter(s, keep))[x] > 0;
    assert x in s <==> multiset(s)[x] > 0;
  }

  /** `p` starts at position `i` of `t`. */
  ghost predicate OccursAt<T>(p: seq<T>, t: seq<T>, i: nat) {
    i + |p| <= |t| && t[i..i + |p|] == p
  }

  /** `p` is a contiguous part of `t`. */
  ghost predicate IsSubstring<T>(p: seq<T>, t: seq<T>) {
    exists i: nat :: i <= |t| && OccursAt(p, t, i)
  }

  /** An occurrence in the tail of `t` is an occurrence in `t`, one position later. */
  lemma OccursAtShift<T>(p: seq<T>, t: seq<T>, i: nat)
    requires |t| > 0
    ensures OccursAt(p, t[1..], i) <==> OccursAt(p, t, i + 1)
  {
    if i + |p| <= |t| - 1 {
      assert t[1..][i..i + |p|] == t[i + 1..i + 1 + |p|];
    }
  }

  /**
   * Ordinal substring search, trying each start position from the left (`string.Contains`).
   * The empty sequence occurs in every sequence.
   */
  predicate Occurs<T(==)>(p: seq<T>, t: seq<T>)
    decreases |t|
  {
    if |p| > |t| then false
    else if t[..|p|] == p then true
    else Occurs(p, t[1..])
  }

  /** The search finds `p` exactly when `p` is a substring of `t`. */
  lemma {:induction false} OccursIsSubstring<T>(p: seq<T>, t: seq<T>)
    ensures Occurs(p, t) <==> IsSubstring(p, t)
    decreases |t|
  {
    if |p| > |t| {
      assert forall i: nat :: i <= |t| ==> !OccursAt(p, t, i);
    } else if t[..|p|] == p {
      assert OccursAt(p, t, 0);
    } else {
      OccursIsSubstring(p, t[1..]);
      if IsSubstring(p, t) {
        var i: nat :| i <= |t| && OccursAt(p, t, i);
        assert i != 0;
        OccursAtShift(p, t, i - 1);
        assert OccursAt(p, t[1..], i - 1);
      }
      if IsSubstring(p, t[1..]) {
        var i: nat :| i <= |t[1..]| && OccursAt(p, t[1..], i);
        OccursAtShift(p, t, i);
      }
    }
  }

  /** The empty sequence is a substring of every sequence. */
  lemma EmptyIsSubstring<T>(t: seq<T>)
    ensures IsSubstring([], t)
  {
    assert OccursAt([], t, 0);
  }
}
