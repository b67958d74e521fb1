/** The JavaScript array operations the pages use: `filter`, and the
    first-occurrence de-duplication of `Array.from(new Set(xs))`. */
module Lists {

  /** `xs.filter(p)`. */
  function Filter<T(==)>(p: T -> bool, s: seq<T>): (r: seq<T>)
    ensures |r| <= |s|
    ensures forall i :: 0 <= i < |r| ==> r[i] in s && p(r[i])
    ensures forall i :: 0 <= i < |s| && p(s[i]) ==> s[i] in r
    decreases |s|
  {
    if |s| == 0 then []
    else (if p(s[0]) then [s[0]] else []) + Filter(p, s[1..])
  }

  /** `r` is `s` with some elements left out and the rest in their original order. */
  predicate IsSubseq<T(==)>(r: seq<T>, s: seq<T>)
    decreases |s|
  {
    |r| == 0 || (|s| > 0 && ((r[0] == s[0] && IsSubseq(r[1..], s[1..])) || IsSubseq(r, s[1..])))
  }

  lemma {:induction false} FilterIsSubseq<T>(p: T -> bool, s: seq<T>)
    ensures IsSubseq(Filter(p, s), s)
    decreases |s|
  {
    if |s| > 0 {
      FilterIsSubseq(p, s[1..]);
      if p(s[0]) {
        assert Filter(p, s) == [s[0]] + Filter(p, s[1..]);
      } else {
        assert Filter(p, s) == Filter(p, s[1..]);
      }
    }
  }

  /** Filtering by a test every element passes keeps the whole sequence. */
  lemma {:induction false} FilterAll<T>(p: T -> bool, s: seq<T>)
    requires forall i :: 0 <= i < |s| ==> p(s[i])
    ensures Filter(p, s) == s
    decreases |s|
  {
    if |s| > 0 {
      FilterAll(p, s[1..]);
    }
  }

  /** A prefix of a sub-list is a sub-list. */
  lemma {:induction false} PrefixOfSubseq<T>(r: seq<T>, s: seq<T>, n: nat)
    requires n <= |r| && IsSubseq(r, s)
    ensures IsSubseq(r[..n], s)
    decreases |s|
  {
    if n > 0 {
      if r[0] == s[0] && IsSubseq(r[1..], s[1..]) {
        PrefixOfSubseq(r[1..], s[1..], n - 1);
        assert r[..n][1..] == r[1..][..n - 1];
      } else {
        PrefixOfSubseq(r, s[1..], n);
      }
    }
  }

  /** No element occurs twice. */
  predicate Distinct<T(==)>(s: seq<T>)
  {
    forall i, j :: 0 <= i < j < |s| ==> s[i] != s[j]
  }

  /** The index of the first occurrence of `x` (`s.indexOf(x)`). */
  function IndexOf<T(==)>(s: seq<T>, x: T): (i: nat)
    requires x in s
    ensures i < |s| && s[i] == x && x !in s[..i]
    decreases |s|
  {
    if s[0] == x then 0 else 1 + IndexOf(s[1..], x)
  }

  lemma {:induction false} IndexOfExtend<T>(s: seq<T>, x: T, y: T)
    requires y in s
    ensures IndexOf(s + [x], y) == IndexOf(s, y)
    decreases |s|
  {
    if s[0] != y {
      assert (s + [x])[1..] == s[1..] + [x];
      IndexOfExtend(s[1..], x, y);
    }
  }

  /** `Array.from(new Set(s))`: each element once, where it first occurs. */
  function Dedup<T(==)>(s: seq<T>): (r: seq<T>)
    ensures forall i :: 0 <= i < |r| ==> r[i] in s
    ensures forall i :: 0 <= i < |s| ==> s[i] in r
    ensures Distinct(r)
    decreases |s|
  {
    if |s| == 0 then []
    else
      var d := Dedup(s[..|s| - 1]);
      var x := s[|s| - 1];
      assert forall i :: 0 <= i < |s| - 1 ==> s[i] == s[..|s| - 1][i];
      if x in d then d else d + [x]
  }

  /** The elements of `Dedup(s)` stand in the order of their first occurrence in `s`. */
  lemma {:induction false} DedupFirstOccurrenceOrder<T>(s: seq<T>)
    ensures forall i, j :: 0 <= i < j < |Dedup(s)| ==> IndexOf(s, Dedup(s)[i]) < IndexOf(s, Dedup(s)[j])
    decreases |s|
  {
    if |s| > 0 {
      var init := s[..|s| - 1];
      var x := s[|s| - 1];
      assert s == init + [x];
      DedupFirstOccurrenceOrder(init);
      var d := Dedup(init);
      var r := Dedup(s);
      forall y | y in d
        ensures IndexOf(s, y) == IndexOf(init, y)
      {
        IndexOfExtend(init, x, y);
      }
      forall i, j | 0 <= i < j < |r|
        ensures IndexOf(s, r[i]) < IndexOf(s, r[j])
      {
        if j < |d| {
          assert r[i] == d[i] && r[j] == d[j];
        } else {
          assert r[j] == x && x !in init && r[i] == d[i];
          assert IndexOf(s, x) == |init| by {
            assert s[..|init|] == init;
          }
        }
      }
    }
  }
}
