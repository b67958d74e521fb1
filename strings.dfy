/** The JavaScript string operations the pages use, on `seq<char>`:
    `toLowerCase`, `includes`, `split` on one character, `trim`. */
module Strings {

  /** The code points JavaScript counts as white space or line terminators:
      what `String.prototype.trim` strips and what the pattern `\s` matches. */
  predicate IsSpace(c: char)
  {
    || c == ' '
    || ('\t' <= c <= '\r')
    || c == '\U{00A0}'
    || c == '\U{1680}'
    || ('\U{2000}' <= c <= '\U{200A}')
    || c == '\U{2028}'
    || c == '\U{2029}'
    || c == '\U{202F}'
    || c == '\U{205F}'
    || c == '\U{3000}'
    || c == '\U{FEFF}'
  }

  /** Lower-cases the ASCII letters and leaves every other character alone. */
  function LowerChar(c: char): (d: char)
    ensures IsSpace(d) <==> IsSpace(c)
    ensures d == '-' <==> c == '-'
  {
    if 'A' <= c <= 'Z' then (c as int + 32) as char else c
  }

  /** `s.toLowerCase()`, restricted to ASCII letters. */
  function ToLower(s: string): (r: string)
    ensures |r| == |s|
  {
    seq(|s|, i requires 0 <= i < |s| => LowerChar(s[i]))
  }

  lemma {:induction false} ToLowerAppend(a: string, b: string)
    ensures ToLower(a + b) == ToLower(a) + ToLower(b)
  {
    assert forall i :: 0 <= i < |a + b| ==> ToLower(a + b)[i] == (ToLower(a) + ToLower(b))[i];
  }

  lemma {:induction false} ToLowerSlice(s: string, i: nat, j: nat)
    requires i <= j <= |s|
    ensures ToLower(s)[i..j] == ToLower(s[i..j])
  {
  }

  /** `s.includes(sub)`: `sub` occurs in `s` as one contiguous block. */
  predicate Contains(s: string, sub: string)
    decreases |s|
  {
    sub <= s || (|s| > 0 && Contains(s[1..], sub))
  }

  /** `sub` occurs in `s` starting at index `i`. */
  predicate OccursAt(s: string, sub: string, i: nat)
  {
    i + |sub| <= |s| && s[i..i + |sub|] == sub
  }

  lemma {:induction false} OccursAtContains(s: string, sub: string, i: nat)
    requires OccursAt(s, sub, i)
    ensures Contains(s, sub)
    decreases i
  {
    if i == 0 {
      assert s[..|sub|] == sub;
    } else {
      assert s[1..][i - 1..i - 1 + |sub|] == s[i..i + |sub|];
      OccursAtContains(s[1..], sub, i - 1);
    }
  }

  lemma {:induction false} ContainsOccurs(s: string, sub: string) returns (i: nat)
    requires Contains(s, sub)
    ensures OccursAt(s, sub, i)
    decreases |s|
  {
    if sub <= s {
      i := 0;
      assert s[..|sub|] == sub;
    } else {
      var k := ContainsOccurs(s[1..], sub);
      i := k + 1;
      assert s[1..][k..k + |sub|] == s[i..i + |sub|];
    }
  }

  /** A block inside a block of `s` is a block of `s`. */
  lemma {:induction false} ContainsTransitive(a: string, b: string, c: string)
    requires Contains(a, b) && Contains(b, c)
    ensures Contains(a, c)
  {
    var i := ContainsOccurs(a, b);
    var j := ContainsOccurs(b, c);
    forall k | 0 <= k < |c|
      ensures a[i + j + k] == c[k]
    {
      assert c[k] == b[j + k];
      assert b[j + k] == a[i..i + |b|][j + k];
    }
    assert a[i + j..i + j + |c|] == c;
    OccursAtContains(a, c, i + j);
  }

  /** Lower-casing both sides keeps an occurrence. */
  lemma {:induction false} ContainsToLower(s: string, sub: string)
    requires Contains(s, sub)
    ensures Contains(ToLower(s), ToLower(sub))
  {
    var i := ContainsOccurs(s, sub);
    ToLowerSlice(s, i, i + |sub|);
    OccursAtContains(ToLower(s), ToLower(sub), i);
  }

  /** `s.split(sep)`: the pieces between occurrences of `sep`; never empty. */
  function Split(s: string, sep: char): (parts: seq<string>)
    ensures |parts| >= 1
    ensures forall k :: 0 <= k < |parts| ==> sep !in parts[k]
    decreases |s|
  {
    if |s| == 0 then [""]
    else
      var rest := Split(s[1..], sep);
      if s[0] == sep then [""] + rest
      else [[s[0]] + rest[0]] + rest[1..]
  }

  /** `parts.join(sep)`. */
  function Join(parts: seq<string>, sep: char): string
    decreases |parts|
  {
    if |parts| == 0 then ""
    else if |parts| == 1 then parts[0]
    else parts[0] + [sep] + Join(parts[1..], sep)
  }

  /** Joining the pieces of a split gives back the string. */
  lemma {:induction false} JoinSplit(s: string, sep: char)
    ensures Join(Split(s, sep), sep) == s
    decreases |s|
  {
    if |s| > 0 {
      var rest := Split(s[1..], sep);
      JoinSplit(s[1..], sep);
      if s[0] == sep {
        assert Join([""] + rest, sep) == "" + [sep] + Join(rest, sep);
      } else if |rest| == 1 {
        assert Join(rest, sep) == rest[0];
      } else {
        var parts := [[s[0]] + rest[0]] + rest[1..];
        assert parts[1..] == rest[1..];
        assert Join(rest, sep) == rest[0] + [sep] + Join(rest[1..], sep);
      }
    }
  }

  lemma {:induction false} SplitPrefix(w: string, t: string, sep: char)
    requires sep !in w
    ensures Split(w + t, sep) == [w + Split(t, sep)[0]] + Split(t, sep)[1..]
    decreases |w|
  {
    if |w| > 0 {
      SplitPrefix(w[1..], t, sep);
      assert (w + t)[1..] == w[1..] + t;
      assert (w + t)[0] == w[0] && w[0] != sep;
      var rest := Split(w[1..] + t, sep);
      assert Split(w + t, sep) == [[w[0]] + rest[0]] + rest[1..];
      assert [w[0]] + (w[1..] + Split(t, sep)[0]) == w + Split(t, sep)[0];
    } else {
      assert w + t == t;
      assert w + Split(t, sep)[0] == Split(t, sep)[0];
      assert Split(t, sep) == [Split(t, sep)[0]] + Split(t, sep)[1..];
    }
  }

  /** Splitting pieces that hold no separator, once joined, gives back the pieces. */
  lemma {:induction false} SplitJoin(parts: seq<string>, sep: char)
    requires |parts| >= 1
    requires forall k :: 0 <= k < |parts| ==> sep !in parts[k]
    ensures Split(Join(parts, sep), sep) == parts
    decreases |parts|
  {
    if |parts| == 1 {
      SplitPrefix(parts[0], "", sep);
      assert parts[0] + "" == parts[0];
    } else {
      var tail := Join(parts[1..], sep);
      SplitJoin(parts[1..], sep);
      assert parts[0] + [sep] + tail == parts[0] + ([sep] + tail);
      SplitPrefix(parts[0], [sep] + tail, sep);
      assert ([sep] + tail)[1..] == tail;
      assert Split([sep] + tail, sep) == [""] + Split(tail, sep);
      assert Join(parts, sep) == parts[0] + ([sep] + tail);
      assert parts[0] + "" == parts[0];
      assert parts == [parts[0]] + parts[1..];
    }
  }

  /** Every piece of a split is a block of the string. */
  lemma {:induction false} SplitPiecesContained(s: string, sep: char)
    ensures forall k :: 0 <= k < |Split(s, sep)| ==> Contains(s, Split(s, sep)[k])
    decreases |s|
  {
    if |s| > 0 {
      SplitPiecesContained(s[1..], sep);
      var rest := Split(s[1..], sep);
      var parts := Split(s, sep);
      forall k | 0 <= k < |parts|
        ensures Contains(s, parts[k])
      {
        if s[0] == sep {
          if k == 0 {
            OccursAtContains(s, parts[k], 0);
          } else {
            assert parts[k] == rest[k - 1];
            OccursAtContains(s, s[1..], 1);
            ContainsTransitive(s, s[1..], parts[k]);
          }
        } else if k == 0 {
          SplitFirstIsPrefix(s[1..], sep);
          assert s[..|parts[0]|] == parts[0];
          OccursAtContains(s, parts[0], 0);
        } else {
          assert parts[k] == rest[k];
          OccursAtContains(s, s[1..], 1);
          ContainsTransitive(s, s[1..], parts[k]);
        }
      }
    }
  }

  /** The first piece of a split is a prefix of the string. */
  lemma {:induction false} SplitFirstIsPrefix(s: string, sep: char)
    ensures Split(s, sep)[0] <= s
    decreases |s|
  {
    if |s| > 0 {
      SplitFirstIsPrefix(s[1..], sep);
    }
  }

  /** The first piece of a split runs up to the first separator, or is the whole string. */
  lemma {:induction false} SplitFirstEnds(s: string, sep: char)
    ensures var f := Split(s, sep)[0];
      f == s || (|f| < |s| && s[|f|] == sep)
    decreases |s|
  {
    if |s| > 0 && s[0] != sep {
      SplitFirstEnds(s[1..], sep);
    }
  }

  /** `s.trimStart()`: drops the leading white space and nothing else. */
  function TrimStart(s: string): (r: string)
    ensures |r| <= |s| && r == s[|s| - |r|..]
    ensures forall i :: 0 <= i < |s| - |r| ==> IsSpace(s[i])
    ensures r == [] || !IsSpace(r[0])
    decreases |s|
  {
    if |s| > 0 && IsSpace(s[0]) then TrimStart(s[1..]) else s
  }

  /** `s.trimEnd()`: drops the trailing white space and nothing else. */
  function TrimEnd(s: string): (r: string)
    ensures |r| <= |s| && r == s[..|r|]
    ensures forall i :: |r| <= i < |s| ==> IsSpace(s[i])
    ensures r == [] || !IsSpace(r[|r| - 1])
    decreases |s|
  {
    if |s| > 0 && IsSpace(s[|s| - 1]) then TrimEnd(s[..|s| - 1]) else s
  }

  /** `s.trim()`: a block of `s` with no white space at either end. */
  function Trim(s: string): (r: string)
    ensures Contains(s, r)
    ensures r == [] || (!IsSpace(r[0]) && !IsSpace(r[|r| - 1]))
    ensures exists k: nat :: OccursAt(s, r, k) && OnlySpaceAround(s, k, k + |r|)
  {
    var front := TrimStart(s);
    var r := TrimEnd(front);
    var k := |s| - |front|;
    assert r == s[k..][..|r|] == s[k..k + |r|];
    assert forall i :: k + |r| <= i < |s| ==> s[i] == front[i - k];
    assert OccursAt(s, r, k) && OnlySpaceAround(s, k, k + |r|);
    OccursAtContains(s, r, k);
    r
  }

  /** Everything in `s` before index `i` and from index `j` on is white space. */
  predicate OnlySpaceAround(s: string, i: nat, j: nat)
  {
    && (forall n :: 0 <= n < i && n < |s| ==> IsSpace(s[n]))
    && (forall n :: j <= n < |s| ==> IsSpace(s[n]))
  }
}
