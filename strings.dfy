/** The handful of Python string operations the template code relies on:
    `in`, `str.find`, `str.split` with a one-character separator, joining
    with a separator, `list.insert` and `str.replace`. */
module Strings {

  /** `p` is a prefix of `s`. */
  predicate StartsWith(s: string, p: string) {
    |p| <= |s| && s[..|p|] == p
  }

  /** Python's `p in s`. */
  predicate Contains(s: string, p: string)
    decreases |s|
  {
    StartsWith(s, p) || (|s| > 0 && Contains(s[1..], p))
  }

  /** An occurrence at a known position makes `p in s` true. */
  lemma {:induction false} ContainsAt(s: string, p: string, i: nat)
    requires i + |p| <= |s| && s[i..i + |p|] == p
    ensures Contains(s, p)
    decreases i
  {
    if i == 0 {
      assert s[..|p|] == p;
    } else {
      assert s[1..][i - 1..i - 1 + |p|] == s[i..i + |p|];
      ContainsAt(s[1..], p, i - 1);
    }
  }

  /** A string that contains `p` is at least as long as `p`. */
  lemma {:induction false} ContainsLength(s: string, p: string)
    requires Contains(s, p)
    ensures |p| <= |s|
    decreases |s|
  {
    if !StartsWith(s, p) {
      ContainsLength(s[1..], p);
    }
  }

  /** A pattern with a character that `s` lacks does not occur in `s`. */
  lemma {:induction false} MissingCharNotContained(s: string, p: string, j: nat)
    requires j < |p| && p[j] !in s
    ensures !Contains(s, p)
    decreases |s|
  {
    if |s| > 0 {
      assert forall k :: 0 <= k < |s| - 1 ==> s[1..][k] == s[k + 1];
      MissingCharNotContained(s[1..], p, j);
    }
  }

  /** A pattern occurs in any text that has it between two other texts. */
  lemma {:induction false} ContainsMiddle(x: string, p: string, y: string)
    ensures Contains(x + p + y, p)
    decreases |x|
  {
    if |x| == 0 {
      assert x + p + y == p + y;
      assert (p + y)[..|p|] == p;
    } else {
      assert (x + p + y)[1..] == x[1..] + p + y;
      ContainsMiddle(x[1..], p, y);
    }
  }

  /** The first occurrence of a pattern whose first character does not
      occur before it. */
  lemma FindAfter(x: string, p: string, y: string)
    requires |p| > 0 && p[0] !in x
    ensures Find(x + p + y, p) == |x|
  {
    var s := x + p + y;
    ContainsMiddle(x, p, y);
    var r := Find(s, p);
    assert s[|x|..] == p + y;
    assert StartsWith(s[|x|..], p);
    assert s[r..r + |p|][0] == s[r] == p[0];
    assert forall k :: 0 <= k < |x| ==> s[k] == x[k] != p[0];
  }

  /** Python's `s.find(p)`: the first position where `p` occurs, or -1. */
  function Find(s: string, p: string): (r: int)
    ensures -1 <= r <= |s|
    ensures r == -1 <==> !Contains(s, p)
    ensures r >= 0 ==> r + |p| <= |s| && s[r..r + |p|] == p
    ensures r >= 0 ==> forall j :: 0 <= j < r ==> !StartsWith(s[j..], p)
    decreases |s|
  {
    if StartsWith(s, p) then 0
    else if |s| == 0 then -1
    else
      var r := Find(s[1..], p);
      if r < 0 then -1
      else
        assert forall j :: 1 <= j < r + 1 ==> s[j..] == s[1..][j - 1..];
        r + 1
  }

  /** Python's `s.split(c)` for a one-character separator: never empty. */
  function Split(s: string, c: char): (r: seq<string>)
    ensures |r| >= 1
    decreases |s|
  {
    if |s| == 0 then [""]
    else if s[0] == c then [""] + Split(s[1..], c)
    else
      var t := Split(s[1..], c);
      [[s[0]] + t[0]] + t[1..]
  }

  /** Python's `c.join(ts)`, also the token-by-token concatenation loops
      that rebuild a name from its `_`-tokens. */
  function Join(ts: seq<string>, c: char): string
    requires |ts| >= 1
    decreases |ts|
  {
    if |ts| == 1 then ts[0] else ts[0] + [c] + Join(ts[1..], c)
  }

  /** No token that `Split` produces contains the separator. */
  lemma {:induction false} SplitTokensAvoidSeparator(s: string, c: char)
    ensures forall i, j :: 0 <= i < |Split(s, c)| && 0 <= j < |Split(s, c)[i]| ==> Split(s, c)[i][j] != c
    decreases |s|
  {
    if |s| > 0 {
      SplitTokensAvoidSeparator(s[1..], c);
    }
  }

  /** Splitting and joining again gives back the string. */
  lemma {:induction false} JoinSplit(s: string, c: char)
    ensures Join(Split(s, c), c) == s
    decreases |s|
  {
    if |s| == 0 {
    } else if s[0] == c {
      JoinSplit(s[1..], c);
      assert Split(s, c)[1..] == Split(s[1..], c);
    } else {
      var t := Split(s[1..], c);
      JoinSplit(s[1..], c);
      if |t| == 1 {
      } else {
        assert Split(s, c)[1..] == t[1..];
        assert Join(t, c) == t[0] + [c] + Join(t[1..], c);
      }
    }
  }

  /** Joining tokens free of the separator and splitting again gives back
      the tokens. */
  lemma {:induction false} SplitJoin(ts: seq<string>, c: char)
    requires |ts| >= 1
    requires forall i, j :: 0 <= i < |ts| && 0 <= j < |ts[i]| ==> ts[i][j] != c
    ensures Split(Join(ts, c), c) == ts
    decreases |ts|, |ts[0]|
  {
    if |ts| == 1 {
      SplitNoSeparator(ts[0], c);
    } else if |ts[0]| == 0 {
      var rest := Join(ts[1..], c);
      assert Join(ts, c) == [c] + rest;
      assert ([c] + rest)[1..] == rest;
      SplitJoin(ts[1..], c);
    } else {
      var ts' := [ts[0][1..]] + ts[1..];
      assert ts'[1..] == ts[1..];
      assert Join(ts', c) == ts[0][1..] + [c] + Join(ts[1..], c);
      assert Join(ts, c) == [ts[0][0]] + Join(ts', c);
      assert Join(ts, c)[1..] == Join(ts', c);
      SplitJoin(ts', c);
      assert [ts[0][0]] + ts[0][1..] == ts[0];
    }
  }

  /** Splitting at the first separator: the text before it is the first
      token, the rest is split on. */
  lemma {:induction false} SplitAtFirst(a: string, b: string, c: char)
    requires forall j :: 0 <= j < |a| ==> a[j] != c
    ensures Split(a + [c] + b, c) == [a] + Split(b, c)
    decreases |a|
  {
    if |a| == 0 {
      assert (a + [c] + b)[1..] == b;
    } else {
      assert (a + [c] + b)[1..] == a[1..] + [c] + b;
      SplitAtFirst(a[1..], b, c);
      assert [a[0]] + a[1..] == a;
    }
  }

  /** A string made of three separator-free parts joined by the separator
      splits into those three parts. */
  lemma SplitThree(s: string, a: string, b: string, d: string, c: char)
    requires s == a + [c] + b + [c] + d
    requires c !in a && c !in b && c !in d
    ensures Split(s, c) == [a, b, d]
  {
    var rest := b + [c] + d;
    assert Split(rest, c) == [b, d] by {
      SplitNoSeparator(d, c);
      SplitAtFirst(b, d, c);
    }
    assert s == a + [c] + rest;
    SplitAtFirst(a, rest, c);
  }

  /** A string without the separator splits into itself alone. */
  lemma {:induction false} SplitNoSeparator(s: string, c: char)
    requires forall j :: 0 <= j < |s| ==> s[j] != c
    ensures Split(s, c) == [s]
    decreases |s|
  {
    if |s| > 0 {
      SplitNoSeparator(s[1..], c);
      assert [s[0]] + s[1..] == s;
    }
  }

  /** Python's `ts.insert(i, w)`: an index past the end appends. */
  function InsertAt(ts: seq<string>, i: nat, w: string): (r: seq<string>)
    ensures |r| == |ts| + 1
    ensures i <= |ts| ==> r[..i] == ts[..i] && r[i] == w && r[i + 1..] == ts[i..]
    ensures i > |ts| ==> r == ts + [w]
  {
    if i <= |ts| then ts[..i] + [w] + ts[i..] else ts + [w]
  }

  /** Python's `s.replace(p, q)` for a non-empty pattern: every
      non-overlapping occurrence, scanning left to right. */
  function ReplaceAll(s: string, p: string, q: string): string
    requires |p| > 0
    decreases |s|
  {
    if |s| == 0 then ""
    else if StartsWith(s, p) then q + ReplaceAll(s[|p|..], p, q)
    else [s[0]] + ReplaceAll(s[1..], p, q)
  }

  /** Without an occurrence of the pattern, replacing changes nothing. */
  lemma {:induction false} ReplaceAbsent(s: string, p: string, q: string)
    requires |p| > 0 && !Contains(s, p)
    ensures ReplaceAll(s, p, q) == s
    decreases |s|
  {
    if |s| > 0 {
      ReplaceAbsent(s[1..], p, q);
      assert [s[0]] + s[1..] == s;
    }
  }

  /** A text occurs after a prefix only if it occurs in the rest, or at a
      position inside the prefix. */
  lemma {:induction false} NotContainsAppend(a: string, t: string, p: string)
    requires !Contains(t, p)
    requires forall k :: 0 <= k < |a| ==> !StartsWith((a + t)[k..], p)
    ensures !Contains(a + t, p)
    decreases |a|
  {
    if |a| == 0 {
      assert a + t == t;
    } else {
      assert (a + t)[0..] == a + t;
      assert (a + t)[1..] == a[1..] + t;
      forall k | 0 <= k < |a| - 1 ensures !StartsWith((a[1..] + t)[k..], p) {
        assert (a[1..] + t)[k..] == (a + t)[k + 1..];
      }
      NotContainsAppend(a[1..], t, p);
    }
  }

  /** An occurrence in a suffix is an occurrence in the whole text. */
  lemma {:induction false} ContainsAppendLeft(x: string, s: string, p: string)
    requires Contains(s, p)
    ensures Contains(x + s, p)
    decreases |x|
  {
    if |x| > 0 {
      assert (x + s)[1..] == x[1..] + s;
      ContainsAppendLeft(x[1..], s, p);
    } else {
      assert x + s == s;
    }
  }

  /** Text before the first character of the pattern is copied unchanged. */
  lemma {:induction false} ReplaceAllFreePrefix(a: string, s: string, p: string, q: string)
    requires |p| > 0 && p[0] !in a
    ensures ReplaceAll(a + s, p, q) == a + ReplaceAll(s, p, q)
    decreases |a|
  {
    if |a| > 0 {
      assert (a + s)[0] == a[0] != p[0];
      assert (a + s)[1..] == a[1..] + s;
      ReplaceAllFreePrefix(a[1..], s, p, q);
      assert [a[0]] + a[1..] == a;
    } else {
      assert a + s == s;
    }
  }

  /** An occurrence at the front is replaced, and scanning resumes after it. */
  lemma ReplaceAllFront(p: string, s: string, q: string)
    requires |p| > 0
    ensures ReplaceAll(p + s, p, q) == q + ReplaceAll(s, p, q)
  {
    assert (p + s)[..|p|] == p;
    assert (p + s)[|p|..] == s;
  }

  /** A text that starts with one character starts with `w` exactly when
      that character is `w`'s first and the rest starts with `w`'s rest. */
  lemma StartsWithCons(c: char, t: string, w: string)
    requires |w| > 0
    ensures StartsWith([c] + t, w) <==> c == w[0] && StartsWith(t, w[1..])
  {
    if |w| <= |[c] + t| {
      assert ([c] + t)[..|w|] == [c] + t[..|w| - 1];
    }
    assert [w[0]] + w[1..] == w;
  }

  /** When the replacement starts with the pattern's first character, a
      result that starts with text free of that character comes from an
      input that starts with the same text. */
  lemma {:induction false} ReplacedStartsWith(s: string, p: string, q: string, w: string)
    requires |p| > 0 && |q| > 0 && q[0] == p[0] && p[0] !in w
    ensures StartsWith(ReplaceAll(s, p, q), w) ==> StartsWith(s, w)
    decreases |w|
  {
    if |w| == 0 {
      assert s[..0] == w;
    } else if |s| == 0 {
      assert ReplaceAll(s, p, q) == "";
    } else if StartsWith(s, p) {
      var r := ReplaceAll(s, p, q);
      assert r == q + ReplaceAll(s[|p|..], p, q);
      assert r[0] == p[0] != w[0];
    } else {
      var t := ReplaceAll(s[1..], p, q);
      assert ReplaceAll(s, p, q) == [s[0]] + t;
      ReplacedStartsWith(s[1..], p, q, w[1..]);
      StartsWithCons(s[0], t, w);
      StartsWithCons(s[0], s[1..], w);
      assert [s[0]] + s[1..] == s;
    }
  }

  /** `s.replace(p, q)` leaves no occurrence of `p` when the replacement
      cannot start a new one: `q` starts like `p` but differs from it in
      its second character, and the first character of `p` occurs neither
      later in `p` nor later in `q`. (For instance replacing `0Xff_` by
      `0Mff_`.) */
  lemma {:induction false} ReplaceAllRemoves(s: string, p: string, q: string)
    requires |p| >= 2 && |q| >= 2 && q[0] == p[0] && q[1] != p[1]
    requires p[0] !in p[1..] && p[0] !in q[1..]
    ensures !Contains(ReplaceAll(s, p, q), p)
    decreases |s|
  {
    if |s| == 0 {
    } else if StartsWith(s, p) {
      var t := ReplaceAll(s[|p|..], p, q);
      ReplaceAllRemoves(s[|p|..], p, q);
      forall k | 0 <= k < |q| ensures !StartsWith((q + t)[k..], p) {
        if k == 0 {
          assert (q + t)[k..][1] == q[1];
        } else {
          assert (q + t)[k..][0] == q[k] == q[1..][k - 1];
        }
      }
      NotContainsAppend(q, t, p);
    } else {
      var t := ReplaceAll(s[1..], p, q);
      ReplaceAllRemoves(s[1..], p, q);
      ReplacedStartsWith(s[1..], p, q, p[1..]);
      StartsWithCons(s[0], t, p);
      StartsWithCons(s[0], s[1..], p);
      assert [s[0]] + s[1..] == s;
      NotContainsAppend([s[0]], t, p);
    }
  }

  /** The first token of a split is the text before the first separator. */
  lemma {:induction false} SplitHead(s: string, c: char)
    ensures StartsWith(s, Split(s, c)[0])
    ensures forall j :: 0 <= j < |Split(s, c)[0]| ==> Split(s, c)[0][j] != c
    ensures |Split(s, c)[0]| < |s| ==> s[|Split(s, c)[0]|] == c
    decreases |s|
  {
    if |s| > 0 && s[0] != c {
      SplitHead(s[1..], c);
    }
  }

  /** The last token of a split is the text after the last separator. */
  lemma {:induction false} SplitLast(s: string, c: char)
    ensures var r := Split(s, c)[|Split(s, c)| - 1];
      |r| <= |s| && r == s[|s| - |r|..]
      && (forall j :: 0 <= j < |r| ==> r[j] != c)
      && (|r| < |s| ==> s[|s| - |r| - 1] == c)
    ensures |Split(s, c)| == 1 ==> Split(s, c)[0] == s
    ensures |Split(s, c)| > 1 ==> |Split(s, c)[|Split(s, c)| - 1]| < |s|
    decreases |s|
  {
    if |s| > 0 {
      SplitLast(s[1..], c);
      var t := Split(s[1..], c);
      var r := t[|t| - 1];
      if s[0] != c && |t| == 1 {
        assert [s[0]] + s[1..] == s;
      } else {
        assert Split(s, c)[|Split(s, c)| - 1] == r;
        assert s[1..][|s| - 1 - |r|..] == s[|s| - |r|..];
        if |r| < |s| - 1 {
          assert s[1..][|s| - 1 - |r| - 1] == s[|s| - |r| - 1];
        }
      }
    }
  }

  /** `s.split(c)[0]`: the text before the first separator. */
  function BeforeFirst(s: string, c: char): (r: string)
    ensures StartsWith(s, r)
    ensures forall j :: 0 <= j < |r| ==> r[j] != c
    ensures |r| < |s| ==> s[|r|] == c
  {
    SplitHead(s, c);
    Split(s, c)[0]
  }

  /** `s.split(c)[-1]`: the text after the last separator. */
  function AfterLast(s: string, c: char): (r: string)
    ensures |r| <= |s| && r == s[|s| - |r|..]
    ensures forall j :: 0 <= j < |r| ==> r[j] != c
    ensures |r| < |s| ==> s[|s| - |r| - 1] == c
  {
    SplitLast(s, c);
    Split(s, c)[|Split(s, c)| - 1]
  }
}
