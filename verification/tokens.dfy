/**
  Splitting a string at every single space and joining a list of tokens
  with single spaces, as the grammar engine does with `str.split(' ')` and
  `' '.join(...)`.

  Splitting keeps empty tokens: two adjacent spaces give an empty token
  between them, a leading or trailing space gives an empty token at that
  end, and the empty string splits into one empty token. Joining undoes a
  split, so a string survives a split followed by a join unchanged; the
  converse holds for nonempty lists of spaceless tokens.
 */
module Tokens {

  const Space: char := ' '

  /** True when the token holds no space character. */
  predicate Spaceless(t: string) {
    Space !in t
  }

  /** True when every token in the list is spaceless. */
  predicate AllSpaceless(ts: seq<string>) {
    forall i :: 0 <= i < |ts| ==> Spaceless(ts[i])
  }

  /** The number of space characters in `s`. */
  function SpaceCount(s: string): nat {
    if |s| == 0 then 0
    else (if s[0] == Space then 1 else 0) + SpaceCount(s[1..])
  }

  /** The position of the first space: everything before it is spaceless. */
  function FirstSpace(s: string): (i: nat)
    requires !Spaceless(s)
    ensures i < |s| && s[i] == Space
    ensures Spaceless(s[..i])
  {
    if s[0] == Space then 0
    else
      assert s == [s[0]] + s[1..];
      var j := FirstSpace(s[1..]);
      assert s[..j + 1] == [s[0]] + s[1..][..j];
      j + 1
  }

  /** A space with only spaceless text before it is the first space. */
  lemma FirstSpaceUnique(s: string, j: nat)
    requires j < |s| && s[j] == Space && Spaceless(s[..j])
    ensures FirstSpace(s) == j
  {
    var i := FirstSpace(s);
    forall k | 0 <= k < j ensures s[k] != Space {
      assert s[..j][k] == s[k];
    }
    forall k | 0 <= k < i ensures s[k] != Space {
      assert s[..i][k] == s[k];
    }
  }

  /** Concatenation is associative. */
  lemma AppendAssoc<T>(a: seq<T>, b: seq<T>, c: seq<T>)
    ensures a + b + c == a + (b + c)
  {
  }

  /** `s.split(' ')`: the maximal space-free pieces of `s`, empty ones included. */
  function Split(s: string): (r: seq<string>)
    ensures |r| >= 1
    decreases |s|
  {
    if Spaceless(s) then [s]
    else
      var i := FirstSpace(s);
      [s[..i]] + Split(s[i + 1..])
  }

  /** `' '.join(ts)`: the tokens separated by single spaces; the empty list joins to "". */
  function Join(ts: seq<string>): (r: string)
    ensures |ts| > 0 ==> ts[0] <= r
    ensures |ts| > 1 ==> |r| > |ts[0]| && r[|ts[0]|] == Space
    ensures |r| >= |ts| - 1
    decreases |ts|
  {
    if |ts| == 0 then ""
    else if |ts| == 1 then ts[0]
    else ts[0] + [Space] + Join(ts[1..])
  }

  /** Splitting then joining gives back the original string. */
  lemma {:induction false} JoinSplit(s: string)
    ensures Join(Split(s)) == s
    decreases |s|
  {
    if !Spaceless(s) {
      var i := FirstSpace(s);
      var rest := Split(s[i + 1..]);
      JoinSplit(s[i + 1..]);
      assert Split(s)[1..] == rest;
      assert s == s[..i] + [Space] + s[i + 1..];
    }
  }

  /** A spaceless string has no space to count. */
  lemma {:induction false} SpacelessCount(t: string)
    requires Spaceless(t)
    ensures SpaceCount(t) == 0
    decreases |t|
  {
    if |t| > 0 {
      assert forall k :: 0 <= k < |t[1..]| ==> t[1..][k] == t[k + 1];
      assert t[0] in t;
      SpacelessCount(t[1..]);
    }
  }

  /** Counting spaces distributes over concatenation. */
  lemma {:induction false} SpaceCountAppend(a: string, b: string)
    ensures SpaceCount(a + b) == SpaceCount(a) + SpaceCount(b)
    decreases |a|
  {
    if |a| > 0 {
      assert (a + b)[0] == a[0];
      assert (a + b)[1..] == a[1..] + b;
      SpaceCountAppend(a[1..], b);
    } else {
      assert a + b == b;
    }
  }

  /** A split has exactly one more token than the string has spaces. */
  lemma {:induction false} SplitCount(s: string)
    ensures |Split(s)| == SpaceCount(s) + 1
    decreases |s|
  {
    if Spaceless(s) {
      SpacelessCount(s);
    } else {
      var i := FirstSpace(s);
      assert s == s[..i] + ([Space] + s[i + 1..]);
      SpaceCountAppend(s[..i], [Space] + s[i + 1..]);
      SpaceCountAppend([Space], s[i + 1..]);
      SpacelessCount(s[..i]);
      SplitCount(s[i + 1..]);
    }
  }

  /** A spaceless string splits into exactly itself. */
  lemma SplitSpaceless(t: string)
    requires Spaceless(t)
    ensures Split(t) == [t]
  {
  }

  /** No token of a split holds a space. */
  lemma {:induction false} SplitSpaced(s: string)
    ensures AllSpaceless(Split(s))
    decreases |s|
  {
    if !Spaceless(s) {
      var i := FirstSpace(s);
      var r := Split(s[i + 1..]);
      SplitSpaced(s[i + 1..]);
      assert Split(s) == [s[..i]] + r;
      forall k | 0 <= k < |[s[..i]] + r| ensures Spaceless(([s[..i]] + r)[k]) {
        if k > 0 {
          assert ([s[..i]] + r)[k] == r[k - 1];
        }
      }
    }
  }

  /** Splitting at a space with only spaceless text before it: that text, then the pieces after. */
  lemma SplitAt(s: string, i: nat)
    requires i < |s| && s[i] == Space && Spaceless(s[..i])
    ensures Split(s) == [s[..i]] + Split(s[i + 1..])
  {
    FirstSpaceUnique(s, i);
  }

  /** A spaceless token, a space, then the rest: that token, then the pieces of the rest. */
  lemma SplitCons(p: string, rest: string)
    requires Spaceless(p)
    ensures Split(p + [Space] + rest) == [p] + Split(rest)
  {
    var s := p + [Space] + rest;
    assert s[..|p|] == p && s[|p|] == Space && s[|p| + 1..] == rest;
    SplitAt(s, |p|);
  }

  /** Splitting distributes over a space: the pieces of `a` followed by those of `b`. */
  lemma {:induction false} SplitAroundSpace(a: string, b: string)
    ensures Split(a + [Space] + b) == Split(a) + Split(b)
    decreases |a|
  {
    if Spaceless(a) {
      SplitCons(a, b);
      SplitSpaceless(a);
    } else {
      var i := FirstSpace(a);
      var p, t := a[..i], a[i + 1..];
      assert a == p + [Space] + t;
      assert a + [Space] + b == p + [Space] + (t + [Space] + b);
      calc {
        Split(a + [Space] + b);
      == { SplitCons(p, t + [Space] + b); }
        [p] + Split(t + [Space] + b);
      == { SplitAroundSpace(t, b); }
        [p] + (Split(t) + Split(b));
      == { AppendAssoc([p], Split(t), Split(b)); }
        [p] + Split(t) + Split(b);
      == { SplitCons(p, t); }
        Split(a) + Split(b);
      }
    }
  }

  /** Joining a nonempty list of spaceless tokens then splitting gives back the list. */
  lemma {:induction false} SplitJoin(ts: seq<string>)
    requires |ts| >= 1
    requires AllSpaceless(ts)
    ensures Split(Join(ts)) == ts
    decreases |ts|
  {
    assert Spaceless(ts[0]);
    if |ts| == 1 {
      SplitSpaceless(ts[0]);
    } else {
      var rest := ts[1..];
      assert AllSpaceless(rest) by {
        forall i | 0 <= i < |rest| ensures Spaceless(rest[i]) {
          assert rest[i] == ts[i + 1];
        }
      }
      calc {
        Split(Join(ts));
        Split(ts[0] + [Space] + Join(rest));
      == { SplitCons(ts[0], Join(rest)); }
        [ts[0]] + Split(Join(rest));
      == { SplitJoin(rest); }
        [ts[0]] + rest;
        ts;
      }
    }
  }

  /** The first token is the text before the first space, or the whole string when it has none. */
  lemma SplitHead(s: string)
    ensures var h := Split(s)[0];
      Spaceless(h) &&
      ((Spaceless(s) && h == s) ||
      (|h| < |s| && s[..|h|] == h && s[|h|] == Space))
  {
    SplitSpaced(s);
  }
}
