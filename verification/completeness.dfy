/**
  The converse of soundness: every terminal string that some chain of
  rewrite passes reaches is the result of the bounded loop for some
  stream of draws. Together with `Derivation.DeriveSound` this says the
  engine's possible outputs are exactly the terminal strings derivable
  from the start string.
 */
module Completeness {

  import opened Tokens
  import opened Rules
  import opened Optional
  import opened Derivation

  /** The stream, read from position `next`, begins with the draws `w`. */
  ghost predicate Agrees(draws: Draws, next: nat, w: seq<real>) {
    forall k :: 0 <= k < |w| ==> draws(next + k) == w[k]
  }

  /** Every element of `w` is a unit draw. */
  predicate AllUnit(w: seq<real>) {
    forall k :: 0 <= k < |w| ==> UnitDraw(w[k])
  }

  /** Every resolution of a token list is what one pass produces for suitable draws. */
  lemma {:induction false} ChoicesFor(g: Store, toks: seq<string>, outs: seq<string>) returns (w: seq<real>)
    requires WellFormed(g)
    requires ResolvesTo(g, toks, outs)
    ensures |w| == KeyCount(g, toks)
    ensures AllUnit(w)
    ensures forall draws: Draws, next: nat :: UnitDraws(draws) && Agrees(draws, next, w) ==>
              ResolveAll(g, toks, draws, next).0 == outs
    decreases |toks|
  {
    if |toks| == 0 {
      w := [];
    } else {
      var t := toks[0];
      assert ResolvesTo(g, toks[1..], outs[1..]) by {
        forall i | 0 <= i < |toks[1..]| ensures Resolvent(g, toks[1..][i], outs[1..][i]) {
          assert Resolvent(g, toks[i + 1], outs[i + 1]);
        }
      }
      var rest := ChoicesFor(g, toks[1..], outs[1..]);
      assert outs == [outs[0]] + outs[1..];
      assert Resolvent(g, toks[0], outs[0]);
      if t in g {
        var u := ResolveReachesEvery(g, t, outs[0]);
        w := [u] + rest;
        forall draws: Draws, next: nat | UnitDraws(draws) && Agrees(draws, next, w)
          ensures ResolveAll(g, toks, draws, next).0 == outs
        {
          assert draws(next + 0) == w[0];
          assert Agrees(draws, next + 1, rest) by {
            forall k | 0 <= k < |rest| ensures draws(next + 1 + k) == rest[k] {
              assert draws(next + (k + 1)) == w[k + 1];
            }
          }
        }
      } else {
        w := rest;
      }
    }
  }

  /** A chain of passes from a terminal string stays at that string. */
  lemma {:induction false} ReachesFromTerminal(g: Store, s: string, t: string, n: nat)
    requires !Expandable(g, s)
    requires Reaches(g, s, t, n)
    ensures t == s
    decreases n
  {
    if n > 0 {
      var m :| Rewrites(g, s, m) && Reaches(g, m, t, n - 1);
      TerminalFixedPoint(g, s, m);
      ReachesFromTerminal(g, m, t, n - 1);
    }
  }

  /**
    If `n` passes can take `s` to the terminal string `t`, then draws `w`
    exist that make the loop, given `n` passes, return `t`.
   */
  lemma {:induction false} DeriveComplete(g: Store, s: string, t: string, n: nat) returns (w: seq<real>)
    requires WellFormed(g)
    requires Reaches(g, s, t, n)
    requires !Expandable(g, t)
    ensures AllUnit(w)
    ensures forall draws: Draws, next: nat :: UnitDraws(draws) && Agrees(draws, next, w) ==>
              Derive(g, s, draws, next, n) == Some(t)
    decreases n
  {
    if !Expandable(g, s) {
      ReachesFromTerminal(g, s, t, n);
      w := [];
    } else {
      assert n > 0;
      var m :| Rewrites(g, s, m) && Reaches(g, m, t, n - 1);
      var outs :| ResolvesTo(g, Split(s), outs) && Join(outs) == m;
      var w1 := ChoicesFor(g, Split(s), outs);
      var w2 := DeriveComplete(g, m, t, n - 1);
      w := w1 + w2;
      forall draws: Draws, next: nat | UnitDraws(draws) && Agrees(draws, next, w)
        ensures Derive(g, s, draws, next, n) == Some(t)
      {
        AgreesSplit(draws, next, w1, w2);
        assert ResolveAll(g, Split(s), draws, next).0 == outs;
        assert ApplyTo(g, s, draws, next).0 == m;
        assert ApplyTo(g, s, draws, next).1 == next + |w1|;
        DeriveOnePass(g, s, draws, next, n);
        assert Derive(g, m, draws, next + |w1|, n - 1) == Some(t);
      }
    }
  }

  /** A stream that begins with `w1 + w2` begins with `w1`, and continues with `w2` after it. */
  lemma AgreesSplit(draws: Draws, next: nat, w1: seq<real>, w2: seq<real>)
    requires Agrees(draws, next, w1 + w2)
    ensures Agrees(draws, next, w1)
    ensures Agrees(draws, next + |w1|, w2)
  {
    var w := w1 + w2;
    forall k | 0 <= k < |w1| ensures draws(next + k) == w1[k] {
      assert w[k] == w1[k];
    }
    forall k | 0 <= k < |w2| ensures draws(next + |w1| + k) == w2[k] {
      assert draws(next + (|w1| + k)) == w[|w1| + k];
    }
  }

  /** Some stream of unit draws makes the loop return any terminal string reachable from `s`. */
  lemma GenerateCanReach(g: Store, s: string, t: string, n: nat) returns (draws: Draws)
    requires WellFormed(g)
    requires Reaches(g, s, t, n)
    requires !Expandable(g, t)
    ensures UnitDraws(draws)
    ensures Derive(g, s, draws, 0, n) == Some(t)
  {
    var w := DeriveComplete(g, s, t, n);
    draws := (k: nat) => if k < |w| then w[k] else 0.0;
    assert Agrees(draws, 0, w) by {
      forall k | 0 <= k < |w| ensures draws(0 + k) == w[k] {
      }
    }
  }
}
