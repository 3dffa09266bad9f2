/**
  The loop need not stop: a rule that can reproduce its own nonterminal
  may expand forever. It does stop for a grammar without recursion, which
  is stated here through a rank: every key mentioned by an alternative of
  `v` has a smaller rank than `v`. Each pass then lowers the highest rank
  in the working string, so a number of passes equal to that bound
  suffices, whatever the draws.
 */
module Termination {

  import opened Tokens
  import opened Rules
  import opened Optional
  import opened Derivation

  /** Every key among the tokens has rank below `b`. */
  ghost predicate KeysBelow(g: Store, rank: string -> nat, toks: seq<string>, b: nat) {
    forall i :: 0 <= i < |toks| && toks[i] in g ==> rank(toks[i]) < b
  }

  /** The grammar has no recursion: the keys in an alternative of `v` all rank below `v`. */
  ghost predicate Acyclic(g: Store, rank: string -> nat) {
    forall v, a :: v in g && a in g[v] ==> KeysBelow(g, rank, Split(a), rank(v))
  }

  /** Joining resolved tokens keeps every key below `b` when each token's own pieces do. */
  lemma {:induction false} JoinKeysBelow(g: Store, rank: string -> nat, outs: seq<string>, b: nat)
    requires |outs| >= 1
    requires forall i :: 0 <= i < |outs| ==> KeysBelow(g, rank, Split(outs[i]), b)
    ensures KeysBelow(g, rank, Split(Join(outs)), b)
    decreases |outs|
  {
    if |outs| > 1 {
      JoinKeysBelow(g, rank, outs[1..], b) by {
        forall i | 0 <= i < |outs[1..]| ensures KeysBelow(g, rank, Split(outs[1..][i]), b) {
          assert outs[1..][i] == outs[i + 1];
        }
      }
      SplitAroundSpace(outs[0], Join(outs[1..]));
      assert KeysBelow(g, rank, Split(outs[0]), b);
    }
  }

  /** One pass over a string whose keys rank below `b + 1` leaves only keys ranking below `b`. */
  lemma PassLowersRank(g: Store, rank: string -> nat, s: string, draws: Draws, next: nat, b: nat)
    requires WellFormed(g)
    requires UnitDraws(draws)
    requires Acyclic(g, rank)
    requires KeysBelow(g, rank, Split(s), b + 1)
    ensures KeysBelow(g, rank, Split(ApplyTo(g, s, draws, next).0), b)
  {
    var toks := Split(s);
    SplitSpaced(s);
    var outs := ResolveAll(g, toks, draws, next).0;
    forall i | 0 <= i < |outs| ensures KeysBelow(g, rank, Split(outs[i]), b) {
      assert Resolvent(g, toks[i], outs[i]);
      if toks[i] in g {
        assert KeysBelow(g, rank, Split(outs[i]), rank(toks[i]));
      } else {
        SplitSpaceless(toks[i]);
      }
    }
    JoinKeysBelow(g, rank, outs, b);
  }

  /** With every key ranked below zero there is no key at all. */
  lemma NothingBelowZero(g: Store, rank: string -> nat, s: string)
    requires KeysBelow(g, rank, Split(s), 0)
    ensures !Expandable(g, s)
  {
  }

  /** For a grammar without recursion, `b` passes suffice when every key of `s` ranks below `b`. */
  lemma {:induction false} AcyclicTerminates(g: Store, rank: string -> nat, s: string, draws: Draws, next: nat, b: nat)
    requires WellFormed(g)
    requires UnitDraws(draws)
    requires Acyclic(g, rank)
    requires KeysBelow(g, rank, Split(s), b)
    ensures Derive(g, s, draws, next, b).Some?
    decreases b, 1
  {
    if b == 0 {
      NothingBelowZero(g, rank, s);
    } else if Expandable(g, s) {
      AcyclicPass(g, rank, s, draws, next, b);
    }
  }

  /** The inductive step of `AcyclicTerminates`: one pass, then the remaining `b - 1`. */
  lemma {:induction false} AcyclicPass(g: Store, rank: string -> nat, s: string, draws: Draws, next: nat, b: nat)
    requires WellFormed(g)
    requires UnitDraws(draws)
    requires Acyclic(g, rank)
    requires KeysBelow(g, rank, Split(s), b)
    requires b > 0 && Expandable(g, s)
    ensures Derive(g, s, draws, next, b).Some?
    decreases b, 0
  {
    PassLowersRank(g, rank, s, draws, next, b - 1);
    AcyclicTerminates(g, rank, ApplyTo(g, s, draws, next).0, draws, ApplyTo(g, s, draws, next).1, b - 1);
    DeriveOnePass(g, s, draws, next, b);
  }
}
