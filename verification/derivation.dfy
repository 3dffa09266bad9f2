/**
  The derivation engine: the expandability test, one parallel rewrite pass
  (`applyTo`) and the rewrite loop (`generate`).

  A pass splits the working string at every space, resolves every token
  through the rule store, and joins the results with single spaces. Each
  key token consumes the next draw of the random stream; other tokens
  consume nothing. The loop repeats passes until no token is a key. It may
  run forever, so the model bounds it by a number of passes (`fuel`) and
  reports `None` when `fuel` passes are spent and a nonterminal remains.

  Besides the executable definitions, the module states the relational
  meaning of a pass (`Rewrites`: some resolution of every token) and of a
  derivation (`Reaches`: a chain of passes), and proves soundness: every
  string the engine returns is a terminal string reachable that way. The
  converse is proved in the `Completeness` module.
 */
module Derivation {

  import opened Tokens
  import opened Rules
  import opened Optional

  /** The stream of values `random()` returns, from the first call on. */
  type Draws = nat -> real

  /** Every draw of the stream lies in the half-open unit interval. */
  ghost predicate UnitDraws(draws: Draws) {
    forall k: nat :: UnitDraw(draws(k))
  }

  /** Some token of the list is a key of the store. */
  predicate HasKey(g: Store, toks: seq<string>) {
    exists i :: 0 <= i < |toks| && toks[i] in g
  }

  /** The string still holds a nonterminal, read token by token as the engine reads it. */
  predicate Expandable(g: Store, s: string) {
    HasKey(g, Split(s))
  }

  /** `isExpandable`: scans the tokens of `s` and stops at the first key. */
  method IsExpandable(g: Store, s: string) returns (b: bool)
    ensures b ==> exists i :: 0 <= i < |Split(s)| && Split(s)[i] in g
    ensures !b ==> forall i :: 0 <= i < |Split(s)| ==> Split(s)[i] !in g
  {
    var makelist := Split(s);
    var length := |makelist|;
    for i := 0 to length
      invariant forall j :: 0 <= j < i ==> makelist[j] !in g
    {
      if makelist[i] in g {
        assert Split(s)[i] in g;
        return true;
      }
    }
    return false;
  }

  /** The number of key tokens: the number of draws one pass over them consumes. */
  function KeyCount(g: Store, toks: seq<string>): (r: nat)
    ensures r == 0 <==> !HasKey(g, toks)
    ensures r <= |toks|
    decreases |toks|
  {
    if |toks| == 0 then 0
    else (if toks[0] in g then 1 else 0) + KeyCount(g, toks[1..])
  }

  /** `outs` is a position-wise resolution of `toks`. */
  predicate ResolvesTo(g: Store, toks: seq<string>, outs: seq<string>) {
    |outs| == |toks| && forall i :: 0 <= i < |toks| ==> Resolvent(g, toks[i], outs[i])
  }

  /**
    The loop body of `applyTo`: resolves every token from left to right,
    drawing from the stream at position `next` for each key. Returns the
    resolved tokens and the position of the first unused draw.
   */
  function ResolveAll(g: Store, toks: seq<string>, draws: Draws, next: nat): (r: (seq<string>, nat))
    requires WellFormed(g)
    requires UnitDraws(draws)
    ensures ResolvesTo(g, toks, r.0)
    ensures r.1 == next + KeyCount(g, toks)
    decreases |toks|
  {
    if |toks| == 0 then ([], next)
    else
      var used := if toks[0] in g then 1 else 0;
      var rest := ResolveAll(g, toks[1..], draws, next + used);
      ([Resolve(g, toks[0], draws(next))] + rest.0, rest.1)
  }

  /** One parallel rewrite: `t` joins some resolution of every token of `s`. */
  ghost predicate Rewrites(g: Store, s: string, t: string) {
    exists outs :: ResolvesTo(g, Split(s), outs) && Join(outs) == t
  }

  /** `applyTo`: one rewrite pass over `s`, with the stream position after it. */
  function ApplyTo(g: Store, s: string, draws: Draws, next: nat): (r: (string, nat))
    requires WellFormed(g)
    requires UnitDraws(draws)
    ensures Rewrites(g, s, r.0)
    ensures !Expandable(g, s) ==> r.0 == s
    ensures r.1 == next + KeyCount(g, Split(s))
  {
    var res := ResolveAll(g, Split(s), draws, next);
    TerminalsResolveToThemselves(g, Split(s), res.0);
    JoinSplit(s);
    (Join(res.0), res.1)
  }

  /** A list without keys has only itself as a resolution. */
  lemma TerminalsResolveToThemselves(g: Store, toks: seq<string>, outs: seq<string>)
    ensures !HasKey(g, toks) ==> (ResolvesTo(g, toks, outs) <==> outs == toks)
  {
  }

  /** Terminal fixed point: a string without keys rewrites to itself and to nothing else. */
  lemma TerminalFixedPoint(g: Store, s: string, t: string)
    requires !Expandable(g, s)
    ensures Rewrites(g, s, t) <==> t == s
  {
    JoinSplit(s);
    TerminalsResolveToThemselves(g, Split(s), Split(s));
    if Rewrites(g, s, t) {
      var outs :| ResolvesTo(g, Split(s), outs) && Join(outs) == t;
      TerminalsResolveToThemselves(g, Split(s), outs);
    }
  }

  /** `t` is reached from `s` by exactly `n` rewrite passes. */
  ghost predicate Reaches(g: Store, s: string, t: string, n: nat)
    decreases n
  {
    if n == 0 then s == t
    else exists m :: Rewrites(g, s, m) && Reaches(g, m, t, n - 1)
  }

  /**
    `generate` from working string `s`, with at most `fuel` passes: while
    the string is expandable, apply a pass. `None` means the bound was hit.
   */
  function Derive(g: Store, s: string, draws: Draws, next: nat, fuel: nat): (r: Option<string>)
    requires WellFormed(g)
    requires UnitDraws(draws)
    ensures r.Some? ==> !Expandable(g, r.value)
    ensures !Expandable(g, s) ==> r == Some(s)
    decreases fuel
  {
    if !Expandable(g, s) then Some(s)
    else if fuel == 0 then None
    else
      var step := ApplyTo(g, s, draws, next);
      Derive(g, step.0, draws, step.1, fuel - 1)
  }

  /** An expandable string with passes left continues with the result of one pass. */
  lemma DeriveOnePass(g: Store, s: string, draws: Draws, next: nat, b: nat)
    requires WellFormed(g)
    requires UnitDraws(draws)
    requires b > 0 && Expandable(g, s)
    ensures Derive(g, s, draws, next, b)
         == Derive(g, ApplyTo(g, s, draws, next).0, draws, ApplyTo(g, s, draws, next).1, b - 1)
  {
  }

  /** Soundness: whatever the bounded loop returns is reached from `s` by at most `fuel` passes. */
  lemma {:induction false} DeriveSound(g: Store, s: string, draws: Draws, next: nat, fuel: nat)
    requires WellFormed(g)
    requires UnitDraws(draws)
    requires Derive(g, s, draws, next, fuel).Some?
    ensures exists n: nat :: n <= fuel && Reaches(g, s, Derive(g, s, draws, next, fuel).value, n)
    decreases fuel
  {
    var t := Derive(g, s, draws, next, fuel).value;
    if !Expandable(g, s) {
      assert Reaches(g, s, t, 0);
    } else {
      var step := ApplyTo(g, s, draws, next);
      DeriveSound(g, step.0, draws, step.1, fuel - 1);
      var n: nat :| n <= fuel - 1 && Reaches(g, step.0, t, n);
      assert Reaches(g, s, t, n + 1);
    }
  }

  /** More passes never change a result already reached: the bound only decides whether there is one. */
  lemma {:induction false} DeriveFuelMonotone(g: Store, s: string, draws: Draws, next: nat, fuel: nat, more: nat)
    requires WellFormed(g)
    requires UnitDraws(draws)
    requires fuel <= more
    requires Derive(g, s, draws, next, fuel).Some?
    ensures Derive(g, s, draws, next, more) == Derive(g, s, draws, next, fuel)
    decreases fuel
  {
    if Expandable(g, s) {
      var step := ApplyTo(g, s, draws, next);
      DeriveFuelMonotone(g, step.0, draws, step.1, fuel - 1, more - 1);
    }
  }
}
