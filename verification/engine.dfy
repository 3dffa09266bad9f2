/**
  The grammar object: an optional start string and the rule store, with
  the operations of the class that owns them. A new grammar has an empty
  store; productions come from `Add` or from reading lines; `Generate`
  runs the rewrite loop from the start string.
 */
module Engine {

  import opened Tokens
  import opened Rules
  import opened Optional
  import opened Derivation
  import opened Reader

  datatype Grammar = Grammar(start: Option<string>, rules: Store) {

    /** The store invariant every grammar built through these operations keeps. */
    predicate Valid() {
      WellFormed(rules)
    }

    /** `self[var] = rhs`. */
    function Add(v: string, rhs: string): (r: Grammar)
      ensures r.start == start
      ensures Valid() ==> r.Valid()
      ensures Alternatives(r.rules, v) == Alternatives(rules, v) + [rhs]
      ensures r.rules.Keys == rules.Keys + {v}
      ensures forall k :: k in rules && k != v ==> r.rules[k] == rules[k]
    {
      this.(rules := Rules.Add(rules, v, rhs))
    }

    /** `read`, on the lines of the file with their terminators removed. */
    function Read(lines: seq<string>): (r: Grammar)
      ensures r.start == start
      ensures Valid() ==> r.Valid()
      ensures r.rules.Keys == rules.Keys + LhsOf(ParseAll(Block(lines)))
      ensures forall v :: Alternatives(r.rules, v) == Alternatives(rules, v) + RhsFor(v, ParseAll(Block(lines)))
    {
      AddAllKeys(rules, ParseAll(Block(lines)));
      AddAllAlternativesEverywhere(rules, ParseAll(Block(lines)));
      this.(rules := ReadLines(rules, lines))
    }

    /**
      `generate` with at most `fuel` rewrite passes, drawing from `draws`.
      Whatever it returns has no nonterminal left and is derivable from the
      start string; a start string without nonterminals comes back as is.
     */
    function Generate(draws: Draws, fuel: nat): (r: Option<string>)
      requires start.Some?
      requires Valid()
      requires UnitDraws(draws)
      ensures r.Some? ==> !Expandable(rules, r.value)
      ensures r.Some? ==> exists n: nat :: n <= fuel && Reaches(rules, start.value, r.value, n)
      ensures !Expandable(rules, start.value) ==> r == start
    {
      var r := Derive(rules, start.value, draws, 0, fuel);
      if r.Some? then DeriveSound(rules, start.value, draws, 0, fuel); r else r
    }
  }

  /** `Grammar(start_string)`: the given start string and an empty store. */
  function New(start: Option<string>): (gr: Grammar)
    ensures gr.Valid()
    ensures gr.start == start && gr.rules.Keys == {}
  {
    Grammar(start, Empty)
  }
}
