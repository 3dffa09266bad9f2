/**
  Small grammars with their expected outcomes: the animal grammar yields
  one of its four sentences for every stream of draws and each sentence
  for some stream; the store and reading examples give exact stores.
 */
module Scenarios {

  import opened Tokens
  import opened Rules
  import opened Optional
  import opened Derivation
  import opened Reader
  import opened Engine
  import opened Completeness

  /** `<s> ::= <n> <v>`, `<n> ::= dog | cat`, `<v> ::= barks | meows`, started at `<s>`. */
  function Animals(): Grammar {
    New(Some("<s>"))
      .Add("<s>", "<n> <v>")
      .Add("<n>", "dog").Add("<n>", "cat")
      .Add("<v>", "barks").Add("<v>", "meows")
  }

  /** Two spaceless tokens joined by one space split back into those two. */
  lemma SplitPair(a: string, b: string)
    requires Spaceless(a) && Spaceless(b)
    ensures Split(a + " " + b) == [a, b]
  {
    SplitAroundSpace(a, b);
    SplitSpaceless(a);
    SplitSpaceless(b);
  }

  /** The store of `Animals`, written out. */
  function AnimalRules(): Store {
    map["<s>" := ["<n> <v>"], "<n>" := ["dog", "cat"], "<v>" := ["barks", "meows"]]
  }

  /** The four sentences of the animal grammar: a noun, one space, a verb. */
  function Sentences(): set<string> {
    {"dog barks", "dog meows", "cat barks", "cat meows"}
  }

  /** A noun and a verb joined by one space form a sentence. */
  lemma NounVerbIsSentence(noun: string, verb: string)
    requires noun in ["dog", "cat"] && verb in ["barks", "meows"]
    ensures noun + " " + verb in Sentences()
  {
    if noun == "dog" {
      if verb == "barks" {
        assert noun + " " + verb == "dog barks";
      } else {
        assert noun + " " + verb == "dog meows";
      }
    } else {
      if verb == "barks" {
        assert noun + " " + verb == "cat barks";
      } else {
        assert noun + " " + verb == "cat meows";
      }
    }
  }

  /** Two terminal tokens joined by one space hold no nonterminal. */
  lemma TerminalPair(g: Store, a: string, b: string)
    requires Spaceless(a) && Spaceless(b)
    requires a !in g && b !in g
    ensures !Expandable(g, a + " " + b)
  {
    SplitPair(a, b);
  }

  /** Building the grammar by insertions gives the written-out store. */
  lemma AnimalsStore()
    ensures Animals() == Grammar(Some("<s>"), AnimalRules())
    ensures WellFormed(AnimalRules())
  {
    var g := Animals().rules;
    assert g.Keys == AnimalRules().Keys;
    assert g["<s>"] == ["<n> <v>"];
    assert g["<n>"] == ["dog", "cat"];
    assert g["<v>"] == ["barks", "meows"];
  }

  /** The first pass replaces `<s>` by its only alternative. */
  lemma AnimalsFirstPass(draws: Draws, next: nat)
    requires UnitDraws(draws)
    ensures WellFormed(AnimalRules())
    ensures Expandable(AnimalRules(), "<s>")
    ensures ApplyTo(AnimalRules(), "<s>", draws, next).0 == "<n> <v>"
  {
    AnimalsStore();
    SplitSpaceless("<s>");
    assert Split("<s>")[0] in AnimalRules();
    var outs := ResolveAll(AnimalRules(), ["<s>"], draws, next).0;
    assert Resolvent(AnimalRules(), "<s>", outs[0]);
  }

  /** The second pass picks a noun and a verb. */
  lemma AnimalsSecondPass(draws: Draws, next: nat)
    requires UnitDraws(draws)
    ensures WellFormed(AnimalRules())
    ensures Expandable(AnimalRules(), "<n> <v>")
    ensures ApplyTo(AnimalRules(), "<n> <v>", draws, next).0 in Sentences()
  {
    AnimalsStore();
    assert "<n> <v>" == "<n>" + " " + "<v>";
    SplitPair("<n>", "<v>");
    assert Split("<n> <v>")[0] in AnimalRules();
    var outs := ResolveAll(AnimalRules(), ["<n>", "<v>"], draws, next).0;
    assert Resolvent(AnimalRules(), "<n>", outs[0]);
    assert Resolvent(AnimalRules(), "<v>", outs[1]);
    assert Join(outs) == outs[0] + " " + outs[1];
    assert outs[0] in ["dog", "cat"] && outs[1] in ["barks", "meows"];
    NounVerbIsSentence(outs[0], outs[1]);
  }

  /** None of the sentences holds a nonterminal. */
  lemma SentencesAreTerminal(t: string)
    requires t in Sentences()
    ensures !Expandable(AnimalRules(), t)
  {
    var g := AnimalRules();
    assert "dog" !in g && "cat" !in g && "barks" !in g && "meows" !in g;
    if t == "dog barks" {
      assert t == "dog" + " " + "barks";
      TerminalPair(g, "dog", "barks");
    } else if t == "dog meows" {
      assert t == "dog" + " " + "meows";
      TerminalPair(g, "dog", "meows");
    } else if t == "cat barks" {
      assert t == "cat" + " " + "barks";
      TerminalPair(g, "cat", "barks");
    } else {
      assert t == "cat" + " " + "meows";
      TerminalPair(g, "cat", "meows");
    }
  }

  /** The loop over the animal store stops after two passes at a sentence. */
  lemma AnimalsDerive(draws: Draws, fuel: nat)
    requires UnitDraws(draws)
    requires fuel >= 2
    ensures WellFormed(AnimalRules())
    ensures Derive(AnimalRules(), "<s>", draws, 0, fuel).Some?
    ensures Derive(AnimalRules(), "<s>", draws, 0, fuel).value in Sentences()
  {
    var g := AnimalRules();
    AnimalsFirstPass(draws, 0);
    var first := ApplyTo(g, "<s>", draws, 0);
    AnimalsSecondPass(draws, first.1);
    var second := ApplyTo(g, first.0, draws, first.1);
    SentencesAreTerminal(second.0);
    DeriveOnePass(g, "<s>", draws, 0, fuel);
    DeriveOnePass(g, first.0, draws, first.1, fuel - 1);
  }

  /** The animal grammar yields one of its four sentences within two passes, whatever the draws. */
  lemma AnimalsGenerate(draws: Draws, fuel: nat)
    requires UnitDraws(draws)
    requires fuel >= 2
    ensures var r := Animals().Generate(draws, fuel);
      r.Some? && r.value in Sentences()
  {
    AnimalsStore();
    AnimalsDerive(draws, fuel);
  }

  /** `<s>` rewrites to `<n> <v>`. */
  lemma AnimalsFirstRewrite()
    ensures Rewrites(AnimalRules(), "<s>", "<n> <v>")
  {
    SplitSpaceless("<s>");
    assert ResolvesTo(AnimalRules(), Split("<s>"), ["<n> <v>"]);
    assert Join(["<n> <v>"]) == "<n> <v>";
  }

  /** `<n> <v>` rewrites to every noun followed by every verb. */
  lemma AnimalsSecondRewrite(noun: string, verb: string)
    requires noun in ["dog", "cat"] && verb in ["barks", "meows"]
    ensures Rewrites(AnimalRules(), "<n> <v>", noun + " " + verb)
  {
    assert "<n> <v>" == "<n>" + " " + "<v>";
    SplitPair("<n>", "<v>");
    assert ResolvesTo(AnimalRules(), Split("<n> <v>"), [noun, verb]);
    assert Join([noun, verb]) == noun + " " + verb;
  }

  /** Conversely, every sentence is what some stream of draws makes the animal grammar yield. */
  lemma AnimalsYieldEverySentence(noun: string, verb: string) returns (draws: Draws)
    requires noun in ["dog", "cat"] && verb in ["barks", "meows"]
    ensures UnitDraws(draws)
    ensures Animals().Generate(draws, 2) == Some(noun + " " + verb)
  {
    AnimalsStore();
    var g := AnimalRules();
    var t := noun + " " + verb;
    AnimalsFirstRewrite();
    AnimalsSecondRewrite(noun, verb);
    assert Reaches(g, t, t, 0);
    assert Reaches(g, "<n> <v>", t, 1);
    assert Reaches(g, "<s>", t, 2);
    NounVerbIsSentence(noun, verb);
    SentencesAreTerminal(t);
    draws := GenerateCanReach(g, "<s>", t, 2);
  }

  /** A single alternative leaves no choice: `<s> ::= a` always yields `a`. */
  lemma SingleAlternative(draws: Draws, fuel: nat)
    requires UnitDraws(draws)
    requires fuel >= 1
    ensures New(Some("<s>")).Add("<s>", "a").Generate(draws, fuel) == Some("a")
  {
    var g := New(Some("<s>")).Add("<s>", "a").rules;
    assert g == map["<s>" := ["a"]];
    SplitSpaceless("<s>");
    SplitSpaceless("a");
    assert ApplyTo(g, "<s>", draws, 0).0 == "a";
  }

  /** Two productions for one nonterminal keep both, in insertion order. */
  lemma AccumulatedAlternatives()
    ensures New(None).Add("<x>", "a").Add("<x>", "b").rules == map["<x>" := ["a", "b"]]
  {
    var g := New(None).Add("<x>", "a").Add("<x>", "b").rules;
    assert g.Keys == {"<x>"};
    assert g["<x>"] == ["a", "b"];
  }

  /** The rule line `<s> ::= a` parses to `<s> ::= a`. */
  lemma RuleLineParse()
    ensures ParseLine("<s> ::= a") == Production("<s>", "a")
  {
    assert FormatLine("<s>", "::=", "a") == "<s> ::= a";
    ParseFormat("<s>", "::=", "a");
  }

  /** Only the line before the blank one is consumed. */
  lemma RuleBlock()
    ensures Block(["<s> ::= a", "", "<t> ::= b"]) == ["<s> ::= a"]
  {
    assert ["<s> ::= a", "", "<t> ::= b"] == ["<s> ::= a"] + [""] + ["<t> ::= b"];
    BlockOfPrefix(["<s> ::= a"], ["<t> ::= b"]);
  }

  /** The lines `<s> ::= a`, blank, `<t> ::= b` add exactly `<s> ::= a` to an empty store. */
  lemma ReadRuleLines()
    ensures ReadLines(Empty, ["<s> ::= a", "", "<t> ::= b"]) == map["<s>" := ["a"]]
  {
    RuleBlock();
    RuleLineParse();
    var ps := ParseAll(["<s> ::= a"]);
    assert ps == [Production("<s>", "a")];
    var g := Rules.Add(Empty, "<s>", "a");
    assert g == map["<s>" := ["a"]];
    assert AddAll(Empty, ps) == AddAll(g, ps[1..]);
    assert ps[1..] == [];
  }

  /** Reading `<s> ::= a` then a blank line stores exactly that alternative and ignores what follows. */
  lemma ReadOneRule()
    ensures New(Some("<s>")).Read(["<s> ::= a", "", "<t> ::= b"]).rules == map["<s>" := ["a"]]
  {
    ReadRuleLines();
  }
}
