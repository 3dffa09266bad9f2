/**
  Reading rules: each line `<lhs> <arrow> <symbols...>` becomes one
  production. The first space-separated token is the left-hand side, the
  second is discarded, and the remaining tokens, joined with single
  spaces, form the right-hand side. A line with fewer than three tokens
  gives the empty right-hand side; no line is rejected.

  Reading stops at the first empty line or when the lines run out. Lines
  are given with their line terminator already removed.
 */
module Reader {

  import opened Tokens
  import opened Rules

  /** One production `lhs ::= rhs` as read from a line. */
  datatype Production = Production(lhs: string, rhs: string)

  /** The per-line parse of `read`: token 0 is the lhs, token 1 is dropped, tokens 2.. are rejoined. */
  function ParseLine(line: string): (p: Production)
    ensures Spaceless(p.lhs)
    ensures line == p.lhs || (|p.lhs| < |line| && line[..|p.lhs|] == p.lhs && line[|p.lhs|] == Space)
    ensures SpaceCount(line) < 2 ==> p.rhs == ""
  {
    SplitHead(line);
    SplitSpaced(line);
    SplitCount(line);
    var syms := Split(line);
    var rest := if |syms| >= 2 then syms[2..] else [];
    Production(syms[0], Join(rest))
  }

  /** A rule line: the lhs, the separator token and the rhs, with single spaces between. */
  function FormatLine(lhs: string, arrow: string, rhs: string): string {
    lhs + [Space] + arrow + [Space] + rhs
  }

  /** Parsing a formatted line gives back its lhs and rhs, whatever the rhs holds. */
  lemma ParseFormat(lhs: string, arrow: string, rhs: string)
    requires Spaceless(lhs) && Spaceless(arrow)
    ensures ParseLine(FormatLine(lhs, arrow, rhs)) == Production(lhs, rhs)
  {
    var line := FormatLine(lhs, arrow, rhs);
    FormatLineGrouped(lhs, arrow, rhs);
    SplitCons(lhs, arrow + [Space] + rhs);
    SplitCons(arrow, rhs);
    DropTwo(lhs, arrow, Split(rhs));
    JoinSplit(rhs);
  }

  /** The first of `[x, y] + r` is `x`, and dropping two leaves `r`. */
  lemma DropTwo<T>(x: T, y: T, r: seq<T>)
    ensures ([x] + ([y] + r))[0] == x
    ensures |[x] + ([y] + r)| >= 2 && ([x] + ([y] + r))[2..] == r
  {
  }

  /** A formatted line, grouped as the split reads it: lhs, a space, then the rest. */
  lemma FormatLineGrouped(lhs: string, arrow: string, rhs: string)
    ensures FormatLine(lhs, arrow, rhs) == lhs + [Space] + (arrow + [Space] + rhs)
  {
    AppendAssoc(lhs + [Space], arrow, [Space]);
    AppendAssoc(lhs + [Space], arrow + [Space], rhs);
    AppendAssoc(arrow, [Space], rhs);
  }

  /** Conversely, a line with at least two spaces is the formatted line of its parse, for its second token. */
  lemma ParseCutsAtTwoSpaces(line: string)
    requires SpaceCount(line) >= 2
    ensures exists arrow :: Spaceless(arrow) && line == FormatLine(ParseLine(line).lhs, arrow, ParseLine(line).rhs)
  {
    var syms := Split(line);
    SplitSpaced(line);
    SplitCount(line);
    JoinSplit(line);
    var lhs, arrow, rhs := syms[0], syms[1], Join(syms[2..]);
    assert ParseLine(line) == Production(lhs, rhs);
    assert Join(syms) == lhs + [Space] + Join(syms[1..]);
    assert Join(syms[1..]) == arrow + [Space] + rhs by {
      assert syms[1..][0] == arrow;
      assert syms[1..][1..] == syms[2..];
    }
    FormatLineGrouped(lhs, arrow, rhs);
    assert Spaceless(arrow) && line == FormatLine(lhs, arrow, rhs);
  }

  /** The lines `read` consumes: those before the first empty line. */
  function Block(lines: seq<string>): (b: seq<string>)
    ensures |b| <= |lines| && b == lines[..|b|]
    ensures forall i :: 0 <= i < |b| ==> b[i] != ""
    ensures |b| < |lines| ==> lines[|b|] == ""
    decreases |lines|
  {
    if |lines| == 0 || lines[0] == "" then []
    else [lines[0]] + Block(lines[1..])
  }

  /** Each consumed line parsed into its production. */
  function ParseAll(lines: seq<string>): seq<Production> {
    seq(|lines|, i requires 0 <= i < |lines| => ParseLine(lines[i]))
  }

  /** Adds the productions in order, as repeated `self[lhs] = rhs`. */
  function AddAll(g: Store, ps: seq<Production>): (r: Store)
    ensures WellFormed(g) ==> WellFormed(r)
    decreases |ps|
  {
    if |ps| == 0 then g else AddAll(Add(g, ps[0].lhs, ps[0].rhs), ps[1..])
  }

  /** The right-hand sides the productions give `v`, in order. */
  function RhsFor(v: string, ps: seq<Production>): seq<string>
    decreases |ps|
  {
    if |ps| == 0 then []
    else (if ps[0].lhs == v then [ps[0].rhs] else []) + RhsFor(v, ps[1..])
  }

  /** The left-hand sides the productions name. */
  function LhsOf(ps: seq<Production>): set<string>
    decreases |ps|
  {
    if |ps| == 0 then {} else {ps[0].lhs} + LhsOf(ps[1..])
  }

  /** `read` without the file: one production per line, up to the first empty line. */
  function ReadLines(g: Store, lines: seq<string>): (r: Store)
    ensures WellFormed(g) ==> WellFormed(r)
  {
    AddAll(g, ParseAll(Block(lines)))
  }

  /** Adding productions appends, per nonterminal, the rhs of its productions in order, and nothing else. */
  lemma {:induction false} AddAllAlternatives(g: Store, ps: seq<Production>, v: string)
    ensures Alternatives(AddAll(g, ps), v) == Alternatives(g, v) + RhsFor(v, ps)
    decreases |ps|
  {
    if |ps| > 0 {
      var g' := Add(g, ps[0].lhs, ps[0].rhs);
      AddAllAlternatives(g', ps[1..], v);
      AddOneAlternative(g, ps, v);
    }
  }

  /** The first production contributes its rhs to `v` exactly when its lhs is `v`. */
  lemma AddOneAlternative(g: Store, ps: seq<Production>, v: string)
    requires |ps| > 0
    ensures Alternatives(Add(g, ps[0].lhs, ps[0].rhs), v) + RhsFor(v, ps[1..]) == Alternatives(g, v) + RhsFor(v, ps)
  {
    var mine := if ps[0].lhs == v then [ps[0].rhs] else [];
    assert Alternatives(Add(g, ps[0].lhs, ps[0].rhs), v) == Alternatives(g, v) + mine;
    assert RhsFor(v, ps) == mine + RhsFor(v, ps[1..]);
    AppendAssoc(Alternatives(g, v), mine, RhsFor(v, ps[1..]));
  }

  /** `AddAllAlternatives` for every nonterminal at once. */
  lemma AddAllAlternativesEverywhere(g: Store, ps: seq<Production>)
    ensures forall v :: Alternatives(AddAll(g, ps), v) == Alternatives(g, v) + RhsFor(v, ps)
  {
    forall v ensures Alternatives(AddAll(g, ps), v) == Alternatives(g, v) + RhsFor(v, ps) {
      AddAllAlternatives(g, ps, v);
    }
  }

  /** Adding productions adds exactly their left-hand sides to the keys. */
  lemma {:induction false} AddAllKeys(g: Store, ps: seq<Production>)
    ensures AddAll(g, ps).Keys == g.Keys + LhsOf(ps)
    decreases |ps|
  {
    if |ps| > 0 {
      AddAllKeys(Add(g, ps[0].lhs, ps[0].rhs), ps[1..]);
    }
  }

  /** Reading stops at the first empty line: nothing after it reaches the store. */
  lemma ReadStopsAtBlank(g: Store, before: seq<string>, after: seq<string>)
    requires forall i :: 0 <= i < |before| ==> before[i] != ""
    ensures ReadLines(g, before + [""] + after) == ReadLines(g, before)
  {
    BlockOfPrefix(before, after);
  }

  /** The consumed block of `before + [""] + after` is `before`. */
  lemma {:induction false} BlockOfPrefix(before: seq<string>, after: seq<string>)
    requires forall i :: 0 <= i < |before| ==> before[i] != ""
    ensures Block(before + [""] + after) == before
    ensures Block(before) == before
    decreases |before|
  {
    if |before| > 0 {
      assert (before + [""] + after)[1..] == before[1..] + [""] + after;
      BlockOfPrefix(before[1..], after);
    }
  }
}
