# Stochastic grammar expander, modelled in Dafny

The model covers the derivation engine of the `Grammar` class in `Grammar.py`. That class generates random sentences from a context-free grammar. It has four parts:

- **Rule store.** A map from a nonterminal string to the ordered list of its alternative right-hand sides. `self[var] = rhs` appends `rhs` to the list for `var`, or creates the list `[rhs]`.
- **Resolver.** `self[var]` returns a string that is not a key unchanged, because it is a terminal. For a key it returns the alternative at index `int(random() * len(alts))`.
- **Rewrite pass.** `applyTo` splits the working string at every single space and resolves every token. It then joins the results with single spaces.
- **Rewrite loop.** `generate` starts from the start string. It repeats the pass while `isExpandable` finds a token that is a key.

The per-line parse of `read` is modelled too. Token 0 is the left-hand side, token 1 is dropped, and tokens 2 onward, rejoined, form the right-hand side.

Modules, leaf first:

- `Tokens`: `str.split(' ')` and `' '.join` on `seq<char>`. Empty tokens are kept. `JoinSplit` (joining undoes a split) is the reason a string without nonterminals is an exact fixed point of a pass. `SplitJoin` is the converse round-trip, for nonempty lists of spaceless tokens.
- `Rules`: the store (`map<string, seq<string>>`), insertion, and the resolver. A call to `random()` is a draw `u` in `[0, 1)` passed in as an argument. `PickIndex` computes `floor(u * n)` over exact reals. `PickIndexInterval` proves that index `j` is chosen exactly by the draws in `[j/n, (j+1)/n)`. Each index therefore owns an interval of width `1/n`, which is what a uniform choice among `n` alternatives needs.
- `Derivation`: `isExpandable` (a loop, as in the source), the pass (`ResolveAll`, `ApplyTo`), and the loop (`Derive`), which stops after at most `fuel` passes. The stream of draws is a function `nat -> real`. Only key tokens consume a draw, left to right, as `__getitem__` does. `Rewrites` and `Reaches` give the relational meaning: some alternative for every key token, and a chain of such passes.
- `Completeness`: every terminal string that a chain of passes reaches is the output for some stream of draws. With `DeriveSound`, the possible outputs of `generate` are exactly the derivable terminal strings.
- `Termination`: a grammar without recursion has a rank that falls along every alternative. For such a grammar, enough passes always reach a terminal string.
- `Reader`: the line parse and the reading fold over lines that have already had their newline removed.
- `Engine`: the `Grammar` object (optional start string plus store) with `Add`, `Read` and `Generate`.
- `Scenarios`: small grammars with their expected outcomes. The animal grammar yields one of its four sentences for every stream of draws, and each sentence for some stream. The store and reading examples give exact stores.

Three behaviours of the code that a reader might not expect:

- A rule line with fewer than three tokens is not rejected. It yields the empty right-hand side. A line of one token is also its own left-hand side.
- Reading stops at the end of the input as well as at a blank line. At end of file `readline()` returns `''`, and that ends the loop.
- The code never checks for a missing start string. Here `Generate` requires one.

## Model

| member | source | states |
|---|---|---|
| Tokens.Split | Grammar.py:135 | `segments = deriv.split(' ')` yields at least one token; with `SplitCount`, `SplitSpaced` and `JoinSplit` it is exactly the list of maximal space-free pieces, empty ones included, that rejoins to the input |
| Tokens.Join | Grammar.py:147 | `' '.join(segments)` starts with the first token, puts a single space right after it when there is a second, and spends at least one separator character per gap; `SplitJoin` shows that splitting the result gives back the list itself, when it is nonempty and its tokens are spaceless |
| Tokens.SplitCount | Grammar.py:135 | `split(' ')` yields exactly one more token than the string has spaces |
| Tokens.SplitSpaced | Grammar.py:135 | no token of `split(' ')` holds a space |
| Tokens.SplitCons | Grammar.py:34-36 | a spaceless token followed by a space is the first piece of the split, and the split of the rest follows it |
| Tokens.JoinSplit | Grammar.py:135-147 | rejoining the tokens of a split with single spaces gives back the original string, empty tokens included |
| Tokens.SplitJoin | Grammar.py:135-147 | splitting the join of a nonempty list of spaceless tokens gives back that list |
| Tokens.SplitAroundSpace | Grammar.py:107 | the tokens of `a + ' ' + b` are the tokens of `a` followed by the tokens of `b`, which is how a joined pass result is read by the next expandability check |
| Tokens.SplitHead | Grammar.py:34-36 | token 0 holds no space and is the text before the first space, or the whole string when it has no space |
| Rules.Add | Grammar.py:57-65 | adding `var ::= rhs` appends `rhs` after the earlier alternatives of `var`, or creates the list `[rhs]`; the key set gains `var`; every other entry is unchanged; no list ever becomes empty |
| Rules.PickIndex | Grammar.py:88-90 | `int(random() * rlen)` lies in `[0, rlen)` and is the floor of the scaled draw |
| Rules.PickIndexInterval | Grammar.py:90 | index `j` is picked exactly when the draw lies in `[j/n, (j+1)/n)`, an interval of width `1/n` |
| Rules.PickIndexOf | Grammar.py:90-92 | the draw `j/n` is a valid draw and picks index `j` |
| Rules.Resolve | Grammar.py:82-96 | a key resolves to one of its alternatives; any other string resolves to itself |
| Rules.ResolveReachesEvery | Grammar.py:84-92 | every alternative of a key is the resolution of some draw |
| Derivation.IsExpandable | Grammar.py:105-116 | the scan returns true exactly when some token of `split(' ')` is a key |
| Derivation.KeyCount | Grammar.py:139-144 | a pass consumes one draw per key token; the count is zero exactly when no token is a key |
| Derivation.ResolveAll | Grammar.py:135-144 | the resolved list has as many tokens as the split; token `i` becomes itself if it is not a key, else one of its alternatives; the stream advances by the number of key tokens |
| Derivation.ApplyTo | Grammar.py:133-149 | the result of a pass is a `Rewrites` successor of its input, and a string without key tokens comes back unchanged |
| Derivation.TerminalFixedPoint | Grammar.py:133-149 | a string without key tokens rewrites to itself and to nothing else |
| Derivation.Derive | Grammar.py:117-125 | whatever the loop returns has no key token left, and a start string without key tokens is returned as is |
| Derivation.DeriveSound | Grammar.py:117-125 | a returned string is reached from the start string by a chain of at most `fuel` passes |
| Derivation.DeriveFuelMonotone | Grammar.py:119-123 | a larger pass bound never changes a result already returned, so the bound only decides whether there is one |
| Completeness.ChoicesFor | Grammar.py:139-144 | every position-wise resolution of the tokens is what one pass produces for some draws |
| Completeness.ReachesFromTerminal | Grammar.py:120 | a chain of passes from a string without key tokens stays at that string |
| Completeness.DeriveComplete | Grammar.py:117-125 | if `n` passes can take `s` to a terminal string `t`, some draws make the loop return `t` within `n` passes |
| Completeness.GenerateCanReach | Grammar.py:117-125 | some stream of valid draws makes the loop return any terminal string reachable from the start |
| Termination.JoinKeysBelow | Grammar.py:147 | joining resolved tokens introduces no key of higher rank than those inside the tokens |
| Termination.PassLowersRank | Grammar.py:133-149 | in a grammar without recursion, one pass lowers the bound on the ranks of the keys in the string by one |
| Termination.NothingBelowZero | Grammar.py:105-116 | a string whose keys all rank below zero is not expandable |
| Termination.AcyclicTerminates | Grammar.py:119-123 | in a grammar without recursion the loop returns within `b` passes when every key in the string ranks below `b`, for any draws |
| Termination.AcyclicPass | Grammar.py:119-123 | the inductive step of `AcyclicTerminates`: an expandable string takes one pass and then the remaining `b - 1` |
| Reader.ParseLine | Grammar.py:34-38 | the lhs is the text before the first space and holds no space; a line with fewer than two spaces gives the empty rhs |
| Reader.ParseFormat | Grammar.py:34-38 | parsing `lhs + ' ' + arrow + ' ' + rhs` gives back `lhs` and `rhs` exactly, for a spaceless `lhs` and `arrow` |
| Reader.ParseCutsAtTwoSpaces | Grammar.py:34-38 | a line with at least two spaces is the lhs, a spaceless separator and the rhs of its parse, joined by single spaces |
| Reader.Block | Grammar.py:31-41 | the consumed lines are the longest prefix without an empty line, and an empty line follows it unless the input ended |
| Reader.ReadLines | Grammar.py:28-41 | reading keeps the store invariant that every list is nonempty |
| Reader.AddAll | Grammar.py:40 | adding productions in order keeps the store invariant |
| Reader.AddAllAlternatives | Grammar.py:40 | after adding productions, the alternatives of each nonterminal are its old ones followed by the rhs of its productions, in order, without deduplication |
| Reader.AddAllKeys | Grammar.py:40 | adding productions adds exactly their left-hand sides to the key set |
| Reader.ReadStopsAtBlank | Grammar.py:32 | lines after the first empty line never reach the store |
| Engine.New | Grammar.py:18-22 | a new grammar keeps the given start string and has no rules |
| Engine.Grammar.Add | Grammar.py:57-65 | component assignment appends the alternative, keeps the start string, and changes no other entry |
| Engine.Grammar.Read | Grammar.py:28-41 | reading adds the left-hand sides of the consumed lines to the keys, and appends their right-hand sides in line order |
| Engine.Grammar.Generate | Grammar.py:103-125 | a returned string has no nonterminal and is derivable from the start string; a start string without nonterminals is returned unchanged |
| Scenarios.AnimalsGenerate | Grammar.py:103-125 | with `<s> ::= <n> <v>`, `<n> ::= dog \| cat`, `<v> ::= barks \| meows`, generation always yields one of the four sentences |
| Scenarios.AnimalsYieldEverySentence | Grammar.py:103-125 | each of the four sentences is yielded for some stream of draws |
| Scenarios.SingleAlternative | Grammar.py:82-96 | with the single rule `<s> ::= a`, generation yields `a` for every stream of draws |
| Scenarios.AccumulatedAlternatives | Grammar.py:57-65 | adding `<x> ::= a` and then `<x> ::= b` stores exactly `['a', 'b']` under `<x>` |
| Scenarios.ReadRuleLines | Grammar.py:31-41 | the lines `<s> ::= a`, blank, `<t> ::= b` add exactly the alternative `a` under `<s>` to an empty store |
| Scenarios.ReadOneRule | Grammar.py:28-41 | reading `<s> ::= a`, a blank line and one more rule stores only `<s> ::= a` |

## Left out

- File handling in `read` is not modelled: `open`, `readline`, and the `[:-1]` that removes the newline. That last step also drops a real character from a final line that has no newline. Lines reach the model with their terminator already removed.
- Floating point: `random()` and the product `random() * rlen` are modelled as exact reals. IEEE rounding is not modelled. Neither is the distribution itself. The interval lemma states what a uniform draw implies but makes no claim about probabilities.
- Derivation.Derive: bounded by a `fuel` number of passes and returns `None` when `fuel` passes are spent and a nonterminal remains. The source loops forever on a grammar whose expansion never stops, and that non-termination is not modelled.
- Derivation.ApplyTo: takes a string. The source's `applyTo(self, deriv=None)` defaults its argument to `None`, and a call without one fails inside `None.split`. That failure is not modelled.
- Derivation.IsExpandable: takes a string. The source's `isExpandable(deriv=None)` has the same `None` default and the same failure, which is not modelled either.
- Engine.Grammar.Generate: requires a start string. A grammar built without one fails inside `None.split` when generating, and that failure is not modelled.
- The random state persists across calls in the source. Each `Generate` call here takes the stream of draws from its own first call of `random()` onward.
