/**
  The rule store of the grammar: a map from a nonterminal to the ordered
  list of its alternative right-hand sides, and the resolver that turns a
  symbol into one of its alternatives.

  A symbol is a nonterminal exactly when it is a key of the store; every
  other string is a terminal. The random choice among alternatives is
  modelled by a draw `u` from the half-open unit interval, scaled by the
  number of alternatives and rounded down.
 */
module Rules {

  /** Nonterminal |-> its alternatives, in insertion order. */
  type Store = map<string, seq<string>>

  /** The store before any production was added. */
  const Empty: Store := map[]

  /** Every key has at least one alternative: the only way in is `Add`, which never stores an empty list. */
  predicate WellFormed(g: Store) {
    forall v :: v in g ==> |g[v]| > 0
  }

  /** The alternatives of `v`, or none when `v` is not a key. */
  function Alternatives(g: Store, v: string): seq<string> {
    if v in g then g[v] else []
  }

  /** Adds the production `v ::= rhs`: appends `rhs` to the alternatives of `v`, creating the entry if needed. */
  function Add(g: Store, v: string, rhs: string): (r: Store)
    ensures v in r
    ensures Alternatives(r, v) == Alternatives(g, v) + [rhs]
    ensures r.Keys == g.Keys + {v}
    ensures forall k :: k in g && k != v ==> r[k] == g[k]
    ensures WellFormed(g) ==> WellFormed(r)
  {
    if v in g then g[v := g[v] + [rhs]] else g[v := [rhs]]
  }

  /** A draw of Python's `random()`: a number in the half-open unit interval. */
  predicate UnitDraw(u: real) {
    0.0 <= u < 1.0
  }

  /** `int(random() * n)`: scales a unit draw to an index below `n`, rounding down. */
  function PickIndex(u: real, n: nat): (r: nat)
    requires UnitDraw(u)
    requires n > 0
    ensures r < n
    ensures r as real <= u * n as real < r as real + 1.0
  {
    assert u * n as real < n as real by {
      assert (1.0 - u) * n as real > 0.0;
    }
    (u * n as real).Floor
  }

  /**
    Index `j` is chosen exactly by the draws in `[j/n, (j+1)/n)`, an interval
    of width `1/n`; the intervals of the `n` indices tile the unit interval, so
    a uniform draw picks every index with probability `1/n`.
   */
  lemma PickIndexInterval(u: real, n: nat, j: nat)
    requires UnitDraw(u)
    requires n > 0
    ensures PickIndex(u, n) == j <==> (j as real) / (n as real) <= u < (j as real + 1.0) / (n as real)
  {
    var N := n as real;
    var J := j as real;
    var r := PickIndex(u, n);
    var x := u * N;
    assert N > 0.0;
    assert J / N <= u <==> J <= x by {
      ScaleOrder(J / N, u, N);
      DivTimes(J, N);
    }
    var K := J + 1.0;
    assert u < K / N <==> x < K by {
      ScaleOrder(u, K / N, N);
      DivTimes(K, N);
    }
    assert r == j <==> J <= x < J + 1.0 by {
      if r < j {
        assert r as real + 1.0 <= J;
      } else if r > j {
        assert J + 1.0 <= r as real;
      }
    }
  }

  /** Dividing by a positive number and multiplying back gives the original. */
  lemma DivTimes(a: real, c: real)
    requires c > 0.0
    ensures a / c * c == a
  {
  }

  /** Multiplying by a positive number keeps both strict and non-strict order. */
  lemma ScaleOrder(x: real, y: real, c: real)
    requires c > 0.0
    ensures x <= y <==> x * c <= y * c
    ensures x < y <==> x * c < y * c
  {
    assert y * c - x * c == (y - x) * c;
    if x < y {
      assert (y - x) * c > 0.0;
    } else {
      assert (x - y) * c >= 0.0;
    }
  }

  /** The draw `j/n` picks index `j`: every alternative can be chosen. */
  lemma PickIndexOf(n: nat, j: nat)
    requires j < n
    ensures UnitDraw((j as real) / (n as real))
    ensures PickIndex((j as real) / (n as real), n) == j
  {
    var N := n as real;
    var J := j as real;
    assert J / N < 1.0 by {
      assert J / N * N == J;
    }
    PickIndexInterval(J / N, n, j);
    assert J / N < (J + 1.0) / N by {
      assert (J + 1.0) / N - J / N == 1.0 / N;
    }
  }

  /** `y` is a possible resolution of symbol `x`: one of its alternatives if it is a key, otherwise `x` itself. */
  predicate Resolvent(g: Store, x: string, y: string) {
    if x in g then y in g[x] else y == x
  }

  /** `self[var]`: a key resolves to the alternative the draw picks; any other string to itself. */
  function Resolve(g: Store, v: string, u: real): (r: string)
    requires WellFormed(g)
    requires UnitDraw(u)
    ensures Resolvent(g, v, r)
  {
    if v in g then g[v][PickIndex(u, |g[v]|)] else v
  }

  /** Every alternative of a key is the resolution of some draw. */
  lemma ResolveReachesEvery(g: Store, v: string, a: string) returns (u: real)
    requires WellFormed(g)
    requires v in g && a in g[v]
    ensures UnitDraw(u)
    ensures Resolve(g, v, u) == a
  {
    var j :| 0 <= j < |g[v]| && g[v][j] == a;
    PickIndexOf(|g[v]|, j);
    u := (j as real) / (|g[v]| as real);
  }
}
