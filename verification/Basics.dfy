/** What several modules share. */
module Basics {
  newtype Byte = x: int | 0 <= x < 256

  ghost predicate Distinct<T>(s: seq<T>) {
    forall i, j :: 0 <= i < j < |s| ==> s[i] != s[j]
  }

  function Pow(b: nat, e: nat): (p: nat)
    ensures b > 0 ==> p > 0
  {
    if e == 0 then 1 else b * Pow(b, e - 1)
  }

  /** More of the same run of threads, with nothing but the given action. */
  ghost predicate Finishes<S, A>(states: seq<S>, moves: seq<(nat, A)>, states': seq<S>, moves': seq<(nat, A)>, a: A) {
    && |states| <= |states'| && states'[..|states|] == states
    && |moves| <= |moves'| && moves'[..|moves|] == moves
    && forall i :: |moves| <= i < |moves'| ==> moves'[i].1 == a
  }

  lemma Longer<S, A>(states: seq<S>, moves: seq<(nat, A)>, s: S, u: nat, states': seq<S>, moves': seq<(nat, A)>, a: A)
    requires Finishes(states + [s], moves + [(u, a)], states', moves', a)
    ensures Finishes(states, moves, states', moves', a)
  {
    assert states'[..|states|] == states'[..|states| + 1][..|states|];
    assert moves'[..|moves|] == moves'[..|moves| + 1][..|moves|];
    forall i | |moves| <= i < |moves'|
      ensures moves'[i].1 == a
    {
      assert i == |moves| ==> moves'[i] == moves'[..|moves| + 1][i];
    }
  }

  ghost function Sum(f: nat -> nat, ts: set<nat>): nat {
    if ts == {} then 0
    else
      var t :| t in ts;
      f(t) + Sum(f, ts - {t})
  }

  lemma {:induction false} SumWithout(f: nat -> nat, ts: set<nat>, t: nat)
    requires t in ts
    ensures Sum(f, ts) == f(t) + Sum(f, ts - {t})
  {
    var u :| u in ts && Sum(f, ts) == f(u) + Sum(f, ts - {u});
    if u != t {
      SumWithout(f, ts - {u}, t);
      SumWithout(f, ts - {t}, u);
      assert ts - {u} - {t} == ts - {t} - {u};
    }
  }

  lemma {:induction false} SumSame(f: nat -> nat, g: nat -> nat, ts: set<nat>)
    requires forall t :: t in ts ==> g(t) == f(t)
    ensures Sum(g, ts) == Sum(f, ts)
  {
    if t :| t in ts {
      SumWithout(f, ts, t);
      SumWithout(g, ts, t);
      SumSame(f, g, ts - {t});
    }
  }

  lemma SumLess(f: nat -> nat, g: nat -> nat, ts: set<nat>, u: nat)
    requires u in ts && g(u) < f(u) && forall t :: t in ts && t != u ==> g(t) == f(t)
    ensures Sum(g, ts) < Sum(f, ts)
  {
    SumWithout(f, ts, u);
    SumWithout(g, ts, u);
    SumSame(f, g, ts - {u});
  }

  lemma Distribute(a: int, b: int, c: int)
    ensures (a + b) * c == a * c + b * c
    ensures (a - b) * c == a * c - b * c
  {}

  lemma NotNegative(a: nat, b: nat)
    ensures a * b >= 0
  {}

  lemma ModUnique(x: int, q: int, r: nat, m: nat)
    requires r < m && x == q * m + r
    ensures x % m == r
  {
    var p := x / m;
    assert x == p * m + x % m;
    Distribute(q, p, m);
    if q > p {
      Distribute(q - p - 1, 1, m);
      NotNegative(q - p - 1, m);
    } else if q < p {
      Distribute(p - q - 1, 1, m);
      NotNegative(p - q - 1, m);
      Distribute(p, q, m);
    }
  }
}
