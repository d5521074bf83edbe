/** Utility.h: difference and union of vectors of symbols. */
module GaVectors {
  type Symbol = string

  ghost predicate Distinct(s: seq<Symbol>) {
    forall x :: multiset(s)[x] <= 1
  }

  /** The elements of u that are not in v. */
  function Difference(u: seq<Symbol>, v: seq<Symbol>): seq<Symbol> {
    if u == [] then [] else (if u[0] !in v then [u[0]] else []) + Difference(u[1..], v)
  }

  lemma DifferenceStep(u: seq<Symbol>, i: nat, v: seq<Symbol>)
    requires i < |u|
    ensures Difference(u[i..], v) == (if u[i] !in v then [u[i]] else []) + Difference(u[i + 1..], v)
  {
    assert u[i..][1..] == u[i + 1..];
  }

  lemma DifferenceOfNone(v: seq<Symbol>)
    ensures Difference([], v) == []
  {}

  lemma Regrouped(a: seq<Symbol>, x: Symbol, b: seq<Symbol>)
    ensures a + ([x] + b) == a + [x] + b
  {}

  /** operator- */
  method Minus(u: seq<Symbol>, v: seq<Symbol>) returns (result: seq<Symbol>)
    ensures result == Difference(u, v)
  {
    hide Difference;
    result := [];
    DifferenceOfNone(v);
    for i := 0 to |u|
      invariant result + Difference(u[i..], v) == Difference(u[0..], v)
    {
      DifferenceStep(u, i, v);
      if u[i] !in v {
        Regrouped(result, u[i], Difference(u[i + 1..], v));
        result := result + [u[i]];
      }
    }
    assert u[0..] == u && u[|u|..] == [] && result + [] == result;
  }

  /** operator+: what of v is not in u goes behind u. */
  method Plus(u: seq<Symbol>, v: seq<Symbol>) returns (result: seq<Symbol>)
    ensures result == u + Difference(v, u)
  {
    hide Difference;
    result := u;
    DifferenceOfNone(u);
    for i := 0 to |v|
      invariant result + Difference(v[i..], u) == u + Difference(v[0..], u)
    {
      DifferenceStep(v, i, u);
      if v[i] !in u {
        Regrouped(result, v[i], Difference(v[i + 1..], u));
        result := result + [v[i]];
      }
    }
    assert v[0..] == v && v[|v|..] == [] && result + [] == result;
  }

  /** A difference keeps the multiplicity of what it keeps. */
  lemma {:induction false} DifferenceCounts(u: seq<Symbol>, v: seq<Symbol>, x: Symbol)
    ensures multiset(Difference(u, v))[x] == if x in v then 0 else multiset(u)[x]
  {
    if u != [] {
      assert u == [u[0]] + u[1..];
      DifferenceCounts(u[1..], v, x);
    }
  }
}
