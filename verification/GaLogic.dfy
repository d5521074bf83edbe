/** GALogic.h and the generation loop: the genetic algorithm, with rand() as a list of arbitrary draws. */
module GaLogic {
  import opened Wrappers
  import opened GaVectors

  const POP_SIZE := 100
  const STOCK_NUMBER := 10
  const SYMBOLS := 505
  const PARENTS := 69
  const TWICE := 29
  const GENERATIONS := 40
  const MAX_ALLOWABLE_GENERATIONS := 1000

  /** The numbers that rand() will return; a run that needs more of them does not end. */
  class Rand {
    var draws: seq<nat>

    constructor (draws: seq<nat>)
      ensures this.draws == draws
    {
      this.draws := draws;
    }

    method Next() returns (r: Option<nat>)
      modifies this
      ensures if old(draws) == [] then r == None && draws == []
        else r == Some(old(draws)[0]) && draws == old(draws)[1..]
    {
      if draws == [] {
        return None;
      }
      r := Some(draws[0]);
      draws := draws[1..];
    }
  }

  /** A portfolio of the population: its symbols, and the fitness that its stocks give it. */
  datatype Portfolio = Portfolio(symbols: seq<Symbol>, fitness: real)

  ghost predicate Universe(symbols: seq<Symbol>) {
    |symbols| == SYMBOLS && Distinct(symbols) && "" !in symbols
  }

  /** Ten different symbols of the universe. */
  ghost predicate Holding(s: seq<Symbol>, universe: seq<Symbol>) {
    |s| == STOCK_NUMBER && Distinct(s) && forall x | x in s :: x in universe
  }

  ghost predicate PopulationOk(population: seq<Portfolio>, universe: seq<Symbol>, fitness: seq<Symbol> -> real) {
    && |population| == POP_SIZE
    && forall p | p in population :: Holding(p.symbols, universe) && p.fitness == fitness(p.symbols)
  }

  /** GetPortfolio, for what a portfolio of these symbols is worth. */
  function GetPortfolio(symbols: seq<Symbol>, fitness: seq<Symbol> -> real): Portfolio {
    Portfolio(symbols, fitness(symbols))
  }

  /** The different symbols that are drawn from a pool until there are n, and the draws that are left. */
  function Collected(pool: seq<Symbol>, draws: seq<nat>, got: seq<Symbol>, n: nat): (seq<Symbol>, seq<nat>)
    decreases |draws|
  {
    if |got| >= n || draws == [] || pool == [] then (got, draws) else
    var symbol := pool[draws[0] % |pool|];
    Collected(pool, draws[1..], if symbol in got then got else got + [symbol], n)
  }

  lemma CollectStep(pool: seq<Symbol>, draws: seq<nat>, got: seq<Symbol>, n: nat)
    ensures |got| >= n || draws == [] || pool == [] ==> Collected(pool, draws, got, n) == (got, draws)
    ensures |got| < n && draws != [] && pool != [] ==>
      var symbol := pool[draws[0] % |pool|];
      Collected(pool, draws, got, n) == Collected(pool, draws[1..], if symbol in got then got else got + [symbol], n)
  {}

  function Full(s: seq<Symbol>, n: nat): Option<seq<Symbol>> {
    if |s| == n then Some(s) else None
  }

  ghost predicate Drawn(pool: seq<Symbol>, draws: seq<nat>, x: Symbol) {
    exists i :: 0 <= i < |draws| && pool != [] && pool[draws[i] % |pool|] == x
  }

  /** The draws do not hold n different symbols of the pool. */
  ghost predicate FewerThan(pool: seq<Symbol>, draws: seq<nat>, n: nat) {
    forall s: seq<Symbol> | Distinct(s) && (forall k | 0 <= k < |s| :: Drawn(pool, draws, s[k])) :: |s| < n
  }

  lemma DrawnFirst(pool: seq<Symbol>, draws: seq<nat>, x: Symbol)
    requires pool != [] && draws != []
    ensures Drawn(pool, draws, x) <==> x == pool[draws[0] % |pool|] || Drawn(pool, draws[1..], x)
  {
    if i :| 0 < i < |draws| && pool[draws[i] % |pool|] == x {
      assert draws[1..][i - 1] == draws[i];
    }
    if i :| 0 <= i < |draws[1..]| && pool[draws[1..][i] % |pool|] == x {
      assert draws[i + 1] == draws[1..][i];
    }
  }

  lemma {:induction false} CollectedFrom(pool: seq<Symbol>, draws: seq<nat>, got: seq<Symbol>, n: nat)
    requires pool != [] && |got| <= n && Distinct(got)
    ensures var c := Collected(pool, draws, got, n);
      && Distinct(c.0) && |c.0| <= n && (forall x | x in c.0 :: x in got || Drawn(pool, draws, x))
      && (forall x | x in got :: x in c.0)
      && (|c.0| < n ==> forall x | Drawn(pool, draws, x) :: x in c.0)
    decreases |draws|
  {
    hide Distinct, Drawn;
    if |got| >= n {
    } else if draws == [] {
      NothingDrawn(pool);
    } else {
      var symbol := pool[draws[0] % |pool|];
      forall x ensures Drawn(pool, draws, x) <==> x == symbol || Drawn(pool, draws[1..], x) {
        DrawnFirst(pool, draws, x);
      }
      if symbol !in got {
        DistinctAppend(got, symbol);
      }
      CollectedFrom(pool, draws[1..], if symbol in got then got else got + [symbol], n);
    }
  }

  lemma NothingDrawn(pool: seq<Symbol>)
    ensures forall x :: !Drawn(pool, [], x)
  {}

  /** Fewer than n symbols are collected exactly if the draws do not hold n different ones. */
  lemma CollectedExactlyWhen(pool: seq<Symbol>, draws: seq<nat>, n: nat)
    requires pool != []
    ensures Full(Collected(pool, draws, [], n).0, n).None? <==> FewerThan(pool, draws, n)
  {
    hide Distinct, Drawn, Collected;
    DistinctNone();
    CollectedFrom(pool, draws, [], n);
    var c := Collected(pool, draws, [], n).0;
    if |c| < n {
      forall s: seq<Symbol> | Distinct(s) && (forall k | 0 <= k < |s| :: Drawn(pool, draws, s[k])) ensures |s| < n {
        FitsInto(s, c);
      }
    }
  }

  /** GetRandomSymbols; None if the draws do not hold ten different symbols. */
  method GetRandomSymbols(symbols: seq<Symbol>, rand: Rand) returns (r: Option<seq<Symbol>>)
    requires Universe(symbols)
    modifies rand
    ensures (r, rand.draws) == TenFrom(symbols, old(rand.draws))
    ensures r.Some? ==> Holding(r.value, symbols)
    ensures r.None? <==> FewerThan(symbols, old(rand.draws), STOCK_NUMBER)
    ensures r.None? ==> rand.draws == []
  {
    hide Distinct, FewerThan, Collected;
    CollectedExactlyWhen(symbols, rand.draws, STOCK_NUMBER);
    CollectStep(symbols, rand.draws, [], STOCK_NUMBER);
    var random := new Symbol[STOCK_NUMBER](_ => "");
    var d := rand.Next();
    if d.None? {
      return None;
    }
    random[0] := symbols[d.value % SYMBOLS];
    var count := 1;
    assert random[..1] == [random[0]] == [] + [symbols[d.value % SYMBOLS]];
    DistinctOne(random[0]);
    while count < STOCK_NUMBER
      invariant 1 <= count <= STOCK_NUMBER && fresh(random)
      invariant Distinct(random[..count]) && forall k | 0 <= k < count :: random[k] in symbols
      invariant forall k | count <= k < STOCK_NUMBER :: random[k] == ""
      invariant Collected(symbols, rand.draws, random[..count], STOCK_NUMBER)
        == Collected(symbols, old(rand.draws), [], STOCK_NUMBER)
      decreases |rand.draws|
    {
      CollectStep(symbols, rand.draws, random[..count], STOCK_NUMBER);
      d := rand.Next();
      if d.None? {
        return None;
      }
      var symbol := symbols[d.value % SYMBOLS];
      assert symbol in random[..] <==> symbol in random[..count];
      if symbol !in random[..] {
        DistinctAppend(random[..count], symbol);
        random[count] := symbol;
        assert random[..count + 1] == random[..count] + [symbol];
        count := count + 1;
      }
    }
    CollectStep(symbols, rand.draws, random[..count], STOCK_NUMBER);
    assert random[..] == random[..count];
    r := Some(random[..]);
  }

  /** Ten different symbols from the draws, and the draws that are left. */
  function TenFrom(symbols: seq<Symbol>, draws: seq<nat>): (Option<seq<Symbol>>, seq<nat>) {
    var c := Collected(symbols, draws, [], STOCK_NUMBER);
    (Full(c.0, STOCK_NUMBER), c.1)
  }

  /** The draws that are left when k portfolios have been drawn, if they last. */
  function LeftAfter(symbols: seq<Symbol>, draws: seq<nat>, k: nat): Option<seq<nat>> {
    if k == 0 then Some(draws) else
    match LeftAfter(symbols, draws, k - 1)
    case None => None
    case Some(left) => if TenFrom(symbols, left).0.None? then None else Some(TenFrom(symbols, left).1)
  }

  lemma {:induction false} NothingLeftAfter(symbols: seq<Symbol>, draws: seq<nat>, k: nat, n: nat)
    requires k <= n && LeftAfter(symbols, draws, k).None?
    ensures LeftAfter(symbols, draws, n).None?
  {
    if k < n {
      NothingLeftAfter(symbols, draws, k, n - 1);
    }
  }

  lemma DistinctOne(x: Symbol)
    ensures Distinct([x])
  {}

  lemma DistinctAppend(s: seq<Symbol>, x: Symbol)
    requires Distinct(s) && x !in s
    ensures Distinct(s + [x])
  {}

  /** GetFirstGeneration */
  method GetFirstGeneration(symbols: seq<Symbol>, fitness: seq<Symbol> -> real, rand: Rand)
    returns (r: Option<seq<Portfolio>>)
    requires Universe(symbols)
    modifies rand
    ensures r.Some? ==> PopulationOk(r.value, symbols, fitness)
    ensures r.None? <==> LeftAfter(symbols, old(rand.draws), POP_SIZE).None?
    ensures r.Some? ==> Some(rand.draws) == LeftAfter(symbols, old(rand.draws), POP_SIZE)
    ensures r.None? ==> rand.draws == []
  {
    hide Universe, Holding, FewerThan, TenFrom;
    var generation: seq<Portfolio> := [];
    for i := 0 to POP_SIZE
      invariant |generation| == i && LeftAfter(symbols, old(rand.draws), i) == Some(rand.draws)
      invariant forall p | p in generation :: Holding(p.symbols, symbols) && p.fitness == fitness(p.symbols)
    {
      ghost var left := rand.draws;
      var symbol := GetRandomSymbols(symbols, rand);
      assert (symbol, rand.draws) == TenFrom(symbols, left);
      if symbol.None? {
        NothingLeftAfter(symbols, old(rand.draws), i + 1, POP_SIZE);
        return None;
      }
      generation := generation + [GetPortfolio(symbol.value, fitness)];
    }
    r := Some(generation);
  }

  /** The draws from the first one on that gives a symbol which s does not have, and which is not a blank. */
  function FromNew(symbols: seq<Symbol>, s: seq<Symbol>, draws: seq<nat>): seq<nat>
    requires |symbols| == SYMBOLS
  {
    if draws == [] || (symbols[draws[0] % SYMBOLS] !in s && symbols[draws[0] % SYMBOLS] != " ") then draws
    else FromNew(symbols, s, draws[1..])
  }

  /**
   One symbol of a portfolio that is exchanged for one it does not have; None
   if the draws hold no such symbol, or end with it.
   */
  method MutateOne(s: seq<Symbol>, symbols: seq<Symbol>, rand: Rand) returns (r: Option<seq<Symbol>>)
    requires Universe(symbols) && Holding(s, symbols)
    modifies rand
    ensures var d := FromNew(symbols, s, old(rand.draws));
      if |d| < 2 then r.None? && rand.draws == []
      else r == Some(s[d[1] % STOCK_NUMBER := symbols[d[0] % SYMBOLS]]) && rand.draws == d[2..]
    ensures r.Some? ==> Holding(r.value, symbols) && Exchanged(s, r.value)
    ensures r.None? ==> rand.draws == []
  {
    var d: Option<nat>;
    var toAdd := " ";
    while toAdd == " "
      invariant toAdd == " " || (toAdd in symbols && toAdd !in s)
      invariant var left := FromNew(symbols, s, old(rand.draws));
        if toAdd == " " then left == FromNew(symbols, s, rand.draws)
        else left != [] && toAdd == symbols[left[0] % SYMBOLS] && rand.draws == left[1..]
      decreases |rand.draws|, toAdd == " "
    {
      d := rand.Next();
      if d.None? {
        return None;
      }
      var symbol := symbols[d.value % SYMBOLS];
      if symbol !in s {
        toAdd := symbol;
      }
    }
    d := rand.Next();
    if d.None? {
      return None;
    }
    var k := d.value % STOCK_NUMBER;
    DistinctUpdate(s, k, toAdd);
    r := Some(s[k := toAdd]);
  }

  /** All positions but one agree. */
  ghost predicate Exchanged(s: seq<Symbol>, t: seq<Symbol>) {
    |t| == |s| && exists k | 0 <= k < |s| :: t == s[k := t[k]] && t[k] !in s
  }

  lemma DistinctUpdate(s: seq<Symbol>, k: nat, x: Symbol)
    requires k < |s| && Distinct(s) && x !in s
    ensures Distinct(s[k := x]) && Exchanged(s, s[k := x])
  {
    var t := s[k := x];
    assert multiset(t) == multiset(s) - multiset{s[k]} + multiset{x};
    assert t == s[k := t[k]] && t[k] !in s;
  }

  /** The draws that are left when the first k portfolios have been hit or spared, if they last. */
  function LeftAfterHits(population: seq<Portfolio>, symbols: seq<Symbol>, hits: seq<bool>, draws: seq<nat>, k: nat)
    : Option<seq<nat>>
    requires |symbols| == SYMBOLS && k <= |hits| <= |population|
  {
    if k == 0 then Some(draws) else
    match LeftAfterHits(population, symbols, hits, draws, k - 1)
    case None => None
    case Some(left) =>
      if left == [] then None
      else if !hits[k - 1] then Some(left[1..])
      else
        var d := FromNew(symbols, population[k - 1].symbols, left[1..]);
        if |d| < 2 then None else Some(d[2..])
  }

  lemma {:induction false} EarlierHits(population: seq<Portfolio>, symbols: seq<Symbol>, hits: seq<bool>, more: bool,
                                       draws: seq<nat>, k: nat)
    requires |symbols| == SYMBOLS && k <= |hits| < |population|
    ensures LeftAfterHits(population, symbols, hits + [more], draws, k)
      == LeftAfterHits(population, symbols, hits, draws, k)
  {
    hide FromNew;
    if k > 0 {
      EarlierHits(population, symbols, hits, more, draws, k - 1);
    }
  }

  /**
   Mutate, in place; which portfolios are hit is left open.  False if the draws
   do not last for them.
   */
  method Mutate(population: array<Portfolio>, symbols: seq<Symbol>, fitness: seq<Symbol> -> real, rand: Rand)
    returns (ok: bool, ghost hits: seq<bool>)
    requires Universe(symbols) && PopulationOk(population[..], symbols, fitness)
    modifies rand, population
    ensures ok ==> PopulationOk(population[..], symbols, fitness)
    ensures !ok ==> rand.draws == []
    ensures |hits| <= population.Length && (ok ==> |hits| == population.Length)
    ensures var left := LeftAfterHits(old(population[..]), symbols, hits, old(rand.draws), |hits|);
      if ok then left == Some(rand.draws) else left.None?
    ensures Mutated(old(population[..]), population[..])
  {
    hide Universe, Holding, Exchanged, FromNew, LeftAfterHits;
    SymbolsAre(symbols);
    ghost var all := population[..];
    hits := [];
    NoHits(all, symbols, rand.draws);
    for it := 0 to population.Length
      invariant |hits| == it && LeftAfterHits(all, symbols, hits, old(rand.draws), it) == Some(rand.draws)
      invariant PopulationOk(population[..], symbols, fitness)
      invariant forall i | it <= i < population.Length :: population[i] == old(population[i])
      invariant forall i | 0 <= i < it ::
        population[i] == old(population[i]) || Exchanged(old(population[i]).symbols, population[i].symbols)
    {
      var hit: bool := *;
      NextHit(all, symbols, hits, hit, old(rand.draws));
      hits := hits + [hit];
      var d := rand.Next();
      if d.None? {
        return false, hits;
      }
      if hit {
        var s := MutateOne(population[it].symbols, symbols, rand);
        if s.None? {
          return false, hits;
        }
        ghost var before := population[..];
        population[it] := GetPortfolio(s.value, fitness);
        assert population[..] == before[it := GetPortfolio(s.value, fitness)];
      }
    }
    ok := true;
  }

  lemma SymbolsAre(symbols: seq<Symbol>)
    requires Universe(symbols)
    ensures |symbols| == SYMBOLS
  {}

  lemma NoHits(population: seq<Portfolio>, symbols: seq<Symbol>, draws: seq<nat>)
    requires |symbols| == SYMBOLS
    ensures LeftAfterHits(population, symbols, [], draws, 0) == Some(draws)
  {}

  lemma NextHit(population: seq<Portfolio>, symbols: seq<Symbol>, hits: seq<bool>, hit: bool, draws: seq<nat>)
    requires |symbols| == SYMBOLS && |hits| < |population|
    requires LeftAfterHits(population, symbols, hits, draws, |hits|).Some?
    ensures var left := LeftAfterHits(population, symbols, hits, draws, |hits|).value;
      LeftAfterHits(population, symbols, hits + [hit], draws, |hits| + 1) ==
        if left == [] then None
        else if !hit then Some(left[1..])
        else
          var d := FromNew(symbols, population[|hits|].symbols, left[1..]);
          if |d| < 2 then None else Some(d[2..])
  {
    hide FromNew;
    EarlierHits(population, symbols, hits, hit, draws, |hits|);
  }

  /** The symbols drawn for one child: the code of Crossover up to the end of its loop. */
  method DrawFrom(pool: seq<Symbol>, n: nat, rand: Rand) returns (r: Option<seq<Symbol>>)
    requires n > 0 ==> pool != []
    modifies rand
    ensures var c := Collected(pool, old(rand.draws), [], n); r == Full(c.0, n) && rand.draws == c.1
    ensures r.Some? ==> |r.value| == n && Distinct(r.value) && forall x | x in r.value :: x in pool
    ensures r.None? <==> FewerThan(pool, old(rand.draws), n)
    ensures r.None? ==> rand.draws == []
  {
    hide Distinct, FewerThan;
    if pool != [] {
      CollectedExactlyWhen(pool, rand.draws, n);
    } else {
      NoneIsEnough(pool, rand.draws);
    }
    var drawn: seq<Symbol> := [];
    DistinctNone();
    while |drawn| < n
      invariant Collected(pool, rand.draws, drawn, n) == Collected(pool, old(rand.draws), [], n)
      invariant |drawn| <= n && Distinct(drawn) && forall x | x in drawn :: x in pool
      decreases |rand.draws|
    {
      var d := rand.Next();
      if d.None? {
        return None;
      }
      var symbol := pool[d.value % |pool|];
      if symbol !in drawn {
        DistinctAppend(drawn, symbol);
        drawn := drawn + [symbol];
      }
    }
    r := Some(drawn);
  }

  lemma NoneIsEnough(pool: seq<Symbol>, draws: seq<nat>)
    ensures !FewerThan(pool, draws, 0)
  {
    var none: seq<Symbol> := [];
    DistinctNone();
    assert |none| == 0;
  }

  lemma DistinctNone()
    ensures Distinct([])
  {}

  /** The symbols that only one of two portfolios has. */
  function Pool(s1: seq<Symbol>, s2: seq<Symbol>): seq<Symbol> {
    Difference(s1, s2) + Difference(Difference(s2, s1), Difference(s1, s2))
  }

  function InCommon(s1: seq<Symbol>, s2: seq<Symbol>): seq<Symbol> {
    Difference(s1, Difference(s1, s2))
  }

  /** Two children that share out what their parents had, and both keep what the parents have in common. */
  ghost predicate Shared(s1: seq<Symbol>, s2: seq<Symbol>, t1: seq<Symbol>, t2: seq<Symbol>) {
    && multiset(t1) + multiset(t2) == multiset(s1) + multiset(s2)
    && (forall x | x in s1 && x in s2 :: x in t1 && x in t2)
    && (forall x | x in t1 && x in t2 :: x in s1 && x in s2)
    && Distinct(t1) && Distinct(t2) && |t1| == |s1| && |t2| == |s2|
  }

  lemma InCommonOnce(u: seq<Symbol>, v: seq<Symbol>, x: Symbol)
    requires Distinct(u) && Distinct(v)
    ensures multiset(u)[x] <= 1 && multiset(v)[x] <= 1
  {}

  /** How often a symbol is in the pool, the intersection and the children. */
  lemma CrossoverAt(s1: seq<Symbol>, s2: seq<Symbol>, drawn: seq<Symbol>, x: Symbol)
    requires Distinct(s1) && Distinct(s2) && Distinct(drawn)
    requires forall y | y in drawn :: y in Pool(s1, s2)
    ensures var common, pool := InCommon(s1, s2), Pool(s1, s2);
      var t1 := drawn + Difference(common, drawn);
      var rest := Difference(pool, drawn);
      var t2 := rest + Difference(common, rest);
      var a, b, c := multiset(s1)[x], multiset(s2)[x], multiset(drawn)[x];
      && a <= 1 && b <= 1 && c <= 1 && (c == 1 ==> a + b == 1)
      && multiset(common)[x] == (if a + b == 2 then 1 else 0)
      && multiset(pool)[x] == (if a + b == 1 then 1 else 0)
      && multiset(t1)[x] == (if a + b == 2 then 1 else c)
      && multiset(t2)[x] == (if a + b == 2 then 1 else if a + b == 1 then 1 - c else 0)
  {
    hide Distinct, Difference;
    InCommonOnce(s1, s2, x);
    InCommonOnce(drawn, drawn, x);
    var in1, in2 := Difference(s1, s2), Difference(s2, s1);
    DifferenceCounts(s1, s2, x);
    DifferenceCounts(s2, s1, x);
    DifferenceCounts(in2, in1, x);
    DifferenceCounts(s1, in1, x);
    var common, pool := InCommon(s1, s2), Pool(s1, s2);
    var rest := Difference(pool, drawn);
    DifferenceCounts(common, drawn, x);
    DifferenceCounts(pool, drawn, x);
    DifferenceCounts(common, rest, x);
    assert x in drawn ==> x in pool;
  }

  lemma SizeOfMultiset(s: seq<Symbol>)
    ensures |multiset(s)| == |s|
  {}

  lemma SizesAdd(u: seq<Symbol>, v: seq<Symbol>, w: seq<Symbol>)
    requires forall x :: multiset(w)[x] == multiset(u)[x] + multiset(v)[x]
    ensures |w| == |u| + |v|
  {
    assert multiset(w) == multiset(u + v);
    SizeOfMultiset(w);
    SizeOfMultiset(u + v);
  }

  /** Every symbol is in common, or in one of the parents only, or in none. */
  lemma CommonParts(s1: seq<Symbol>, s2: seq<Symbol>)
    requires Distinct(s1) && Distinct(s2)
    ensures var in1, in2 := Difference(s1, s2), Difference(s2, s1);
      var common, pool := InCommon(s1, s2), Pool(s1, s2);
      Distinct(pool) && |s1| == |in1| + |common| && |pool| + 2 * |common| == |s1| + |s2|
  {
    hide Difference;
    var in1, in2 := Difference(s1, s2), Difference(s2, s1);
    var common, pool := InCommon(s1, s2), Pool(s1, s2);
    forall x ensures multiset(pool)[x] <= 1
      && multiset(s1)[x] == multiset(in1)[x] + multiset(common)[x]
      && multiset(s1 + s2)[x] == multiset(pool)[x] + multiset(common + common)[x]
    {
      CrossoverAt(s1, s2, [], x);
      DifferenceCounts(s1, s2, x);
    }
    SizesAdd(in1, common, s1);
    SizesAdd(pool, common + common, s1 + s2);
  }

  lemma SharedCounts(s1: seq<Symbol>, s2: seq<Symbol>, t1: seq<Symbol>, t2: seq<Symbol>)
    requires Distinct(s1) && Distinct(s2) && |t1| == |s1| == |s2|
    requires forall x :: multiset(t1)[x] <= 1 && multiset(t2)[x] <= 1
    requires forall x :: multiset(t1)[x] + multiset(t2)[x] == multiset(s1)[x] + multiset(s2)[x]
    requires forall x :: multiset(s1)[x] + multiset(s2)[x] == 2 ==> multiset(t1)[x] == 1
    ensures Shared(s1, s2, t1, t2)
  {
    assert multiset(t1) + multiset(t2) == multiset(s1) + multiset(s2);
    SizesAdd(s1, s2, t1 + t2);
    forall x | x in s1 && x in s2 ensures x in t1 && x in t2 {
      InCommonOnce(s1, s2, x);
      assert multiset(t1)[x] + multiset(t2)[x] == 2;
    }
    forall x | x in t1 && x in t2 ensures x in s1 && x in s2 {
      InCommonOnce(s1, s2, x);
      assert multiset(t1)[x] + multiset(t2)[x] == 2;
    }
  }

  lemma CrossoverShares(s1: seq<Symbol>, s2: seq<Symbol>, drawn: seq<Symbol>)
    requires Distinct(s1) && Distinct(s2) && Distinct(drawn) && |s1| == |s2|
    requires |drawn| == |s1| - |InCommon(s1, s2)| && forall y | y in drawn :: y in Pool(s1, s2)
    ensures var common, pool := InCommon(s1, s2), Pool(s1, s2);
      var rest := Difference(pool, drawn);
      Shared(s1, s2, drawn + Difference(common, drawn), rest + Difference(common, rest))
  {
    hide Difference, Distinct, Shared, InCommon, Pool;
    var common, pool := InCommon(s1, s2), Pool(s1, s2);
    var rest := Difference(pool, drawn);
    var t1, t2 := drawn + Difference(common, drawn), rest + Difference(common, rest);
    forall x ensures multiset(t1)[x] <= 1 && multiset(t2)[x] <= 1
      && multiset(t1)[x] + multiset(t2)[x] == multiset(s1)[x] + multiset(s2)[x]
      && multiset(t1)[x] == multiset(drawn)[x] + multiset(common)[x]
      && (multiset(s1)[x] + multiset(s2)[x] == 2 ==> multiset(t1)[x] == 1)
    {
      CrossoverAt(s1, s2, drawn, x);
    }
    SizesAdd(drawn, common, t1);
    SharedCounts(s1, s2, t1, t2);
  }

  /** How many symbols are drawn for one child. */
  function Needed(s1: seq<Symbol>, s2: seq<Symbol>): nat {
    if |InCommon(s1, s2)| < STOCK_NUMBER then STOCK_NUMBER - |InCommon(s1, s2)| else 0
  }

  /** What is drawn for one child, and the draws that are left. */
  function ChildDrawn(s1: seq<Symbol>, s2: seq<Symbol>, draws: seq<nat>): (Option<seq<Symbol>>, seq<nat>) {
    var c := Collected(Pool(s1, s2), draws, [], Needed(s1, s2));
    (Full(c.0, Needed(s1, s2)), c.1)
  }

  /** Crossover; None if the draws do not hold the different symbols that one child needs. */
  method Crossover(portfolio1: Portfolio, portfolio2: Portfolio, fitness: seq<Symbol> -> real, rand: Rand)
    returns (r: Option<(Portfolio, Portfolio)>)
    requires |portfolio1.symbols| == |portfolio2.symbols| == STOCK_NUMBER
    requires Distinct(portfolio1.symbols) && Distinct(portfolio2.symbols)
    modifies rand
    ensures r.Some? ==> Shared(portfolio1.symbols, portfolio2.symbols, r.value.0.symbols, r.value.1.symbols)
    ensures r.Some? ==>
      r.value.0.fitness == fitness(r.value.0.symbols) && r.value.1.fitness == fitness(r.value.1.symbols)
    ensures var s1, s2 := portfolio1.symbols, portfolio2.symbols;
      && (r.None? <==> FewerThan(Pool(s1, s2), old(rand.draws), Needed(s1, s2)))
      && (r.None? <==> ChildDrawn(s1, s2, old(rand.draws)).0.None?)
      && rand.draws == ChildDrawn(s1, s2, old(rand.draws)).1
    ensures r.None? ==> rand.draws == []
  {
    hide Shared, Distinct, Difference, FewerThan, Collected;
    var symbol1, symbol2 := portfolio1.symbols, portfolio2.symbols;
    var in1only := Minus(symbol1, symbol2);
    var in2only := Minus(symbol2, symbol1);
    var intersection := Minus(symbol1, in1only);
    var pool := Plus(in1only, in2only);
    CommonParts(symbol1, symbol2);
    var drawn := DrawFrom(pool, STOCK_NUMBER - |intersection|, rand);
    if drawn.None? {
      return None;
    }
    CrossoverShares(symbol1, symbol2, drawn.value);
    var rest := Minus(pool, drawn.value);
    var newsymbol2 := Plus(rest, intersection);
    var newsymbol1 := Plus(drawn.value, intersection);
    r := Some((GetPortfolio(newsymbol1, fitness), GetPortfolio(newsymbol2, fitness)));
  }

  lemma FitsInto(pool: seq<Symbol>, taken: seq<Symbol>)
    requires Distinct(pool) && forall k | 0 <= k < |pool| :: pool[k] in taken
    ensures |pool| <= |taken|
  {
    assert forall x :: multiset(pool)[x] <= multiset(taken)[x];
    assert multiset(taken) == multiset(pool) + (multiset(taken) - multiset(pool));
    SizeOfMultiset(pool);
    SizeOfMultiset(taken);
  }

  /** While fewer symbols are taken than there are, one of the others can still be drawn. */
  lemma AnotherSymbol(pool: seq<Symbol>, taken: seq<Symbol>)
    requires Distinct(pool) && |taken| < |pool|
    ensures exists k | 0 <= k < |pool| :: pool[k] !in taken
  {
    if forall k | 0 <= k < |pool| :: pool[k] in taken {
      FitsInto(pool, taken);
    }
  }

  /** The loop of Crossover can always go on: the pool has twice the symbols that are to be drawn. */
  lemma CrossoverNeverStuck(s1: seq<Symbol>, s2: seq<Symbol>, drawn: seq<Symbol>)
    requires Distinct(s1) && Distinct(s2) && |s1| == |s2|
    requires |drawn| < |s1| - |InCommon(s1, s2)|
    ensures exists k | 0 <= k < |Pool(s1, s2)| :: Pool(s1, s2)[k] !in drawn
  {
    hide Difference, Distinct, Pool, InCommon;
    CommonParts(s1, s2);
    AnotherSymbol(Pool(s1, s2), drawn);
  }

  /** How often portfolio i may be a parent. */
  function Quota(i: nat): nat {
    if i < TWICE then 2 else if i < PARENTS then 1 else 0
  }

  function Members(pairs: seq<(nat, nat)>): multiset<nat> {
    if pairs == [] then multiset{} else
    Members(pairs[..|pairs| - 1]) + multiset{pairs[|pairs| - 1].0, pairs[|pairs| - 1].1}
  }

  lemma MembersAppend(pairs: seq<(nat, nat)>, a: nat, b: nat)
    ensures Members(pairs + [(a, b)]) == Members(pairs) + multiset{a, b}
  {
    assert (pairs + [(a, b)])[..|pairs|] == pairs;
  }

  lemma {:induction false} MembersIn(pairs: seq<(nat, nat)>, i: nat)
    requires i < |pairs|
    ensures pairs[i].0 in Members(pairs) && pairs[i].1 in Members(pairs)
  {
    if i < |pairs| - 1 {
      MembersIn(pairs[..|pairs| - 1], i);
    }
  }

  /** v.erase(find(v.begin(), v.end(), x)) */
  function Erase(s: seq<nat>, x: nat): (r: seq<nat>)
    requires x in s
    ensures |r| == |s| - 1
  {
    if s[0] == x then s[1..] else [s[0]] + Erase(s[1..], x)
  }

  /** The first x is taken out, and the others stay in their order. */
  lemma {:induction false} EraseTakesFirst(s: seq<nat>, x: nat) returns (i: nat)
    requires x in s
    ensures i < |s| && s[i] == x && x !in s[..i] && Erase(s, x) == s[..i] + s[i + 1..]
  {
    EraseUnfold(s, x);
    hide Erase;
    if s[0] == x {
      i := 0;
      assert s[..0] + s[1..] == s[1..];
    } else {
      var k := EraseTakesFirst(s[1..], x);
      i := k + 1;
      Shifted(s, k);
    }
  }

  lemma EraseUnfold(s: seq<nat>, x: nat)
    requires x in s
    ensures Erase(s, x) == if s[0] == x then s[1..] else [s[0]] + Erase(s[1..], x)
  {}

  lemma Shifted(s: seq<nat>, k: nat)
    requires k + 1 < |s|
    ensures s[..k + 1] == [s[0]] + s[1..][..k] && s[k + 2..] == s[1..][k + 1..]
  {}

  lemma {:induction false} EraseTakesOne(s: seq<nat>, x: nat)
    requires x in s
    ensures multiset(s) == multiset(Erase(s, x)) + multiset{x}
  {
    assert s == [s[0]] + s[1..];
    if s[0] != x {
      EraseTakesOne(s[1..], x);
    }
  }

  ghost predicate HasQuotas(m: multiset<nat>, n: nat) {
    forall x: nat :: m[x] == if x < n then Quota(x) else 0
  }

  function TokensOf(n: nat): seq<nat> {
    if n == 0 then [] else TokensOf(n - 1) + (if n - 1 < TWICE then [n - 1, n - 1] else [n - 1])
  }

  /** The vector [0,0,1,1,...,28,28,29,30,...,68] that Selection starts from. */
  method Tokens() returns (tokens: seq<nat>)
    ensures tokens == TokensOf(PARENTS)
    ensures |tokens| == 98 && HasQuotas(multiset(tokens), PARENTS)
  {
    hide TokensOf;
    tokens := [];
    NoTokens();
    for i := 0 to PARENTS
      invariant tokens == TokensOf(i) && |tokens| == if i < TWICE then 2 * i else TWICE + i
      invariant HasQuotas(multiset(tokens), i)
    {
      TokensStep(i);
      if i < TWICE {
        assert tokens + [i, i] == tokens + [i] + [i];
        tokens := tokens + [i];
        tokens := tokens + [i];
      } else {
        tokens := tokens + [i];
      }
    }
  }

  lemma NoTokens()
    ensures TokensOf(0) == []
  {}

  lemma TokensStep(i: nat)
    ensures TokensOf(i + 1) == TokensOf(i) + if i < TWICE then [i, i] else [i]
  {}

  lemma PairTaken(numbers: seq<nat>, pairs: seq<(nat, nat)>, a: nat, b: nat)
    requires a in numbers && b in numbers && a != b
    ensures b in Erase(numbers, a)
    ensures multiset(Erase(Erase(numbers, a), b)) + Members(pairs + [(a, b)]) == multiset(numbers) + Members(pairs)
  {
    hide Erase, Members;
    MembersAppend(pairs, a, b);
    EraseTakesOne(numbers, a);
    assert b in multiset(numbers) && b in multiset(Erase(numbers, a));
    EraseTakesOne(Erase(numbers, a), b);
  }

  lemma LastPair(numbers: seq<nat>, pairs: seq<(nat, nat)>)
    requires |numbers| == 2
    ensures Members(pairs + [(numbers[0], numbers[1])]) == multiset(numbers) + Members(pairs)
  {
    hide Members;
    MembersAppend(pairs, numbers[0], numbers[1]);
    assert numbers == [numbers[0], numbers[1]];
  }

  /** The pairs and the tokens that are left when the draws have been taken two at a time until there are n pairs. */
  datatype Pairing = Pairing(pairs: seq<(nat, nat)>, numbers: seq<nat>, draws: seq<nat>)

  function Paired(p: Pairing, n: nat): Pairing
    decreases |p.draws|
  {
    if |p.pairs| >= n || p.numbers == [] then p
    else if |p.draws| < 2 then p.(draws := [])
    else
      var a, b := p.numbers[p.draws[0] % |p.numbers|], p.numbers[p.draws[1] % |p.numbers|];
      var left := p.draws[2..];
      if a == b then Paired(p.(draws := left), n)
      else
        ErasesNoOther(p.numbers, a, b);
        Paired(Pairing(p.pairs + [(a, b)], Erase(Erase(p.numbers, a), b), left), n)
  }

  lemma ErasesNoOther(s: seq<nat>, x: nat, y: nat)
    requires x in s && y in s && x != y
    ensures y in Erase(s, x)
  {
    EraseTakesOne(s, x);
    assert y in multiset(s);
    assert y in multiset(Erase(s, x));
  }

  /** Selection: every pair takes two tokens away; None if the draws do not give 48 pairs. */
  method Selection(rand: Rand) returns (r: Option<seq<(nat, nat)>>)
    modifies rand
    ensures var p := Paired(Pairing([], TokensOf(PARENTS), old(rand.draws)), 48);
      && (r.None? <==> |p.pairs| < 48) && rand.draws == p.draws
      && (r.Some? ==> |p.numbers| == 2 && r.value == p.pairs + [(p.numbers[0], p.numbers[1])])
    ensures r.Some? ==> |r.value| == 49 && HasQuotas(Members(r.value), PARENTS)
    ensures r.Some? ==> forall i | 0 <= i < 48 :: r.value[i].0 != r.value[i].1
    ensures r.None? ==> rand.draws == []
  {
    hide Members, HasQuotas, Erase, TokensOf;
    var pairs: seq<(nat, nat)> := [];
    var numbers := Tokens();
    ghost var all := multiset(numbers);
    NoMembers();
    while |pairs| < 48
      invariant |pairs| <= 48 && |numbers| == 98 - 2 * |pairs|
      invariant multiset(numbers) + Members(pairs) == all
      invariant Paired(Pairing(pairs, numbers, rand.draws), 48)
        == Paired(Pairing([], TokensOf(PARENTS), old(rand.draws)), 48)
      invariant forall i | 0 <= i < |pairs| :: pairs[i].0 != pairs[i].1
      decreases |rand.draws|
    {
      var d1 := rand.Next();
      var d2 := rand.Next();
      if d1.None? || d2.None? {
        return None;
      }
      var number1, number2 := numbers[d1.value % |numbers|], numbers[d2.value % |numbers|];
      if number1 != number2 {
        PairTaken(numbers, pairs, number1, number2);
        pairs := pairs + [(number1, number2)];
        numbers := Erase(numbers, number1);
        numbers := Erase(numbers, number2);
      }
    }
    LastPair(numbers, pairs);
    r := Some(pairs + [(numbers[0], numbers[1])]);
  }

  lemma NoMembers()
    ensures Members([]) == multiset{}
  {}

  lemma {:induction false} AllTheSame(s: seq<nat>, x: nat)
    requires forall k | 0 <= k < |s| :: s[k] == x
    ensures multiset(s)[x] == |s|
  {
    if s != [] {
      assert s == [s[0]] + s[1..];
      AllTheSame(s[1..], x);
    }
  }

  /** As long as pairs are to be chosen, four tokens are left, and two of them differ. */
  lemma SelectionNeverStuck(numbers: seq<nat>, pairs: seq<(nat, nat)>)
    requires |pairs| < 48 && |numbers| == 98 - 2 * |pairs|
    requires HasQuotas(multiset(numbers) + Members(pairs), PARENTS)
    ensures |numbers| >= 4 && forall x: nat :: multiset(numbers)[x] <= 2
    ensures exists i, j | 0 <= i < j < |numbers| :: numbers[i] != numbers[j]
  {
    hide Members;
    forall x: nat ensures multiset(numbers)[x] <= 2 {
      assert multiset(numbers)[x] <= (multiset(numbers) + Members(pairs))[x];
    }
    hide HasQuotas;
    if forall i, j | 0 <= i < j < |numbers| :: numbers[i] == numbers[j] {
      AllTheSame(numbers, numbers[0]);
      assert false;
    }
  }

  ghost predicate Sorted(population: seq<Portfolio>) {
    forall i, j | 0 <= i < j < |population| :: population[i].fitness >= population[j].fitness
  }

  function InsertPortfolio(p: Portfolio, sorted: seq<Portfolio>): seq<Portfolio> {
    if sorted == [] || p.fitness >= sorted[0].fitness then [p] + sorted
    else [sorted[0]] + InsertPortfolio(p, sorted[1..])
  }

  lemma SortedFrom(first: Portfolio, more: seq<Portfolio>)
    requires Sorted(more) && forall q | q in more :: q.fitness <= first.fitness
    ensures Sorted([first] + more)
  {
    var all := [first] + more;
    assert forall i | 0 < i < |all| :: all[i] == more[i - 1] && all[i] in more;
  }

  lemma FirstIsLargest(sorted: seq<Portfolio>)
    requires Sorted(sorted)
    ensures sorted != [] ==> Sorted(sorted[1..]) && forall q | q in sorted :: q.fitness <= sorted[0].fitness
  {}

  lemma {:induction false} InsertKeeps(p: Portfolio, sorted: seq<Portfolio>)
    requires Sorted(sorted)
    ensures Sorted(InsertPortfolio(p, sorted))
    ensures multiset(InsertPortfolio(p, sorted)) == multiset(sorted) + multiset{p}
  {
    hide Sorted;
    if sorted == [] || p.fitness >= sorted[0].fitness {
      FirstIsLargest(sorted);
      SortedFrom(p, sorted);
    } else {
      assert sorted == [sorted[0]] + sorted[1..];
      FirstIsLargest(sorted);
      InsertKeeps(p, sorted[1..]);
      var more := InsertPortfolio(p, sorted[1..]);
      forall q | q in more ensures q.fitness <= sorted[0].fitness {
        assert q in multiset(more);
        assert q in multiset(sorted[1..]) + multiset{p};
      }
      SortedFrom(sorted[0], more);
    }
  }

  /** std::sort with sortByFitness: some order of the same portfolios, the fittest first. */
  method Sort(population: seq<Portfolio>) returns (sorted: seq<Portfolio>)
    ensures multiset(sorted) == multiset(population) && Sorted(sorted)
  {
    hide Sorted;
    sorted := [];
    NothingSorted();
    for i := 0 to |population|
      invariant multiset(sorted) == multiset(population[..i]) && Sorted(sorted)
    {
      InsertKeeps(population[i], sorted);
      assert population[..i + 1] == population[..i] + [population[i]];
      sorted := InsertPortfolio(population[i], sorted);
    }
    assert population[..|population|] == population;
  }

  lemma NothingSorted()
    ensures Sorted([])
  {}

  lemma SamePortfolios(p: seq<Portfolio>, q: seq<Portfolio>, universe: seq<Symbol>, fitness: seq<Symbol> -> real)
    requires PopulationOk(p, universe, fitness) && multiset(q) == multiset(p)
    ensures PopulationOk(q, universe, fitness)
  {
    hide Holding;
    assert |q| == |multiset(q)| == |multiset(p)|;
    forall x | x in q ensures x in p {
      assert x in multiset(q);
    }
  }

  lemma ParentsExist(pairs: seq<(nat, nat)>)
    requires HasQuotas(Members(pairs), PARENTS)
    ensures forall i | 0 <= i < |pairs| :: pairs[i].0 < PARENTS && pairs[i].1 < PARENTS
  {
    forall i | 0 <= i < |pairs| ensures pairs[i].0 < PARENTS && pairs[i].1 < PARENTS {
      MembersIn(pairs, i);
    }
  }

  lemma ChildrenHold(s1: seq<Symbol>, s2: seq<Symbol>, t1: seq<Symbol>, t2: seq<Symbol>, universe: seq<Symbol>)
    requires Holding(s1, universe) && Holding(s2, universe) && Shared(s1, s2, t1, t2)
    ensures Holding(t1, universe) && Holding(t2, universe)
  {
    forall x | x in t1 || x in t2 ensures x in universe {
      assert x in multiset(t1) + multiset(t2);
      assert x in multiset(s1) || x in multiset(s2);
    }
  }

  /** Two members of a population share their symbols out to two of the next. */
  ghost predicate Children(population: seq<Portfolio>, pair: (nat, nat), next: seq<Portfolio>, k: nat) {
    && pair.0 < |population| && pair.1 < |population| && k + 1 < |next|
    && Shared(population[pair.0].symbols, population[pair.1].symbols, next[k].symbols, next[k + 1].symbols)
  }

  /** The pairs that Selection may choose. */
  ghost predicate Selected(pairs: seq<(nat, nat)>) {
    |pairs| == 49 && HasQuotas(Members(pairs), PARENTS) && forall i | 0 <= i < 48 :: pairs[i].0 != pairs[i].1
  }

  /** The two fittest as they are, and behind them the children of all pairs, in the order of the pairs. */
  ghost predicate Bred(population: seq<Portfolio>, next: seq<Portfolio>, pairs: seq<(nat, nat)>) {
    && |population| == |next| == POP_SIZE && Selected(pairs)
    && next[0] == population[0] && next[1] == population[1]
    && forall i | 0 <= i < |pairs| :: Children(population, pairs[i], next, 2 + 2 * i)
  }

  lemma StillChildren(population: seq<Portfolio>, pairs: seq<(nat, nat)>, i: nat, next: seq<Portfolio>,
                      more: seq<Portfolio>)
    requires i <= |pairs| && forall j | 0 <= j < i :: Children(population, pairs[j], next, 2 + 2 * j)
    ensures forall j | 0 <= j < i :: Children(population, pairs[j], next + more, 2 + 2 * j)
  {
    hide Shared;
  }

  /** The draws that are left when the first k pairs have had their children, if they last. */
  function LeftAfterPairs(population: seq<Portfolio>, pairs: seq<(nat, nat)>, draws: seq<nat>, k: nat): Option<seq<nat>>
    requires k <= |pairs| && forall i | 0 <= i < |pairs| :: pairs[i].0 < |population| && pairs[i].1 < |population|
  {
    if k == 0 then Some(draws) else
    match LeftAfterPairs(population, pairs, draws, k - 1)
    case None => None
    case Some(left) =>
      var c := ChildDrawn(population[pairs[k - 1].0].symbols, population[pairs[k - 1].1].symbols, left);
      if c.0.None? then None else Some(c.1)
  }

  /** The draws do not last for the choice of the pairs, or for the children of the pairs. */
  ghost predicate TooFewToBreed(population: seq<Portfolio>, draws: seq<nat>, pairs: seq<(nat, nat)>) {
    var p := Paired(Pairing([], TokensOf(PARENTS), draws), 48);
    |p.pairs| < 48 ||
    (p.pairs <= pairs && (forall i | 0 <= i < |pairs| :: pairs[i].0 < |population| && pairs[i].1 < |population|)
     && exists k :: 0 <= k <= |pairs| && LeftAfterPairs(population, pairs, p.draws, k).None?)
  }

  lemma NextPair(population: seq<Portfolio>, pairs: seq<(nat, nat)>, draws: seq<nat>, i: nat, left: seq<nat>)
    requires i < |pairs| && forall i | 0 <= i < |pairs| :: pairs[i].0 < |population| && pairs[i].1 < |population|
    requires LeftAfterPairs(population, pairs, draws, i) == Some(left)
    ensures var c := ChildDrawn(population[pairs[i].0].symbols, population[pairs[i].1].symbols, left);
      LeftAfterPairs(population, pairs, draws, i + 1) == if c.0.None? then None else Some(c.1)
  {
    hide ChildDrawn;
  }

  lemma NoPairs(population: seq<Portfolio>, pairs: seq<(nat, nat)>, draws: seq<nat>)
    requires forall i | 0 <= i < |pairs| :: pairs[i].0 < |population| && pairs[i].1 < |population|
    ensures LeftAfterPairs(population, pairs, draws, 0) == Some(draws)
  {}

  lemma FewPairs(population: seq<Portfolio>, draws: seq<nat>)
    requires |Paired(Pairing([], TokensOf(PARENTS), draws), 48).pairs| < 48
    ensures TooFewToBreed(population, draws, [])
  {
    hide Paired, TokensOf;
  }

  lemma FewChildren(population: seq<Portfolio>, draws: seq<nat>, pairs: seq<(nat, nat)>, left: seq<nat>, k: nat)
    requires var p := Paired(Pairing([], TokensOf(PARENTS), draws), 48); left == p.draws && p.pairs <= pairs
    requires k <= |pairs| && forall i | 0 <= i < |pairs| :: pairs[i].0 < |population| && pairs[i].1 < |population|
    requires LeftAfterPairs(population, pairs, left, k).None?
    ensures TooFewToBreed(population, draws, pairs)
  {
    hide Paired, TokensOf, LeftAfterPairs;
  }

  /** The part of a generation before the mutation: the two fittest, and the children of all pairs. */
  method Breed(population: seq<Portfolio>, symbols: seq<Symbol>, fitness: seq<Symbol> -> real, rand: Rand)
    returns (r: Option<seq<Portfolio>>, ghost pairs: seq<(nat, nat)>)
    requires PopulationOk(population, symbols, fitness)
    modifies rand
    ensures r.Some? ==> PopulationOk(r.value, symbols, fitness) && Bred(population, r.value, pairs)
    ensures r.None? ==> rand.draws == [] && TooFewToBreed(population, old(rand.draws), pairs)
  {
    hide Holding, Members, HasQuotas, Shared, Distinct, FewerThan, ChildDrawn, Paired, TokensOf, TooFewToBreed,
      LeftAfterPairs, Pool, InCommon;
    ghost var all := rand.draws;
    var pool := Selection(rand);
    if pool.None? {
      FewPairs(population, all);
      return None, [];
    }
    ParentsExist(pool.value);
    pairs := pool.value;
    ghost var left := rand.draws;
    NoPairs(population, pairs, left);
    var temp := [population[0], population[1]];
    for i := 0 to |pool.value|
      invariant |temp| == 2 + 2 * i && temp[0] == population[0] && temp[1] == population[1]
      invariant forall p | p in temp :: Holding(p.symbols, symbols) && p.fitness == fitness(p.symbols)
      invariant forall j | 0 <= j < i :: Children(population, pairs[j], temp, 2 + 2 * j)
      invariant LeftAfterPairs(population, pairs, left, i) == Some(rand.draws)
    {
      var p1, p2 := population[pool.value[i].0], population[pool.value[i].1];
      HoldingIs(p1.symbols, symbols);
      HoldingIs(p2.symbols, symbols);
      NextPair(population, pairs, left, i, rand.draws);
      var children := Crossover(p1, p2, fitness, rand);
      if children.None? {
        FewChildren(population, all, pairs, left, i + 1);
        return None, pairs;
      }
      ChildrenHold(p1.symbols, p2.symbols, children.value.0.symbols, children.value.1.symbols, symbols);
      StillChildren(population, pairs, i, temp, [children.value.0] + [children.value.1]);
      assert temp + [children.value.0] + [children.value.1] == temp + ([children.value.0] + [children.value.1]);
      temp := temp + [children.value.0];
      temp := temp + [children.value.1];
    }
    r := Some(temp);
  }

  lemma HoldingIs(s: seq<Symbol>, universe: seq<Symbol>)
    requires Holding(s, universe)
    ensures |s| == STOCK_NUMBER && Distinct(s)
  {}

  /** Each portfolio is as it was, or has one symbol exchanged. */
  ghost predicate Mutated(before: seq<Portfolio>, after: seq<Portfolio>) {
    && |before| == |after|
    && forall i | 0 <= i < |before| :: before[i] == after[i] || Exchanged(before[i].symbols, after[i].symbols)
  }

  /** One generation comes from the one before it by breeding, mutation and sorting. */
  ghost predicate Follows(before: seq<Portfolio>, after: seq<Portfolio>) {
    exists bred: seq<Portfolio>, pairs, mutated: seq<Portfolio> ::
      Bred(before, bred, pairs) && Mutated(bred, mutated) && multiset(mutated) == multiset(after)
  }

  /**
   Every population so far consists of a hundred portfolios of ten different
   symbols, the fittest first, and follows from the one before it.
   */
  ghost predicate HistoryOk(history: seq<seq<Portfolio>>, universe: seq<Symbol>, fitness: seq<Symbol> -> real) {
    && (forall g | 0 <= g < |history| :: PopulationOk(history[g], universe, fitness) && Sorted(history[g]))
    && (forall g | 0 < g < |history| :: Follows(history[g - 1], history[g]))
  }

  lemma OneMore(history: seq<seq<Portfolio>>, next: seq<Portfolio>, universe: seq<Symbol>, fitness: seq<Symbol> -> real)
    requires HistoryOk(history, universe, fitness) && PopulationOk(next, universe, fitness) && Sorted(next)
    requires history != [] && Follows(history[|history| - 1], next)
    ensures HistoryOk(history + [next], universe, fitness)
  {
    hide PopulationOk, Sorted, Follows;
  }

  /**
   The generation loop.  Whatever is drawn, and whether or not the draws last,
   every generation consists of a hundred portfolios of ten different symbols
   of the universe and follows from the one before it; there are at most forty,
   and fewer only if all portfolios of the last one are equally fit; what is
   returned in the end is the fittest of that one.
   */
  method Evolve(symbols: seq<Symbol>, fitness: seq<Symbol> -> real, rand: Rand)
    returns (target: Option<Portfolio>, ghost history: seq<seq<Portfolio>>)
    requires Universe(symbols)
    modifies rand
    ensures HistoryOk(history, symbols, fitness) && |history| <= 40
    ensures target.None? ==> rand.draws == []
    ensures target.Some? ==> history != [] && target.value == history[|history| - 1][0]
    ensures target.Some? && |history| < 40 ==> |history| > 1 && AllEquallyFit(history[|history| - 1])
    ensures forall g | 0 < g < |history| - 1 :: !AllEquallyFit(history[g])
  {
    hide Universe, PopulationOk, Sorted, Bred, Mutated;
    history := [];
    var first := GetFirstGeneration(symbols, fitness, rand);
    if first.None? {
      return None, history;
    }
    var population := Sort(first.value);
    SamePortfolios(first.value, population, symbols, fitness);
    history := [population];
    var generation := 1;
    while generation < GENERATIONS
      invariant HistoryOk(history, symbols, fitness) && 0 < |history| <= GENERATIONS
      invariant population == history[|history| - 1]
      invariant if generation == MAX_ALLOWABLE_GENERATIONS then |history| > 1 && AllEquallyFit(population)
        else generation == |history| && (|history| > 1 ==> !AllEquallyFit(population))
      invariant forall g | 0 < g < |history| - 1 :: !AllEquallyFit(history[g])
      decreases GENERATIONS - generation
    {
      ghost var pairs;
      var temp;
      temp, pairs := Breed(population, symbols, fitness, rand);
      if temp.None? {
        return None, history;
      }
      PopulationSize(temp.value, symbols, fitness);
      var next := ArrayOf(temp.value);
      var ok, hits := Mutate(next, symbols, fitness, rand);
      if !ok {
        return None, history;
      }
      ghost var before := population;
      population := Sort(next[..]);
      SamePortfolios(next[..], population, symbols, fitness);
      PopulationSize(population, symbols, fitness);
      assert Follows(before, population);
      OneMore(history, population, symbols, fitness);
      history := history + [population];
      generation := generation + 1;
      if population[0].fitness == population[99].fitness {
        EndsAgree(population);
        generation := MAX_ALLOWABLE_GENERATIONS;
      }
    }
    PopulationSize(population, symbols, fitness);
    target := Some(population[0]);
  }

  ghost predicate AllEquallyFit(population: seq<Portfolio>) {
    forall i, j | 0 <= i < j < |population| :: population[i].fitness == population[j].fitness
  }

  /** In a sorted population it is enough to compare the first portfolio with the last. */
  lemma EndsAgree(population: seq<Portfolio>)
    requires Sorted(population) && |population| == POP_SIZE && population[0].fitness == population[99].fitness
    ensures AllEquallyFit(population)
  {
    forall i | 0 <= i < POP_SIZE ensures population[i].fitness == population[0].fitness {
      assert i > 0 ==> population[0].fitness >= population[i].fitness;
      assert i < 99 ==> population[i].fitness >= population[99].fitness;
    }
  }

  /** A population is a hundred portfolios, each of ten different ones of the 505 symbols. */
  lemma HundredOfTen(p: seq<Portfolio>, universe: seq<Symbol>, fitness: seq<Symbol> -> real)
    requires Universe(universe) && PopulationOk(p, universe, fitness)
    ensures |universe| == 505 && |p| == 100
    ensures forall i | 0 <= i < 100 ::
      |p[i].symbols| == 10 && Distinct(p[i].symbols) && p[i].fitness == fitness(p[i].symbols)
    ensures forall i, k | 0 <= i < 100 && 0 <= k < 10 :: p[i].symbols[k] in universe
  {
    hide Distinct;
    forall i | 0 <= i < 100 ensures Holding(p[i].symbols, universe) && p[i].fitness == fitness(p[i].symbols) {
      assert p[i] in p;
    }
  }

  lemma PopulationSize(p: seq<Portfolio>, universe: seq<Symbol>, fitness: seq<Symbol> -> real)
    requires PopulationOk(p, universe, fitness)
    ensures |p| == POP_SIZE
  {}

  method ArrayOf(s: seq<Portfolio>) returns (a: array<Portfolio>)
    ensures fresh(a) && a[..] == s
  {
    a := new Portfolio[|s|](i requires 0 <= i < |s| => s[i]);
  }
}
