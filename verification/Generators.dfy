/**
 The planted-solution generators of src/consensus/ponw_engine.cpp. The random stream is arbitrary:
 every bounded draw may give any admissible value, every coin either side. Whatever it gives, and
 even when the attempt cap ends generation early, the planted solution solves the instance, and
 whoever draws the same gets the same instance.
 */
module Generators {
  import opened Words
  import opened Bytes
  import opened Counting
  import opened SatInstances
  import opened NpInstances
  import opened Shuffling

  const MAX_ATTEMPTS := 10_000_000

  // ------------------------------------------------ k-SAT

  /** Those of the drawn clauses that the planted assignment satisfies. */
  ghost function Kept(planted: seq<bool>, drawn: seq<seq<int>>): seq<seq<int>> {
    if drawn == [] then [] else
      Kept(planted, drawn[..|drawn| - 1]) +
          (if ClauseTrue(planted, drawn[|drawn| - 1]) then [drawn[|drawn| - 1]] else [])
  }

  /** The record of drawing a literal: the variable, and then whether it is negated. */
  function LiteralDraw(lit: int): seq<nat> {
    if lit < 0 then [(-lit - 1) as nat, 1] else if lit > 0 then [(lit - 1) as nat, 0] else []
  }

  function LiteralDraws(lits: seq<int>): seq<nat> {
    if lits == [] then [] else LiteralDraws(lits[..|lits| - 1]) + LiteralDraw(lits[|lits| - 1])
  }

  /** The record of drawing clauses. */
  function ClauseDraws(clauses: seq<seq<int>>): seq<nat> {
    if clauses == [] then []
    else ClauseDraws(clauses[..|clauses| - 1]) + LiteralDraws(clauses[|clauses| - 1])
  }

  lemma LiteralDrawInjective(a: int, b: int)
    requires a != 0 && b != 0
    ensures |LiteralDraw(a)| == 2 && (LiteralDraw(a) == LiteralDraw(b) ==> a == b)
  {
    assert LiteralDraw(a)[1] == if a < 0 then 1 else 0;
    assert LiteralDraw(a)[0] == LiteralDraw(b)[0] && LiteralDraw(a)[1] == LiteralDraw(b)[1] ==> a == b;
  }

  lemma {:induction false} LiteralDrawsInjective(a: seq<int>, b: seq<int>)
    requires |a| == |b| && 0 !in a && 0 !in b
    ensures |LiteralDraws(a)| == 2 * |a| && (LiteralDraws(a) == LiteralDraws(b) ==> a == b)
  {
    if a != [] {
      var n := |a| - 1;
      LiteralDrawInjective(a[n], b[n]);
      LiteralDrawInjective(b[n], a[n]);
      LiteralDrawsInjective(a[..n], b[..n]);
      if LiteralDraws(a) == LiteralDraws(b) {
        SplitDraws(LiteralDraws(a[..n]), LiteralDraw(a[n]), LiteralDraws(b[..n]), LiteralDraw(b[n]));
        assert a == a[..n] + [a[n]] && b == b[..n] + [b[n]];
      }
    }
  }

  ghost predicate AllThree(clauses: seq<seq<int>>) {
    forall k :: 0 <= k < |clauses| ==> |clauses[k]| == 3 && 0 !in clauses[k]
  }

  /** The record shows which clauses were drawn. */
  lemma {:induction false} ClauseDrawsInjective(a: seq<seq<int>>, b: seq<seq<int>>)
    requires AllThree(a) && AllThree(b)
    ensures |ClauseDraws(a)| == 6 * |a|
    ensures ClauseDraws(a) == ClauseDraws(b) ==> a == b
    decreases |a| + |b|
  {
    hide LiteralDraws;
    if a != [] {
      ClauseDrawsInjective(a[..|a| - 1], []);
      LiteralDrawsInjective(a[|a| - 1], a[|a| - 1]);
    }
    if b != [] {
      ClauseDrawsInjective(b[..|b| - 1], []);
      LiteralDrawsInjective(b[|b| - 1], b[|b| - 1]);
    }
    if a != [] && b != [] && ClauseDraws(a) == ClauseDraws(b) {
      var x, y := a[|a| - 1], b[|b| - 1];
      LiteralDrawsInjective(x, y);
      LiteralDrawsInjective(y, x);
      SplitDraws(ClauseDraws(a[..|a| - 1]), LiteralDraws(x), ClauseDraws(b[..|b| - 1]), LiteralDraws(y));
      ClauseDrawsInjective(a[..|a| - 1], b[..|b| - 1]);
      assert a == a[..|a| - 1] + [x] == b[..|b| - 1] + [y] == b;
    }
  }

  /** Whoever draws the same gets the same planted assignment and clauses. */
  lemma SameDrawsSameSat(planted: seq<bool>, drawn: seq<seq<int>>, planted': seq<bool>, drawn': seq<seq<int>>)
    requires |planted| == |planted'| && AllThree(drawn) && AllThree(drawn')
    requires CoinDraws(planted) + ClauseDraws(drawn) == CoinDraws(planted') + ClauseDraws(drawn')
    ensures planted == planted' && drawn == drawn'
  {
    SplitDraws(CoinDraws(planted), ClauseDraws(drawn), CoinDraws(planted'), ClauseDraws(drawn'));
    ClauseDrawsInjective(drawn, drawn');
    forall i | 0 <= i < |planted| ensures planted[i] == planted'[i] {
      assert CoinDraws(planted)[i] == CoinDraws(planted')[i];
    }
  }

  lemma KeptStep(planted: seq<bool>, drawn: seq<seq<int>>, c: seq<int>)
    ensures Kept(planted, drawn + [c]) == Kept(planted, drawn) + (if ClauseTrue(planted, c) then [c] else [])
  {
    assert (drawn + [c])[..|drawn|] == drawn;
  }

  lemma ClauseDrawsStep(drawn: seq<seq<int>>, c: seq<int>)
    ensures ClauseDraws(drawn + [c]) == ClauseDraws(drawn) + LiteralDraws(c)
  {
    assert (drawn + [c])[..|drawn|] == drawn;
  }

  /** The instance is decided by what is drawn: first the planted assignment, then clauses. */
  method GenerateSat(rng: Draws, numVars: nat, numClauses: nat)
    returns (inst: SatInstance, planted: seq<bool>, ghost drawn: seq<seq<int>>)
    requires numVars >= 10
    modifies rng
    ensures rng.log == old(rng.log) + CoinDraws(planted) + ClauseDraws(drawn) && AllThree(drawn)
    ensures inst.numVariables == numVars && |planted| == numVars
    // the satisfied clauses among those drawn, until there are enough or the attempts run out
    ensures inst.clauses == Kept(planted, drawn) && |inst.clauses| <= numClauses && |drawn| <= MAX_ATTEMPTS
    ensures |inst.clauses| == numClauses || |drawn| == MAX_ATTEMPTS
    ensures WellFormed(inst) && Satisfies(inst, planted)
    ensures forall c :: c in inst.clauses ==> |c| == 3
  {
    planted := [];
    for i := 0 to numVars
      invariant |planted| == i && rng.log == old(rng.log) + CoinDraws(planted)
    {
      var coin := rng.Coin();
      CoinDrawsStep(planted, coin);
      planted := planted + [coin];
    }
    var clauses;
    clauses, drawn := DrawClauses(rng, planted, numClauses);
    inst := SatInstance(numVars, clauses);
    hide *;
    SoPlantedSatisfies(inst, planted);
  }

  /** A clause of three literals that the planted assignment satisfies. */
  ghost predicate PlantedClause(planted: seq<bool>, c: seq<int>) {
    |c| == 3 && ClauseTrue(planted, c) && forall lit :: lit in c ==> InRange(|planted|, lit)
  }

  lemma SoPlantedSatisfies(inst: SatInstance, planted: seq<bool>)
    requires |planted| == inst.numVariables && forall c :: c in inst.clauses ==> PlantedClause(planted, c)
    ensures WellFormed(inst) && Satisfies(inst, planted) && forall c :: c in inst.clauses ==> |c| == 3
  {
    hide ClauseTrue, InRange;
  }

  /** Step 2 of the generator: clauses until there are enough. */
  method DrawClauses(rng: Draws, planted: seq<bool>, numClauses: nat)
    returns (clauses: seq<seq<int>>, ghost drawn: seq<seq<int>>)
    requires |planted| > 0
    modifies rng
    ensures rng.log == old(rng.log) + ClauseDraws(drawn) && AllThree(drawn)
    ensures clauses == Kept(planted, drawn) && |clauses| <= numClauses && |drawn| <= MAX_ATTEMPTS
    ensures |clauses| == numClauses || |drawn| == MAX_ATTEMPTS
    ensures forall c :: c in clauses ==> PlantedClause(planted, c)
  {
    hide LiteralDraws, ClauseDraws, Kept, ClauseTrue;
    var attempts := 0;
    clauses, drawn := [], [];
    NothingDrawnYet(planted);
    while |clauses| < numClauses && attempts < MAX_ATTEMPTS
      invariant |clauses| <= numClauses && attempts <= MAX_ATTEMPTS
      invariant |drawn| == attempts && clauses == Kept(planted, drawn)
      invariant rng.log == old(rng.log) + ClauseDraws(drawn) && AllThree(drawn)
      invariant forall c :: c in clauses ==> PlantedClause(planted, c)
    {
      attempts := attempts + 1;
      var clause, satisfied := RandomClause(rng, planted);
      assert satisfied ==> PlantedClause(planted, clause);
      hide PlantedClause;
      KeptStep(planted, drawn, clause);
      ClauseDrawsStep(drawn, clause);
      assert Kept(planted, drawn) + [] == Kept(planted, drawn);
      drawn := drawn + [clause];
      if satisfied { clauses := clauses + [clause]; }
    }
  }

  lemma NothingDrawnYet(planted: seq<bool>)
    ensures Kept(planted, []) == [] && ClauseDraws([]) == []
  {
  }

  /** Three literals drawn with replacement; satisfied says whether the planted assignment makes one true. */
  method RandomClause(rng: Draws, planted: seq<bool>) returns (clause: seq<int>, satisfied: bool)
    requires |planted| > 0
    modifies rng
    ensures |clause| == 3 && forall lit :: lit in clause ==> InRange(|planted|, lit)
    ensures rng.log == old(rng.log) + LiteralDraws(clause)
    ensures satisfied <==> ClauseTrue(planted, clause)
  {
    hide LiteralDraws, LiteralDraw, ClauseTrue, LitTrue;
    clause, satisfied := [], false;
    NoLiterals(planted);
    for j := 0 to 3
      invariant |clause| == j && forall lit :: lit in clause ==> InRange(|planted|, lit)
      invariant rng.log == old(rng.log) + LiteralDraws(clause)
      invariant satisfied <==> ClauseTrue(planted, clause)
    {
      var v := rng.Below(|planted|);
      v := v + 1;
      var negated := rng.Coin();
      var lit := if negated then -(v as int) else v;
      var value := planted[v - 1];
      OneMoreLiteral(planted, clause, v, negated);
      clause := clause + [lit];
      if if negated then !value else value {
        satisfied := true;
      }
    }
  }

  lemma NoLiterals(planted: seq<bool>)
    ensures LiteralDraws([]) == [] && !ClauseTrue(planted, [])
  {
  }

  lemma OneMoreLiteral(planted: seq<bool>, clause: seq<int>, v: nat, negated: bool)
    requires 0 < v <= |planted| && forall l :: l in clause ==> InRange(|planted|, l)
    ensures var lit := if negated then -(v as int) else v;
            LiteralDraws(clause + [lit]) == LiteralDraws(clause) + [v - 1] + [if negated then 1 else 0] &&
            (ClauseTrue(planted, clause + [lit]) <==>
             ClauseTrue(planted, clause) || planted[v - 1] == !negated)
  {
    var lit := if negated then -(v as int) else v;
    var more := clause + [lit];
    assert more[..|clause|] == clause;
    assert LiteralDraw(lit) == [v - 1] + [if negated then 1 else 0];
    OneMoreTrue(planted, clause, lit);
    assert LitTrue(planted, lit) <==> planted[v - 1] == !negated;
  }

  lemma OneMoreTrue(planted: seq<bool>, clause: seq<int>, lit: int)
    requires InRange(|planted|, lit) && forall l :: l in clause ==> InRange(|planted|, l)
    ensures ClauseTrue(planted, clause + [lit]) <==> ClauseTrue(planted, clause) || LitTrue(planted, lit)
  {
    hide LitTrue;
    var more := clause + [lit];
    assert forall p :: 0 <= p < |clause| ==> clause[p] == more[p];
    assert more[|clause|] == lit;
  }

  // ------------------------------------------------ subset sum

  /** The numbers 0 .. n - 1. */
  function Iota(n: nat): (s: seq<nat>)
    ensures |s| == n && forall i :: 0 <= i < n ==> s[i] == i
  {
    seq(n, i => i)
  }

  /** The elements less one are drawn first, then the size, then the order whose first positions are planted. */
  method GenerateSubsetSum(rng: Draws, setSize: nat, targetBits: nat)
    returns (inst: SubsetSumInstance, planted: seq<nat>, ghost values: seq<nat>, ghost size: nat, ghost steps: seq<nat>)
    requires setSize >= 8
    modifies rng
    ensures rng.log == old(rng.log) + values + [size] + steps && |values| == setSize == |steps| + 1
    ensures |inst.elements| == setSize && forall i :: 0 <= i < setSize ==> inst.elements[i] == values[i] + 1
    ensures size < setSize / 2 && ValidDraws(StepDraws(steps))
    ensures planted == Shuffle(Iota(setSize), setSize, StepDraws(steps))[..size + setSize / 4]
    ensures forall i :: 0 <= i < setSize ==> 1 <= inst.elements[i] <= MaxValue(targetBits)
    ensures setSize / 4 <= |planted| < setSize / 4 + setSize / 2 && inst.requiredSubsetSize == 0
    ensures SolvesSubsetSum(inst, planted)
  {
    hide Shuffle, SumAt, MaxValue, StepDraws, ValidDraws;
    var elements: seq<nat> := [];
    values := [];
    for i := 0 to setSize
      invariant |elements| == |values| == i && rng.log == old(rng.log) + values
      invariant forall k :: 0 <= k < i ==> elements[k] == values[k] + 1 && values[k] < MaxValue(targetBits)
    {
      var e := rng.Below(MaxValue(targetBits));
      elements, values := elements + [e + 1], values + [e];
    }
    var drawn := rng.Below(setSize / 2);
    size := drawn;
    var subsetSize := drawn + setSize / 4;
    subsetSize := if subsetSize < 1 then 1 else if subsetSize > setSize then setSize else subsetSize;
    var indices;
    indices, steps := ShuffledVertices(rng, setSize);
    var target := PlantedSum(elements, indices, subsetSize);
    inst := SubsetSumInstance(elements, target, 0);
    planted := indices[..subsetSize];
  }

  /** The sum of the first n chosen elements, wrapping at 2^64. */
  method PlantedSum(elements: seq<nat>, indices: seq<nat>, n: nat) returns (target: nat)
    requires n <= |indices| && forall k :: 0 <= k < |indices| ==> indices[k] < |elements|
    ensures target == SumAt(elements, indices[..n]) % TWO_64
  {
    target := 0;
    for i := 0 to n
      invariant target == SumAt(elements, indices[..i]) % TWO_64
    {
      SumStep(elements, indices, i);
      hide SumAt;
      target := (target + elements[indices[i]]) % TWO_64;
    }
  }

  function PowerOfTwo(n: nat): (m: nat)
    ensures m > 0
  {
    if n == 0 then 1 else 2 * PowerOfTwo(n - 1)
  }

  /** 2^min(bits, 62). */
  function MaxValue(bits: nat): (m: nat)
    ensures m > 0 && m == PowerOfTwo(if bits < 62 then bits else 62)
  {
    if bits == 0 then 1 else if bits > 62 then MaxValue(62) else 2 * MaxValue(bits - 1)
  }

  /** 0 .. n - 1 in random order. */
  method ShuffledVertices(rng: Draws, n: nat) returns (order: seq<nat>, ghost drawn: seq<nat>)
    requires n > 0
    modifies rng
    ensures rng.log == old(rng.log) + drawn && |drawn| == n - 1 && ValidDraws(StepDraws(drawn))
    ensures order == Shuffle(Iota(n), n, StepDraws(drawn))
    ensures |order| == n && Distinct(order) && forall v: nat :: v in order <==> v < n
    ensures forall i :: 0 <= i < n ==> order[i] < n
  {
    var a := new nat[n](i => i);
    ghost var iota := a[..];
    assert iota == Iota(n);
    var draws;
    draws, drawn := DrawSteps(rng, n);
    FisherYates(a, draws);
    order := a[..];
    PermutationOfRange(iota, order);
  }

  lemma PermutationOfRange(iota: seq<nat>, order: seq<nat>)
    requires multiset(order) == multiset(iota)
    requires forall i :: 0 <= i < |iota| ==> iota[i] == i
    ensures |order| == |iota| && Distinct(order) && forall v: nat :: v in order <==> v < |iota|
    ensures forall i :: 0 <= i < |order| ==> order[i] < |iota|
  {
    assert |multiset(order)| == |multiset(iota)|;
    forall v: nat
      ensures v in order <==> v < |iota|
      ensures multiset(order)[v] <= 1
    {
      assert v in order <==> v in multiset(order);
      assert v in iota <==> v in multiset(iota);
      if v < |iota| { assert iota[v] == v; }
      CountOnce(iota, v);
    }
    DistinctFromCounts(order);
    forall i | 0 <= i < |order| ensures order[i] < |iota| {
      assert order[i] in order;
    }
  }

  lemma {:induction false} CountOnce(s: seq<nat>, v: nat)
    requires forall i :: 0 <= i < |s| ==> s[i] == i
    ensures multiset(s)[v] == if v < |s| then 1 else 0
  {
    if s != [] {
      var front := s[..|s| - 1];
      assert s == front + [s[|s| - 1]];
      CountOnce(front, v);
    }
  }

  lemma DistinctFromCounts(s: seq<nat>)
    requires forall v: nat :: multiset(s)[v] <= 1
    ensures Distinct(s)
  {
    forall i, j | 0 <= i < j < |s| ensures s[i] != s[j] {
      assert s == s[..j] + s[j..];
      assert s[..j][i] == s[i] && s[i] in multiset(s[..j]);
      assert s[j..][0] == s[j] && s[j] in multiset(s[j..]);
      assert multiset(s)[s[i]] >= 1 + (if s[i] == s[j] then 1 else 0);
    }
  }

  // ------------------------------------------------ edges from drawn pairs

  /** The record of drawing pairs. */
  ghost function PairDraws(pairs: seq<(nat, nat)>): seq<nat> {
    if pairs == [] then [] else
      var (u, v) := pairs[|pairs| - 1];
      PairDraws(pairs[..|pairs| - 1]) + [u, v]
  }

  lemma PairDrawsStep(pairs: seq<(nat, nat)>, u: nat, v: nat)
    ensures PairDraws(pairs + [(u, v)]) == PairDraws(pairs) + [u, v]
    ensures PairDraws([]) == []
  {
    assert (pairs + [(u, v)])[..|pairs|] == pairs;
  }

  /** The record shows which pairs were drawn. */
  lemma {:induction false} PairDrawsInjective(a: seq<(nat, nat)>, b: seq<(nat, nat)>)
    ensures |PairDraws(a)| == 2 * |a|
    ensures PairDraws(a) == PairDraws(b) ==> a == b
    decreases |a| + |b|
  {
    if a != [] {
      PairDrawsInjective(a[..|a| - 1], []);
      assert a == a[..|a| - 1] + [a[|a| - 1]];
    }
    if b != [] { PairDrawsInjective(b[..|b| - 1], []); }
    if a != [] && b != [] && PairDraws(a) == PairDraws(b) {
      var x, y := PairDraws(a[..|a| - 1]), PairDraws(b[..|b| - 1]);
      SplitDraws(x, [a[|a| - 1].0, a[|a| - 1].1], y, [b[|b| - 1].0, b[|b| - 1].1]);
      PairDrawsInjective(a[..|a| - 1], b[..|b| - 1]);
      assert a == a[..|a| - 1] + [a[|a| - 1]] == b[..|b| - 1] + [b[|b| - 1]] == b;
    }
  }

  lemma SplitDraws(x: seq<nat>, u: seq<nat>, y: seq<nat>, v: seq<nat>)
    requires x + u == y + v && (|u| == |v| || |x| == |y|)
    ensures x == y && u == v
  {
    assert x == (x + u)[..|x|] && y == (y + v)[..|y|];
    assert u == (x + u)[|x|..] && v == (y + v)[|y|..];
  }

  /** Whoever draws the same gets the same colours, or steps of the shuffle, and the same pairs. */
  lemma SameDrawsSameGraph(planted: seq<nat>, drawn: seq<(nat, nat)>, planted': seq<nat>, drawn': seq<(nat, nat)>)
    requires |planted| == |planted'| && planted + PairDraws(drawn) == planted' + PairDraws(drawn')
    ensures planted == planted' && drawn == drawn'
  {
    SplitDraws(planted, PairDraws(drawn), planted', PairDraws(drawn'));
    PairDrawsInjective(drawn, drawn');
  }

  /** The smaller end first. */
  function Ordered(u: nat, v: nat): (nat, nat) {
    if u <= v then (u, v) else (v, u)
  }

  /** The start, and then the first occurrences of those candidates that are not in it. */
  ghost function Firsts(start: seq<(nat, nat)>, candidates: seq<(nat, nat)>): seq<(nat, nat)> {
    if candidates == [] then start else
      var front, last := Firsts(start, candidates[..|candidates| - 1]), candidates[|candidates| - 1];
      if last in front then front else front + [last]
  }

  /** The drawn pairs with two ends, ordered. */
  ghost function Proper(drawn: seq<(nat, nat)>): seq<(nat, nat)> {
    if drawn == [] then [] else
      var (u, v) := drawn[|drawn| - 1];
      Proper(drawn[..|drawn| - 1]) + (if u != v then [Ordered(u, v)] else [])
  }

  /** Those of them whose ends have different colours. */
  ghost function Bicoloured(colors: seq<nat>, drawn: seq<(nat, nat)>): seq<(nat, nat)>
    requires forall k :: 0 <= k < |drawn| ==> drawn[k].0 < |colors| && drawn[k].1 < |colors|
  {
    if drawn == [] then [] else
      var (u, v) := drawn[|drawn| - 1];
      Bicoloured(colors, drawn[..|drawn| - 1]) + (if u != v && colors[u] != colors[v] then [Ordered(u, v)] else [])
  }

  lemma {:induction false} FirstsHas(start: seq<(nat, nat)>, candidates: seq<(nat, nat)>, e: (nat, nat))
    ensures e in Firsts(start, candidates) <==> e in start || e in candidates
  {
    if candidates != [] {
      var front, last := candidates[..|candidates| - 1], candidates[|candidates| - 1];
      FirstsHas(start, front, e);
      assert candidates == front + [last];
    }
  }

  lemma {:induction false} FirstsDistinct(start: seq<(nat, nat)>, candidates: seq<(nat, nat)>)
    requires Distinct(start)
    ensures start <= Firsts(start, candidates) && Distinct(Firsts(start, candidates))
  {
    if candidates != [] {
      FirstsDistinct(start, candidates[..|candidates| - 1]);
    }
  }

  /** One more draw. */
  lemma FirstsStep(start: seq<(nat, nat)>, candidates: seq<(nat, nat)>, e: (nat, nat))
    ensures Firsts(start, candidates + [e]) ==
            if e in Firsts(start, candidates) then Firsts(start, candidates) else Firsts(start, candidates) + [e]
  {
    assert (candidates + [e])[..|candidates|] == candidates;
  }

  lemma ProperStep(drawn: seq<(nat, nat)>, u: nat, v: nat)
    ensures Proper(drawn + [(u, v)]) == Proper(drawn) + (if u != v then [Ordered(u, v)] else [])
  {
    assert (drawn + [(u, v)])[..|drawn|] == drawn;
  }

  lemma BicolouredStep(colors: seq<nat>, drawn: seq<(nat, nat)>, u: nat, v: nat)
    requires forall k :: 0 <= k < |drawn| ==> drawn[k].0 < |colors| && drawn[k].1 < |colors|
    requires u < |colors| && v < |colors|
    ensures Bicoloured(colors, drawn + [(u, v)]) ==
            Bicoloured(colors, drawn) + (if u != v && colors[u] != colors[v] then [Ordered(u, v)] else [])
  {
    assert (drawn + [(u, v)])[..|drawn|] == drawn;
  }

  /** Which pairs these are, whatever their order. */
  lemma {:induction false} BicolouredHas(colors: seq<nat>, drawn: seq<(nat, nat)>, e: (nat, nat))
    requires forall k :: 0 <= k < |drawn| ==> drawn[k].0 < |colors| && drawn[k].1 < |colors|
    ensures e in Bicoloured(colors, drawn) <==>
            e.0 < e.1 < |colors| && colors[e.0] != colors[e.1] && (e in drawn || (e.1, e.0) in drawn)
  {
    if drawn != [] {
      var front, last := drawn[..|drawn| - 1], drawn[|drawn| - 1];
      BicolouredHas(colors, front, e);
      assert drawn == front + [last];
    }
  }

  lemma {:induction false} ProperHas(drawn: seq<(nat, nat)>, e: (nat, nat))
    ensures e in Proper(drawn) <==> e.0 < e.1 && (e in drawn || (e.1, e.0) in drawn)
  {
    if drawn != [] {
      var front, last := drawn[..|drawn| - 1], drawn[|drawn| - 1];
      ProperHas(front, e);
      assert drawn == front + [last];
      var (u, v) := last;
      ProperStep(front, u, v);
      assert e in drawn <==> e in front || e == (u, v);
      assert (e.1, e.0) in drawn <==> (e.1, e.0) in front || e == (v, u);
    }
  }

  /** The keys are those of the edges, which are ordered 32-bit pairs, each once. */
  ghost predicate KeysOf(edges: seq<(nat, nat)>, keys: set<nat>) {
    |keys| == |edges| && (forall e :: e in edges ==> e.0 <= e.1 < TWO_32) &&
    (forall u, v :: 0 <= u <= v < TWO_32 ==> (EdgeKey(u, v) in keys <==> (u, v) in edges))
  }

  lemma NoKeys()
    ensures KeysOf([], {})
  {
  }

  lemma OneMoreKey(edges: seq<(nat, nat)>, keys: set<nat>, u: nat, v: nat)
    requires KeysOf(edges, keys) && u <= v < TWO_32 && EdgeKey(u, v) !in keys
    ensures KeysOf(edges + [(u, v)], keys + {EdgeKey(u, v)})
  {
    forall x: nat, y: nat | x <= y < TWO_32
      ensures EdgeKey(x, y) in keys + {EdgeKey(u, v)} <==> (x, y) in edges + [(u, v)]
    {
      EdgeKeyInjective(x, y, u, v);
    }
  }

  lemma KeyIsKnown(edges: seq<(nat, nat)>, keys: set<nat>, u: nat, v: nat)
    requires KeysOf(edges, keys) && u <= v < TWO_32
    ensures |keys| == |edges| && (EdgeKey(u, v) in keys <==> (u, v) in edges)
  {
  }

  // ------------------------------------------------ graph colouring

  /**
   The edges are the first occurrences, smaller end first, of drawn pairs with different ends and colours, in
   the order in which they were drawn; drawing stops when there are enough, or after three tries an edge.
   */
  method GenerateGraphColor(rng: Draws, numVertices: U32, edgeDensityPct: nat)
    returns (inst: GraphColorInstance, planted: seq<nat>, ghost drawn: seq<(nat, nat)>)
    requires numVertices >= 10
    modifies rng
    ensures rng.log == old(rng.log) + planted + PairDraws(drawn)
    ensures inst.numVertices == numVertices && inst.numColors == 3 && SolvesColoring(inst, planted)
    ensures forall k :: 0 <= k < |drawn| ==> drawn[k].0 < |planted| && drawn[k].1 < |planted|
    ensures inst.edges == Firsts([], Bicoloured(planted, drawn)) && Distinct(inst.edges)
    ensures forall e: (nat, nat) :: e in inst.edges <==> e.0 < e.1 < |planted| && planted[e.0] != planted[e.1] &&
                                                         (e in drawn || (e.1, e.0) in drawn)
    ensures var maxEdges := numVertices * (numVertices - 1) / 2;
            |inst.edges| == maxEdges * edgeDensityPct / 100 ||
            (|inst.edges| < maxEdges * edgeDensityPct / 100 && |drawn| == maxEdges * 3)
  {
    hide *;
    planted := RandomColors(rng, numVertices);
    var maxEdges := numVertices * (numVertices - 1) / 2;
    var edges;
    edges, drawn := EdgesBetweenColors(rng, planted, maxEdges * edgeDensityPct / 100, maxEdges * 3);
    inst := GraphColorInstance(numVertices, 3, edges);
    ColoringIsPlanted(inst, planted, drawn);
  }

  /** Step 1 of the generator. */
  method RandomColors(rng: Draws, numVertices: nat) returns (planted: seq<nat>)
    modifies rng
    ensures |planted| == numVertices && forall k :: 0 <= k < |planted| ==> planted[k] < 3
    ensures rng.log == old(rng.log) + planted
  {
    planted := [];
    for i := 0 to numVertices
      invariant |planted| == i && forall k :: 0 <= k < i ==> planted[k] < 3
      invariant rng.log == old(rng.log) + planted
    {
      var c := rng.Below(3);
      planted := planted + [c];
    }
  }

  lemma ColoringIsPlanted(inst: GraphColorInstance, planted: seq<nat>, drawn: seq<(nat, nat)>)
    requires |planted| == inst.numVertices && forall k :: 0 <= k < |planted| ==> planted[k] < inst.numColors
    requires forall k :: 0 <= k < |drawn| ==> drawn[k].0 < |planted| && drawn[k].1 < |planted|
    requires inst.edges == Firsts([], Bicoloured(planted, drawn))
    ensures SolvesColoring(inst, planted) && Distinct(inst.edges)
    ensures forall e: (nat, nat) :: e in inst.edges <==> e.0 < e.1 < |planted| && planted[e.0] != planted[e.1] &&
                                                         (e in drawn || (e.1, e.0) in drawn)
  {
    NothingTwice();
    hide *;
    FirstsDistinct([], Bicoloured(planted, drawn));
    EdgesJoinColors(planted, drawn);
    NoEdgeWithin(inst, planted);
  }

  lemma EdgesJoinColors(planted: seq<nat>, drawn: seq<(nat, nat)>)
    requires forall k :: 0 <= k < |drawn| ==> drawn[k].0 < |planted| && drawn[k].1 < |planted|
    ensures forall e: (nat, nat) ::
              e in Firsts([], Bicoloured(planted, drawn)) <==>
              e.0 < e.1 < |planted| && planted[e.0] != planted[e.1] && (e in drawn || (e.1, e.0) in drawn)
  {
    hide Firsts, Bicoloured;
    forall e: (nat, nat)
      ensures e in Firsts([], Bicoloured(planted, drawn)) <==>
              e.0 < e.1 < |planted| && planted[e.0] != planted[e.1] && (e in drawn || (e.1, e.0) in drawn)
    {
      FirstsHas([], Bicoloured(planted, drawn), e);
      BicolouredHas(planted, drawn, e);
    }
  }

  lemma NoEdgeWithin(inst: GraphColorInstance, planted: seq<nat>)
    requires |planted| == inst.numVertices && forall k :: 0 <= k < |planted| ==> planted[k] < inst.numColors
    requires forall e: (nat, nat) :: e in inst.edges ==> e.0 < e.1 < |planted| && planted[e.0] != planted[e.1]
    ensures SolvesColoring(inst, planted)
  {
    assert forall k :: 0 <= k < |inst.edges| ==> inst.edges[k] in inst.edges;
  }

  /** Step 2 of the generator: random edges between different colours. */
  method EdgesBetweenColors(rng: Draws, planted: seq<nat>, targetEdges: nat, tries: nat)
    returns (edges: seq<(nat, nat)>, ghost drawn: seq<(nat, nat)>)
    requires 0 < |planted| < TWO_32
    modifies rng
    ensures rng.log == old(rng.log) + PairDraws(drawn)
    ensures forall k :: 0 <= k < |drawn| ==> drawn[k].0 < |planted| && drawn[k].1 < |planted|
    ensures edges == Firsts([], Bicoloured(planted, drawn))
    ensures |edges| == targetEdges || (|edges| < targetEdges && |drawn| == tries)
  {
    hide Firsts, Bicoloured, KeysOf, EdgeKey, PairDraws;
    PairDrawsStep([], 0, 0);
    var edgeSet: set<nat>, attempts := {}, 0;
    edges, drawn := [], [];
    NoKeys();
    NothingDrawn(planted);
    while |edges| < targetEdges && attempts < tries
      invariant |edges| <= targetEdges && attempts == |drawn| <= tries && KeysOf(edges, edgeSet)
      invariant forall k :: 0 <= k < |drawn| ==> drawn[k].0 < |planted| && drawn[k].1 < |planted|
      invariant edges == Firsts([], Bicoloured(planted, drawn)) && rng.log == old(rng.log) + PairDraws(drawn)
      decreases tries - attempts
    {
      attempts := attempts + 1;
      var u := rng.Below(|planted|);
      var v := rng.Below(|planted|);
      PairDrawsStep(drawn, u, v);
      BicolouredStep(planted, drawn, u, v);
      FirstsStep([], Bicoloured(planted, drawn), Ordered(u, v));
      assert Bicoloured(planted, drawn) + [] == Bicoloured(planted, drawn);
      drawn := drawn + [(u, v)];
      if u == v { continue; }
      if u > v { u, v := v, u; }
      if planted[u] == planted[v] { continue; }
      KeyIsKnown(edges, edgeSet, u, v);
      if EdgeKey(u, v) !in edgeSet {
        OneMoreKey(edges, edgeSet, u, v);
        edgeSet := edgeSet + {EdgeKey(u, v)};
        edges := edges + [(u, v)];
      }
    }
  }

  lemma NothingDrawn(colors: seq<nat>)
    ensures Firsts([], Bicoloured(colors, [])) == []
  {
  }

  lemma NothingTwice()
    ensures Distinct<(nat, nat)>([])
  {
  }

  // ------------------------------------------------ Hamiltonian path

  /** The edges along a path. */
  function PathEdges(path: seq<nat>): (edges: seq<(nat, nat)>)
    ensures |edges| == if path == [] then 0 else |path| - 1
  {
    if path == [] then []
    else seq(|path| - 1, i requires 0 <= i < |path| - 1 => Ordered(path[i], path[i + 1]))
  }

  lemma PathEdgesDistinct(path: seq<nat>)
    requires Distinct(path)
    ensures Distinct(PathEdges(path))
  {
    hide Distinct;
    forall i, j | 0 <= i < j < |PathEdges(path)| ensures PathEdges(path)[i] != PathEdges(path)[j] {
      AllDiffer(path, i, j);
      AllDiffer(path, i, j + 1);
    }
    DistinctIf(PathEdges(path));
  }

  lemma AllDiffer(path: seq<nat>, i: nat, j: nat)
    requires Distinct(path) && i < j < |path|
    ensures path[i] != path[j]
  {
  }

  lemma DistinctIf(edges: seq<(nat, nat)>)
    requires forall i, j :: 0 <= i < j < |edges| ==> edges[i] != edges[j]
    ensures Distinct(edges)
  {
  }

  /**
   The edges of the planted path, and then the first occurrences, smaller end first, of drawn pairs with
   different ends that are not among them; drawing stops when there are enough, or after ten tries an edge.
   */
  method GenerateHamiltonian(rng: Draws, numVertices: U32, avgDegree: nat)
    returns (inst: HamiltonianInstance, planted: seq<nat>, ghost steps: seq<nat>, ghost drawn: seq<(nat, nat)>)
    requires numVertices >= 8 && avgDegree >= 2
    modifies rng
    ensures rng.log == old(rng.log) + steps + PairDraws(drawn)
    ensures |steps| == numVertices - 1 && ValidDraws(StepDraws(steps))
    ensures planted == Shuffle(Iota(numVertices), numVertices, StepDraws(steps))
    ensures inst.numVertices == numVertices && HamiltonianPath(inst, planted) && Fits32(inst)
    ensures inst.edges == Firsts(PathEdges(planted), Proper(drawn)) && Distinct(inst.edges)
    ensures forall k :: 0 <= k < |drawn| ==> drawn[k].0 < numVertices && drawn[k].1 < numVertices
    ensures forall e :: e in inst.edges <==>
                        e in PathEdges(planted) || (e.0 < e.1 && (e in drawn || (e.1, e.0) in drawn))
    ensures var target := numVertices * avgDegree / 2;
            |inst.edges| == target || (|inst.edges| < target && |drawn| == 10 * (target - (numVertices - 1)))
  {
    hide Firsts, Proper, KeysOf, EdgeKey, PathEdges, Distinct, HamiltonianPath, Fits32, Shuffle, PairDraws;
    planted, steps := ShuffledVertices(rng, numVertices);
    var edges, edgeSet := PathWithKeys(planted);
    EnoughEdges(numVertices, avgDegree);
    var targetExtra := numVertices * avgDegree / 2 - (numVertices - 1);
    edges, edgeSet, drawn := ExtraEdges(rng, numVertices, PathEdges(planted), edgeSet, targetExtra);
    inst := HamiltonianInstance(numVertices, edges);
    PathEdgesDistinct(planted);
    FirstsDistinct(PathEdges(planted), Proper(drawn));
    forall e
      ensures e in edges <==> e in PathEdges(planted) || (e.0 < e.1 && (e in drawn || (e.1, e.0) in drawn))
    {
      FirstsHas(PathEdges(planted), Proper(drawn), e);
      ProperHas(drawn, e);
    }
    PathIsThere(inst, planted);
    EdgesFit(inst, edgeSet);
  }

  lemma EnoughEdges(numVertices: nat, avgDegree: nat)
    requires avgDegree >= 2
    ensures numVertices * avgDegree / 2 >= numVertices
  {
    assert numVertices * avgDegree >= numVertices * 2;
  }

  /** Step 3 of the generator: random edges on top of those of the path. */
  method ExtraEdges(rng: Draws, numVertices: U32, path: seq<(nat, nat)>, keys: set<nat>, targetExtra: nat)
    returns (edges: seq<(nat, nat)>, edgeSet: set<nat>, ghost drawn: seq<(nat, nat)>)
    requires numVertices >= 8 && |path| == numVertices - 1 && KeysOf(path, keys)
    modifies rng
    ensures rng.log == old(rng.log) + PairDraws(drawn)
    ensures edges == Firsts(path, Proper(drawn)) && KeysOf(edges, edgeSet)
    ensures forall k :: 0 <= k < |drawn| ==> drawn[k].0 < numVertices && drawn[k].1 < numVertices
    ensures |edges| == |path| + targetExtra || (|edges| < |path| + targetExtra && |drawn| == 10 * targetExtra)
  {
    hide Firsts, Proper, KeysOf, EdgeKey, PairDraws;
    PairDrawsStep([], 0, 0);
    edges, edgeSet, drawn := path, keys, [];
    var attempts := 0;
    NothingMore(path);
    KeyCount(path, keys);
    while |edgeSet| < numVertices - 1 + targetExtra && attempts < targetExtra * 10
      invariant |edgeSet| == |edges| <= |path| + targetExtra && attempts == |drawn| <= targetExtra * 10
      invariant KeysOf(edges, edgeSet) && edges == Firsts(path, Proper(drawn))
      invariant rng.log == old(rng.log) + PairDraws(drawn)
      invariant forall k :: 0 <= k < |drawn| ==> drawn[k].0 < numVertices && drawn[k].1 < numVertices
      decreases targetExtra * 10 - attempts
    {
      attempts := attempts + 1;
      var u := rng.Below(numVertices);
      var v := rng.Below(numVertices);
      PairDrawsStep(drawn, u, v);
      ProperStep(drawn, u, v);
      FirstsStep(path, Proper(drawn), Ordered(u, v));
      assert Proper(drawn) + [] == Proper(drawn);
      drawn := drawn + [(u, v)];
      if u == v { continue; }
      if u > v { u, v := v, u; }
      KeyIsKnown(edges, edgeSet, u, v);
      if EdgeKey(u, v) !in edgeSet {
        OneMoreKey(edges, edgeSet, u, v);
        edgeSet := edgeSet + {EdgeKey(u, v)};
        edges := edges + [(u, v)];
        KeyCount(edges, edgeSet);
      }
    }
  }

  /** The edges of the path and their keys. */
  method PathWithKeys(path: seq<nat>) returns (edges: seq<(nat, nat)>, edgeSet: set<nat>)
    requires path != [] && Distinct(path) && forall i :: 0 <= i < |path| ==> path[i] < TWO_32
    ensures edges == PathEdges(path) && KeysOf(edges, edgeSet) && |edgeSet| == |edges|
  {
    PathEdgesDistinct(path);
    hide KeysOf, EdgeKey;
    edges, edgeSet := [], {};
    NoKeys();
    KeyCount(edges, edgeSet);
    for i := 0 to |path| - 1
      invariant edges == PathEdges(path)[..i] && KeysOf(edges, edgeSet) && |edgeSet| == |edges|
    {
      var u, v := path[i], path[i + 1];
      if u > v { u, v := v, u; }
      assert (u, v) == PathEdges(path)[i] && (u, v) !in edges;
      KeyIsKnown(edges, edgeSet, u, v);
      OneMoreKey(edges, edgeSet, u, v);
      edgeSet := edgeSet + {EdgeKey(u, v)};
      edges := edges + [(u, v)];
      KeyCount(edges, edgeSet);
    }
  }

  lemma KeyCount(edges: seq<(nat, nat)>, keys: set<nat>)
    requires KeysOf(edges, keys)
    ensures |keys| == |edges|
  {
  }

  lemma NothingMore(start: seq<(nat, nat)>)
    ensures Firsts(start, Proper([])) == start
  {
  }

  /** A graph with the edges of a path through all vertices has that path. */
  lemma PathIsThere(inst: HamiltonianInstance, path: seq<nat>)
    requires Distinct(path) && forall v: nat :: v in path <==> v < inst.numVertices
    requires forall e :: e in PathEdges(path) ==> e in inst.edges
    ensures HamiltonianPath(inst, path)
  {
    hide Distinct, Adjacent, PathEdges;
    forall i | 0 <= i < |path| - 1 ensures Adjacent(inst.edges, path[i], path[i + 1]) {
      assert PathEdges(path)[i] in PathEdges(path);
      StepIsEdge(inst.edges, path, i);
    }
  }

  lemma StepIsEdge(edges: seq<(nat, nat)>, path: seq<nat>, i: nat)
    requires i < |path| - 1 && PathEdges(path)[i] in edges
    ensures Adjacent(edges, path[i], path[i + 1])
  {
    hide *;
    PathEdgeAt(path, i);
    EitherWay(edges, path[i], path[i + 1]);
  }

  lemma PathEdgeAt(path: seq<nat>, i: nat)
    requires i < |path| - 1
    ensures PathEdges(path)[i] == Ordered(path[i], path[i + 1])
  {
  }

  lemma EitherWay(edges: seq<(nat, nat)>, u: nat, v: nat)
    requires Ordered(u, v) in edges
    ensures Adjacent(edges, u, v)
  {
    var k :| 0 <= k < |edges| && edges[k] == Ordered(u, v);
  }

  lemma EdgesFit(inst: HamiltonianInstance, keys: set<nat>)
    requires inst.numVertices < TWO_32 && KeysOf(inst.edges, keys)
    ensures Fits32(inst)
  {
    assert forall k :: 0 <= k < |inst.edges| ==> inst.edges[k] in inst.edges;
  }
}
