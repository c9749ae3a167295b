/**
 The WalkSAT solver of src/testnet_node.cpp (solve_sat). It flips the bits of one assignment in
 place, also for trying out a flip, and may stop before any try; what it returns is a witness. What it
 does is decided by its draws.
 */
module WalkSat {
  import opened SolverState
  import opened SatInstances
  import opened Shuffling
  import opened Words

  const MAX_TRIES := 5_000_000
  const FLIPS_PER_VARIABLE := 5

  ghost predicate Solvable(inst: SatInstance) {
    WellFormed(inst) && forall c :: c in inst.clauses ==> c != []
  }

  /** Whether the clause has a true literal under the current bits. */
  method ClauseHolds(asgn: array<bool>, clause: seq<int>) returns (sat: bool)
    requires forall lit :: lit in clause ==> InRange(asgn.Length, lit)
    ensures sat <==> ClauseTrue(asgn[..], clause)
  {
    for p := 0 to |clause|
      invariant forall q :: 0 <= q < p ==> !LitTrue(asgn[..], clause[q])
    {
      var lit := clause[p];
      assert lit in clause;
      if if lit > 0 then asgn[lit - 1] else !asgn[-lit - 1] {
        assert LitTrue(asgn[..], clause[p]);
        return true;
      }
    }
    return false;
  }

  /** The index of the first clause that does not hold, or none. */
  method FirstBroken(inst: SatInstance, asgn: array<bool>) returns (target: Option<nat>)
    requires WellFormed(inst) && asgn.Length == inst.numVariables
    ensures target.None? <==> Satisfies(inst, asgn[..])
    ensures target.Some? ==> target.value < |inst.clauses| && !ClauseTrue(asgn[..], inst.clauses[target.value]) &&
                             forall k :: 0 <= k < target.value ==> ClauseTrue(asgn[..], inst.clauses[k])
  {
    for ci := 0 to |inst.clauses|
      invariant forall k :: 0 <= k < ci ==> ClauseTrue(asgn[..], inst.clauses[k])
    {
      assert inst.clauses[ci] in inst.clauses;
      var sat := ClauseHolds(asgn, inst.clauses[ci]);
      if !sat { return Some(ci); }
    }
    return None;
  }

  /** How many of the first n clauses do not hold. */
  ghost function Broken(clauses: seq<seq<int>>, n: nat, bits: seq<bool>): (b: nat)
    requires n <= |clauses|
    ensures b <= n
  {
    if n == 0 then 0 else Broken(clauses, n - 1, bits) + (if ClauseTrue(bits, clauses[n - 1]) then 0 else 1)
  }

  method CountBroken(inst: SatInstance, asgn: array<bool>) returns (breaks: nat)
    requires WellFormed(inst) && asgn.Length == inst.numVariables
    ensures breaks == Broken(inst.clauses, |inst.clauses|, asgn[..])
  {
    breaks := 0;
    for ci := 0 to |inst.clauses|
      invariant breaks == Broken(inst.clauses, ci, asgn[..])
    {
      assert inst.clauses[ci] in inst.clauses;
      var sat := ClauseHolds(asgn, inst.clauses[ci]);
      if !sat { breaks := breaks + 1; }
    }
  }

  /** How many clauses are broken after the variable of lit has been flipped. */
  ghost function BrokenAfter(inst: SatInstance, bits: seq<bool>, lit: int): nat
    requires InRange(|bits|, lit)
  {
    Broken(inst.clauses, |inst.clauses|, bits[Var(lit) := !bits[Var(lit)]])
  }

  /** The first of those literals of the clause whose flip breaks the fewest clauses. */
  ghost predicate BestFlip(inst: SatInstance, bits: seq<bool>, clause: seq<int>, lit: int) {
    exists p :: 0 <= p < |clause| && clause[p] == lit && FirstLeast(inst, bits, clause, p)
  }

  ghost predicate FirstLeast(inst: SatInstance, bits: seq<bool>, clause: seq<int>, p: nat) {
    p < |clause| && InRange(|bits|, clause[p]) &&
    forall q :: 0 <= q < |clause| ==>
                  InRange(|bits|, clause[q]) &&
                  BrokenAfter(inst, bits, clause[p]) <= BrokenAfter(inst, bits, clause[q]) &&
                  (q < p ==> BrokenAfter(inst, bits, clause[p]) < BrokenAfter(inst, bits, clause[q]))
  }

  /** Every trial flip is taken back. */
  method GreedyPick(inst: SatInstance, asgn: array<bool>, clause: seq<int>, first: int) returns (best: int)
    requires WellFormed(inst) && asgn.Length == inst.numVariables && clause in inst.clauses && first in clause
    modifies asgn
    ensures BestFlip(inst, old(asgn[..]), clause, best) && asgn[..] == old(asgn[..])
  {
    best := first;
    var bestBreaks := |inst.clauses| + 1;
    ghost var bits, at := asgn[..], 0;
    for p := 0 to |clause|
      invariant asgn[..] == bits && best in clause && InRange(asgn.Length, best)
      invariant p > 0 ==> bestBreaks == BrokenAfter(inst, bits, best)
      invariant p == 0 ==> bestBreaks == |inst.clauses| + 1
      invariant p > 0 ==> 0 <= at < p && clause[at] == best
      invariant forall q :: 0 <= q < at && at < p ==>
                InRange(asgn.Length, clause[q]) && bestBreaks < BrokenAfter(inst, bits, clause[q])
      invariant forall q :: 0 <= q < p ==>
                InRange(asgn.Length, clause[q]) && bestBreaks <= BrokenAfter(inst, bits, clause[q])
    {
      var lit := clause[p];
      assert lit in clause;
      var v := Var(lit);
      asgn[v] := !asgn[v];
      assert asgn[..] == bits[v := !bits[v]];
      var breaks := CountBroken(inst, asgn);
      asgn[v] := !asgn[v];
      assert asgn[..] == bits;
      if breaks < bestBreaks { bestBreaks, best, at := breaks, lit, p; }
    }
    assert FirstLeast(inst, bits, clause, at);
  }

  // ------------------------------------------------ walks

  /** One flip: the broken clause, the three draws (the last only for a walk at random), and the chosen literal. */
  datatype Move = Move(clause: nat, first: nat, dice: nat, second: nat, lit: int)

  /** The assignments of one try, and the moves between them. */
  datatype Try = Try(visited: seq<seq<bool>>, moves: seq<Move>)

  /** In the first broken clause, three times of ten a random literal is flipped, else the best one. */
  ghost predicate Flips(inst: SatInstance, bits: seq<bool>, m: Move, next: seq<bool>) {
    m.clause < |inst.clauses| && !ClauseTrue(bits, inst.clauses[m.clause]) &&
    (forall k :: 0 <= k < m.clause ==> ClauseTrue(bits, inst.clauses[k])) &&
    var clause := inst.clauses[m.clause];
    (if m.dice < 30 then m.second < |clause| && m.lit == clause[m.second] else BestFlip(inst, bits, clause, m.lit)) &&
    InRange(|bits|, m.lit) && next == bits[Var(m.lit) := !bits[Var(m.lit)]]
  }

  /** Nothing but the last assignment can be a witness. */
  ghost predicate Walk(inst: SatInstance, t: Try) {
    |t.visited| == |t.moves| + 1 && |t.visited[0]| == inst.numVariables &&
    (forall k :: 0 <= k < |t.moves| ==> !Satisfies(inst, t.visited[k])) &&
    forall k :: 0 <= k < |t.moves| ==> Flips(inst, t.visited[k], t.moves[k], t.visited[k + 1])
  }

  /** A walk to the end that met no witness. */
  ghost predicate FullWalk(inst: SatInstance, t: Try) {
    |t.visited| == 1 + 5 * inst.numVariables && forall k :: 0 <= k < |t.visited| ==> !Satisfies(inst, t.visited[k])
  }

  lemma MetNone(inst: SatInstance, t: Try)
    requires Walk(inst, t) && !Satisfies(inst, t.visited[|t.visited| - 1])
    ensures forall k :: 0 <= k < |t.visited| ==> !Satisfies(inst, t.visited[k])
  {
    hide Satisfies, Flips;
  }

  lemma StartWalk(inst: SatInstance, bits: seq<bool>)
    requires |bits| == inst.numVariables
    ensures Walk(inst, Try([bits], []))
  {
  }

  lemma NextMove(inst: SatInstance, t: Try, m: Move, next: seq<bool>)
    requires Walk(inst, t) && !Satisfies(inst, t.visited[|t.visited| - 1])
    requires Flips(inst, t.visited[|t.visited| - 1], m, next)
    ensures Walk(inst, Try(t.visited + [next], t.moves + [m]))
  {
    hide Satisfies, Flips;
  }

  // ------------------------------------------------ what is drawn

  ghost function MoveDraws(moves: seq<Move>): seq<nat> {
    if moves == [] then [] else
      var m := moves[|moves| - 1];
      MoveDraws(moves[..|moves| - 1]) + ([m.first, m.dice] + if m.dice < 30 then [m.second] else [])
  }

  lemma MoveDrawsStep(moves: seq<Move>, m: Move)
    ensures MoveDraws(moves + [m]) == MoveDraws(moves) + ([m.first, m.dice] + if m.dice < 30 then [m.second] else [])
    ensures MoveDraws([]) == []
  {
    assert (moves + [m])[..|moves|] == moves;
  }

  /** All draws: for every try its first assignment, and then its moves. */
  ghost function TryDraws(tries: seq<Try>): seq<nat>
    requires forall t :: t in tries ==> t.visited != []
  {
    if tries == [] then [] else
      var t := tries[|tries| - 1];
      TryDraws(tries[..|tries| - 1]) + (CoinDraws(t.visited[0]) + MoveDraws(t.moves))
  }

  lemma TryDrawsStep(tries: seq<Try>, t: Try)
    requires t.visited != [] && forall u :: u in tries ==> u.visited != []
    ensures TryDraws(tries + [t]) == TryDraws(tries) + (CoinDraws(t.visited[0]) + MoveDraws(t.moves))
    ensures TryDraws([]) == []
  {
    assert (tries + [t])[..|tries|] == tries;
  }

  // ------------------------------------------------ the solver

  /** One flip of the loop, in the clause that was found broken. */
  method FlipOnce(rng: Draws, inst: SatInstance, asgn: array<bool>, target: nat) returns (ghost m: Move)
    requires Solvable(inst) && asgn.Length == inst.numVariables
    requires target < |inst.clauses| && !ClauseTrue(asgn[..], inst.clauses[target])
    requires forall k :: 0 <= k < target ==> ClauseTrue(asgn[..], inst.clauses[k])
    modifies rng, asgn
    ensures rng.log == old(rng.log) + ([m.first, m.dice] + if m.dice < 30 then [m.second] else [])
    ensures m.clause == target && Flips(inst, old(asgn[..]), m, asgn[..])
  {
    hide ClauseTrue;
    var clause := inst.clauses[target];
    assert clause in inst.clauses;
    var first := rng.Below(|clause|);
    var best := clause[first];
    var dice := rng.Below(100);
    ghost var second := 0;
    if dice < 30 {
      var k := rng.Below(|clause|);
      second := k;
      best := clause[k];
    } else {
      best := GreedyPick(inst, asgn, clause, best);
    }
    assert best in clause;
    m := Move(target, first, dice, second, best);
    ghost var before := asgn[..];
    asgn[Var(best)] := !asgn[Var(best)];
    assert asgn[..] == before[Var(best) := !before[Var(best)]];
  }

  /**
   The flip rounds of one try. It gives up only after five flips a variable, and ends before that exactly
   when it has come to a witness.
   */
  method FlipRounds(rng: Draws, inst: SatInstance, asgn: array<bool>)
    returns (result: Option<seq<bool>>, ghost t: Try)
    requires Solvable(inst) && asgn.Length == inst.numVariables
    modifies rng, asgn
    ensures rng.log == old(rng.log) + MoveDraws(t.moves)
    ensures t.visited != [] && Walk(inst, t) && t.visited[0] == old(asgn[..])
    ensures result.Some? ==> Satisfies(inst, result.value) && t.visited[|t.visited| - 1] == result.value
    ensures result.None? ==> |t.visited| == 1 + 5 * inst.numVariables
    ensures result.None? && inst.numVariables > 0 ==> !Satisfies(inst, t.visited[|t.visited| - 1])
  {
    hide Walk, Satisfies, Flips, MoveDraws;
    t := Try([asgn[..]], []);
    StartWalk(inst, asgn[..]);
    MoveDrawsStep([], Move(0, 0, 0, 0, 0));
    for flip := 0 to inst.numVariables * FLIPS_PER_VARIABLE
      invariant |t.visited| == 1 + flip && Walk(inst, t) && t.visited[0] == old(asgn[..])
      invariant t.visited[|t.visited| - 1] == asgn[..] && rng.log == old(rng.log) + MoveDraws(t.moves)
      invariant flip > 0 ==> !Satisfies(inst, asgn[..])
    {
      var target := FirstBroken(inst, asgn);
      if target.None? { return Some(asgn[..]), t; }
      ghost var m := FlipOnce(rng, inst, asgn, target.value);
      NextMove(inst, t, m, asgn[..]);
      MoveDrawsStep(t.moves, m);
      t := Try(t.visited + [asgn[..]], t.moves + [m]);
      var ok := Verify(inst, asgn[..]);
      if ok { return Some(asgn[..]), t; }
    }
    return None, t;
  }

  /** The random assignment that a try starts from. */
  method RandomBits(rng: Draws, n: nat) returns (asgn: array<bool>)
    modifies rng
    ensures fresh(asgn) && asgn.Length == n && rng.log == old(rng.log) + CoinDraws(asgn[..])
  {
    asgn := new bool[n];
    ghost var coins: seq<bool> := [];
    for i := 0 to n
      invariant |coins| == i && asgn[..i] == coins && rng.log == old(rng.log) + CoinDraws(coins)
    {
      var coin := rng.Coin();
      CoinDrawsStep(coins, coin);
      coins := coins + [coin];
      asgn[i] := coin;
    }
    assert asgn[..] == coins;
  }

  /** The bound on tries stands for the timeout and the shutdown flag. */
  method SolveSat(rng: Draws, inst: SatInstance, bound: nat)
    returns (result: Option<seq<bool>>, ghost tries: seq<Try>)
    requires Solvable(inst)
    modifies rng
    ensures forall t :: t in tries ==> t.visited != [] && Walk(inst, t)
    ensures rng.log == old(rng.log) + TryDraws(tries)
    ensures result.Some? ==> Satisfies(inst, result.value)
    // it gives up only when no try is left, after whole walks that met no witness
    ensures result.None? ==> |tries| == if bound < MAX_TRIES then bound else MAX_TRIES
    ensures result.None? && inst.numVariables > 0 ==> forall t :: t in tries ==> FullWalk(inst, t)
  {
    hide Walk, Satisfies, TryDraws, MoveDraws, CoinDraws;
    tries := [];
    TryDrawsStep([], Try([[]], []));
    for attempt := 0 to MAX_TRIES
      invariant |tries| == attempt <= bound && forall t :: t in tries ==> t.visited != [] && Walk(inst, t)
      invariant rng.log == old(rng.log) + TryDraws(tries)
      invariant inst.numVariables > 0 ==> forall t :: t in tries ==> FullWalk(inst, t)
    {
      if attempt == bound { return None, tries; }
      var asgn := RandomBits(rng, inst.numVariables);
      ghost var t;
      result, t := FlipRounds(rng, inst, asgn);
      TryDrawsStep(tries, t);
      tries := tries + [t];
      if result.Some? { return; }
      if inst.numVariables > 0 { MetNone(inst, t); }
    }
    return None, tries;
  }
}
