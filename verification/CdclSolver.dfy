/**
 The CDCL solver of src/mining/sat_solver.cpp: two-watched-literal propagation with
 in-place compaction of the watch lists, backtracking, clause learning and the main loop.
 VSIDS activities are not kept, so the choice of a decision variable is arbitrary.
 */
module CdclSolving {
  import opened SolverState
  import opened PropagationLemmas
  import opened SatInstances
  import opened SolverTheorems

  /** How the main loop ends. The source returns nullopt for all but the first. */
  datatype Outcome = Found(solution: seq<bool>) | ConflictAtLevelZero | VerifyFailed | Stopped

  /** What one unit_propagate of the main loop left behind. */
  datatype Reached = Reached(assignment: seq<VarState>, level: seq<int>, trail: seq<int>, limits: seq<nat>,
                             clauses: seq<Clause>, conflict: bool)

  /**
   Unless there was a conflict, the naive scan has nothing to do in the reached state: exactly as far as the
   instance's own clauses of fewer than two literals are true, and so always if there are none.
   */
  ghost predicate NothingLeft(instance: seq<Clause>, r: Reached) {
    ValidDb(|r.assignment|, r.clauses) && Holds(instance, r.clauses) &&
    if r.conflict then exists ci :: 0 <= ci < |r.clauses| && AllFalse(r.assignment, r.clauses[ci])
    else (AllQuiet(r.assignment, r.clauses) <==> InstanceShortTrue(r.assignment, instance, r.clauses)) &&
         ((forall c :: c in instance ==> |c| >= 2) ==> AllQuiet(r.assignment, r.clauses))
  }

  /**
   How a round goes on from the round before. After a conflict the negation of the current level has been
   learned and only level zero is left; otherwise one free literal has been decided on a new level.
   */
  ghost predicate Follows(r: Reached, s: Reached) {
    if r.conflict then
      |r.level| == |r.assignment| && r.limits != [] && r.limits[0] <= |r.trail| && s.limits == [] &&
      var learned := NegatedLevel(r.assignment, r.level, |r.limits|, |r.assignment|);
      learned != [] && Permuted(r.clauses + [learned], s.clauses) &&
      r.trail[..r.limits[0]] + (if |learned| == 1 then learned else []) <= s.trail
    else
      s.limits == r.limits + [|r.trail|] && Permuted(r.clauses, s.clauses) && r.trail < s.trail &&
      ValidLit(|r.assignment|, s.trail[|r.trail|]) && IsUnassigned(r.assignment, s.trail[|r.trail|])
  }

  /** The rounds of the main loop: the first starts from the instance, each later one from the one before. */
  ghost predicate Rounds(instance: seq<Clause>, reached: seq<Reached>) {
    (forall k :: 0 <= k < |reached| ==> NothingLeft(instance, reached[k])) &&
    (reached != [] ==> reached[0].limits == [] && Permuted(instance, reached[0].clauses)) &&
    (forall k :: 0 < k < |reached| ==> Follows(reached[k - 1], reached[k]))
  }

  lemma NoRounds(instance: seq<Clause>)
    ensures Rounds(instance, [])
  {
  }

  lemma NextRound(instance: seq<Clause>, reached: seq<Reached>, r: Reached)
    requires Rounds(instance, reached) && NothingLeft(instance, r)
    requires if reached == [] then r.limits == [] && Permuted(instance, r.clauses)
             else Follows(reached[|reached| - 1], r)
    ensures Rounds(instance, reached + [r])
  {
    hide NothingLeft, Follows, Permuted;
  }

  lemma FollowsOn(r: Reached, s: Reached, s': Reached)
    requires Follows(r, s) && s.limits == s'.limits && s.trail <= s'.trail && Permuted(s.clauses, s'.clauses)
    ensures Follows(r, s')
  {
    hide NegatedLevel;
    var learned := if r.conflict then NegatedLevel(r.assignment, r.level, |r.limits|, |r.assignment|) else [];
    PermutedTwice(if r.conflict then r.clauses + [learned] else r.clauses, s.clauses, s'.clauses);
    hide Permuted;
  }

  lemma PermutedTwice(a: seq<Clause>, b: seq<Clause>, c: seq<Clause>)
    requires Permuted(a, b) && Permuted(b, c)
    ensures Permuted(a, c)
  {
  }

  class CdclSolver {
    var assignment: seq<VarState>
    var decisionLevel: seq<int>
    var antecedent: seq<int>
    var phaseCache: seq<bool>
    var trail: seq<int>
    var trailLim: seq<nat>
    var currentLevel: int
    var clauses: seq<Clause>
    var watches: seq<seq<nat>>

    /** Everything but the watch lists is consistent. */
    ghost predicate CoreOk()
      reads this
    {
      ValidDb(|assignment|, clauses) && TrailOk(assignment, trail) &&
      LevelsOk(assignment, decisionLevel, antecedent, trail, trailLim) && currentLevel == |trailLim| &&
      ReasonsOk(assignment, clauses, antecedent, trail) &&
      |decisionLevel| == |antecedent| == |phaseCache| == |assignment|
    }

    ghost predicate Valid()
      reads this
    {
      CoreOk() && |watches| == 2 * |assignment| && WatchesOk(|assignment|, clauses, watches)
    }

    ghost function Snapshot(): Trace
      reads this
    {
      Trace(trail, decisionLevel, antecedent, clauses)
    }

    /** Where a round stands. */
    ghost function Stand(conflict: bool): Reached
      reads this
    {
      Reached(assignment, decisionLevel, trail, trailLim, clauses, conflict)
    }

    /** The true literals of done no longer break any watch. */
    ghost predicate SettledFor(done: seq<int>)
      reads this
      requires CoreOk()
    {
      Settled(assignment, decisionLevel, clauses, done)
    }

    method Assign(lit: int, anteClause: int)
      requires ValidLit(|assignment|, lit) && |decisionLevel| == |antecedent| == |assignment|
      modifies this`assignment, this`decisionLevel, this`antecedent, this`trail
      ensures assignment == Assigned(old(assignment), lit)
      ensures decisionLevel == old(decisionLevel)[Var(lit) := currentLevel]
      ensures antecedent == old(antecedent)[Var(lit) := anteClause]
      ensures trail == old(trail) + [lit]
    {
      var v := Var(lit);
      assignment := assignment[v := if lit > 0 then True else False];
      decisionLevel := decisionLevel[v := currentLevel];
      antecedent := antecedent[v := anteClause];
      trail := trail + [lit];
    }

    method Unassign(lit: int)
      requires ValidLit(|assignment|, lit) && |decisionLevel| == |antecedent| == |phaseCache| == |assignment|
      modifies this`assignment, this`decisionLevel, this`antecedent, this`phaseCache
      ensures phaseCache == old(phaseCache)[Var(lit) := old(assignment)[Var(lit)] == True]
      ensures assignment == old(assignment)[Var(lit) := Unassigned]
      ensures decisionLevel == old(decisionLevel)[Var(lit) := -1]
      ensures antecedent == old(antecedent)[Var(lit) := -1]
    {
      var v := Var(lit);
      phaseCache := phaseCache[v := assignment[v] == True];
      assignment := assignment[v := Unassigned];
      decisionLevel := decisionLevel[v := -1];
      antecedent := antecedent[v := -1];
    }

    // ----------------------------------------------------------- unit propagation

    /** The first literal past the watched ones that is not false. */
    method FindNewWatch(c: Clause) returns (k: nat)
      requires ValidClause(|assignment|, c) && |c| >= 2
      ensures 2 <= k <= |c|
      ensures k < |c| ==> !IsFalse(assignment, c[k])
      ensures forall q :: 2 <= q < k ==> IsFalse(assignment, c[q])
    {
      k := 2;
      while k < |c|
        invariant 2 <= k <= |c|
        invariant forall q :: 2 <= q < k ==> IsFalse(assignment, c[q])
      {
        if IsUnassigned(assignment, c[k]) || LitValue(assignment, c[k]) {
          return;
        }
        k := k + 1;
      }
    }

    /** The conflict exit: the unread entries move down behind the kept ones and the list shrinks. */
    method KeepRest(w: nat, from: nat, to: nat)
      requires w < |watches| && to <= from <= |watches[w]|
      modifies this`watches
      ensures watches == old(watches)[w := Live(old(watches)[w], from, to)]
    {
      var i, j := from, to;
      while i < |watches[w]|
        invariant |watches| == |old(watches)| && to <= j <= i <= |watches[w]|
        invariant watches == old(watches)[w := watches[w]]
        invariant Live(watches[w], i, j) == Live(old(watches)[w], from, to)
      {
        KeepEntry(watches[w], i, j);
        watches := watches[w := watches[w][j := watches[w][i]]];
        i, j := i + 1, j + 1;
      }
      assert watches[w][..j] == Live(watches[w], i, j);
      watches := watches[w := watches[w][..j]];
    }

    /** The state in the middle of a pass over the watch list of falseLit. */
    ghost predicate Scanning(done: seq<int>, falseLit: int, w: nat, i: nat, j: nat)
      reads this
    {
      CoreOk() && ValidLit(|assignment|, falseLit) && w == LitIndex(falseLit) < |watches| && j <= i <= |watches[w]| &&
      WatchesOk(|assignment|, clauses, watches[w := Live(watches[w], i, j)]) &&
      (forall x :: x in watches[w][..j] ==> x !in watches[w][i..]) &&
      SettledFor(done) && SettledBut(assignment, decisionLevel, clauses, falseLit, watches[w][i..]) &&
      IsFalse(assignment, falseLit) && |watches| == 2 * |assignment| && decisionLevel[Var(falseLit)] == currentLevel &&
      -falseLit in trail && forall m :: m in done ==> m in trail
    }

    /** Put falseLit at position 1 of the clause. */
    method SwapWatched(ghost done: seq<int>, falseLit: int, w: nat, i: nat, ghost j: nat)
      requires Scanning(done, falseLit, w, i, j) && i < |watches[w]|
      requires watches[w][i] < |clauses| && |clauses[watches[w][i]]| >= 2
      modifies this`clauses
      ensures Scanning(done, falseLit, w, i, j) && Permuted(old(clauses), clauses) && |clauses| == |old(clauses)|
      ensures |clauses[watches[w][i]]| >= 2
      ensures falseLit in old(clauses)[watches[w][i]][..2] ==> clauses[watches[w][i]][1] == falseLit
    {
      hide TrailOk, LevelsOk, ReasonsOk, WatchesOk, Settled, SettledBut;
      var ci := watches[w][i];
      if clauses[ci][0] == falseLit {
        SwapPermutes(clauses, ci, 0, 1);
        SwapFirstTwo(assignment, decisionLevel, clauses, watches[w := Live(watches[w], i, j)], ci, done, falseLit,
                     watches[w][i..]);
        PermutedKeepsReasons(assignment, clauses, clauses[ci := clauses[ci][0 := clauses[ci][1]][1 := clauses[ci][0]]],
                             antecedent, trail);
        clauses := clauses[ci := clauses[ci][0 := clauses[ci][1]][1 := clauses[ci][0]]];
      }
    }

    /** The entry stays in the list: its other watched literal is true. */
    method KeepWatch(ghost done: seq<int>, falseLit: int, w: nat, i: nat, j: nat)
      requires Scanning(done, falseLit, w, i, j) && i < |watches[w]|
      requires watches[w][i] < |clauses| && |clauses[watches[w][i]]| >= 2
      requires clauses[watches[w][i]][1] == falseLit && LitValue(assignment, clauses[watches[w][i]][0])
      modifies this`watches
      ensures Scanning(done, falseLit, w, i + 1, j + 1)
      ensures watches == old(watches)[w := old(watches)[w][j := old(watches)[w][i]]]
    {
      hide ReasonsOk, WatchesOk, Settled, SettledBut;
      var ci := watches[w][i];
      KeepEntry(watches[w], i, j);
      KeptOnce(|assignment|, clauses, watches, w, i, j);
      AssignedIsOnTrail(assignment, trail, clauses[ci][0]);
      assert watches[w][i..] == [ci] + watches[w][i + 1..];
      KeepSettled(assignment, decisionLevel, clauses, ci, watches[w][i + 1..], falseLit);
      watches := watches[w := watches[w][j := watches[w][i]]];
      assert watches[w := Live(watches[w], i + 1, j + 1)] == old(watches[w := Live(watches[w], i, j)]);
    }

    /** The entry leaves the list: the clause watches the literal at position k instead. */
    method ReplaceWatch(ghost done: seq<int>, falseLit: int, w: nat, i: nat, ghost j: nat, k: nat)
      requires Scanning(done, falseLit, w, i, j) && i < |watches[w]|
      requires watches[w][i] < |clauses| && 2 <= k < |clauses[watches[w][i]]|
      requires clauses[watches[w][i]][1] == falseLit && !LitValue(assignment, clauses[watches[w][i]][0])
      requires !IsFalse(assignment, clauses[watches[w][i]][k])
      modifies this`watches, this`clauses
      ensures Scanning(done, falseLit, w, i + 1, j) && Permuted(old(clauses), clauses) && |clauses| == |old(clauses)|
      ensures watches[w] == old(watches)[w]
    {
      hide TrailOk, LevelsOk, ReasonsOk, WatchesOk, Settled, SettledBut;
      var ci := watches[w][i];
      var c := clauses[ci];
      MoveWatch(|assignment|, clauses, watches, ci, k, w, i, j);
      MoveSettled(assignment, decisionLevel, trail, clauses, watches, ci, k, w, i, j, done, falseLit);
      SwapPermutes(clauses, ci, 1, k);
      PermutedKeepsReasons(assignment, clauses, clauses[ci := c[1 := c[k]][k := c[1]]], antecedent, trail);
      clauses := clauses[ci := c[1 := c[k]][k := c[1]]];
      watches := watches[LitIndex(c[k]) := watches[LitIndex(c[k])] + [ci]];
    }

    /** No other watch was found: the entry stays and the first literal is assigned. */
    method PropagateFirst(ghost done: seq<int>, falseLit: int, w: nat, i: nat, j: nat)
      requires Scanning(done, falseLit, w, i, j) && i < |watches[w]|
      requires watches[w][i] < |clauses| && |clauses[watches[w][i]]| >= 2
      requires clauses[watches[w][i]][1] == falseLit && IsUnassigned(assignment, clauses[watches[w][i]][0])
      requires forall q :: 2 <= q < |clauses[watches[w][i]]| ==> IsFalse(assignment, clauses[watches[w][i]][q])
      modifies this
      ensures Scanning(done, falseLit, w, i + 1, j + 1)
      ensures clauses == old(clauses) && |watches[w]| == |old(watches)[w]|
      ensures trailLim == old(trailLim) && currentLevel == old(currentLevel) && phaseCache == old(phaseCache)
      ensures |assignment| == |old(assignment)|
      ensures var ci := old(watches)[w][i]; var lit := clauses[ci][0];
              trail == old(trail) + [lit] && decisionLevel == old(decisionLevel)[Var(lit) := currentLevel] &&
              antecedent == old(antecedent)[Var(lit) := ci]
    {
      hide LevelsOk, ReasonsOk, WatchesOk, Settled, SettledBut;
      var ci := watches[w][i];
      var lit := clauses[ci][0];
      FirstIsForced(assignment, trail, clauses[ci]);
      ExtendPropagated(assignment, decisionLevel, antecedent, trail, trailLim, lit, ci);
      ExtendReasons(assignment, antecedent, trail, clauses, lit, ci);
      ExtendSettled(assignment, decisionLevel, trail, clauses, done, falseLit, watches[w][i..], lit, currentLevel);
      Assign(lit, ci);
      assert Scanning(done, falseLit, w, i, j);
      KeepWatch(done, falseLit, w, i, j);
    }

    /** What the pass does with one entry of the list; on a conflict the rest of the list is kept as it is. */
    method VisitEntry(ghost done: seq<int>, falseLit: int, w: nat, i: nat, j: nat)
      returns (i': nat, j': nat, conflict: bool)
      requires Scanning(done, falseLit, w, i, j) && i < |watches[w]|
      modifies this
      ensures trailLim == old(trailLim) && currentLevel == old(currentLevel) && phaseCache == old(phaseCache)
      ensures |assignment| == |old(assignment)| && PropagatedFrom(old(Snapshot()), Snapshot(), currentLevel)
      ensures !conflict ==> Scanning(done, falseLit, w, i', j') && i' == i + 1 && |watches[w]| == |old(watches)[w]|
      ensures conflict ==>
              Valid() && SettledFor(done) && exists ci :: 0 <= ci < |clauses| && AllFalse(assignment, clauses[ci])
    {
      hide LevelsOk, ReasonsOk, WatchesOk, Settled, SettledBut, TrailOk, PropagatedFrom, Permuted;
      LiveEntry(|assignment|, clauses, watches, falseLit, w, i, j);
      i', j', conflict := i + 1, j, false;
      var ci := watches[w][i];
      if |clauses[ci]| < 2 {
        // the only literal of a watched one-literal clause is falseLit
        assert AllFalse(assignment, clauses[ci]);
        PropagatedNothing(assignment, Snapshot(), currentLevel);
        KeepRest(w, i, j);
        conflict := true;
        return;
      }
      SwapWatched(done, falseLit, w, i, j);
      PermutingPropagates(assignment, old(Snapshot()), currentLevel, clauses);
      if LitValue(assignment, clauses[ci][0]) {
        KeepWatch(done, falseLit, w, i, j);
        j' := j + 1;
        return;
      }
      var k := FindNewWatch(clauses[ci]);
      if k < |clauses[ci]| {
        ghost var swapped := Snapshot();
        ReplaceWatch(done, falseLit, w, i, j, k);
        PermutingPropagates(assignment, swapped, currentLevel, clauses);
        PropagatedTwice(old(Snapshot()), swapped, Snapshot(), currentLevel);
        return;
      }
      if IsUnassigned(assignment, clauses[ci][0]) {
        ghost var swapped := Snapshot();
        ExtendingPropagates(assignment, swapped, currentLevel, clauses[ci][0], ci);
        PropagateFirst(done, falseLit, w, i, j);
        PropagatedTwice(old(Snapshot()), swapped, Snapshot(), currentLevel);
        j' := j + 1;
      } else {
        assert AllFalse(assignment, clauses[ci]);
        KeepRest(w, i, j);
        conflict := true;
      }
    }

    /** One pass over the clauses watching the literal that trail[pos] has just made false. */
    method ScanWatchList(pos: nat) returns (conflict: bool)
      requires Valid() && pos < |trail| && SettledFor(trail[..pos])
      requires decisionLevel[Var(trail[pos])] == currentLevel
      modifies this
      ensures Valid() && trailLim == old(trailLim) && currentLevel == old(currentLevel) && phaseCache == old(phaseCache)
      ensures |assignment| == |old(assignment)|
      ensures PropagatedFrom(old(Snapshot()), Snapshot(), currentLevel)
      ensures SettledFor(trail[..pos])
      ensures !conflict ==> SettledFor(trail[..pos + 1])
      ensures conflict ==> exists ci :: 0 <= ci < |clauses| && AllFalse(assignment, clauses[ci])
    {
      hide LevelsOk, ReasonsOk, WatchesOk, Settled, SettledBut, TrailOk, PropagatedFrom, Permuted;
      EntryFacts(assignment, trail, pos);
      PropagatedNothing(assignment, Snapshot(), currentLevel);
      var falseLit := -trail[pos];
      var w := LitIndex(falseLit);
      ghost var done := trail[..pos];
      var i: nat, j: nat := 0, 0;
      assert Live(watches[w], 0, 0) == watches[w];
      assert watches[w := Live(watches[w], 0, 0)] == watches;
      StartScan(assignment, decisionLevel, clauses, watches, falseLit);
      while i < |watches[w]|
        invariant Scanning(done, falseLit, w, i, j)
        invariant done + [-falseLit] <= trail && trailLim == old(trailLim) && currentLevel == old(currentLevel) &&
                  phaseCache == old(phaseCache)
        invariant |assignment| == |old(assignment)|
        invariant PropagatedFrom(old(Snapshot()), Snapshot(), currentLevel)
        decreases |watches[w]| - i
      {
        ghost var before := Snapshot();
        i, j, conflict := VisitEntry(done, falseLit, w, i, j);
        PropagatedTwice(old(Snapshot()), before, Snapshot(), currentLevel);
        assert trail[..pos] == done;
        if conflict { return; }
      }
      assert watches[w][..j] == Live(watches[w], i, j);
      watches := watches[w := watches[w][..j]];
      FinishScan(assignment, decisionLevel, clauses, done, falseLit);
      assert trail[..pos] == done && trail[..pos + 1] == done + [-falseLit];
      return false;
    }

    /** Where unit_propagate starts reading: at the last trail entry. */
    ghost function Start(): nat
      reads this
    {
      if |trail| > 0 then |trail| - 1 else 0
    }

    /** The state in which the main loop calls unit_propagate: only the last trail entry is unread. */
    ghost predicate Ready()
      reads this
    {
      Valid() && SettledFor(trail[..Start()]) &&
      (|trail| > 0 ==> decisionLevel[Var(trail[|trail| - 1])] == currentLevel) &&
      (currentLevel > 0 ==> trailLim[currentLevel - 1] == |trail| - 1)
    }

    /** What holds of the state whenever the main loop calls unit_propagate for this instance. */
    ghost predicate InLoop(instance: seq<Clause>)
      reads this
    {
      Ready() && Holds(instance, clauses) && ShortTrue(assignment, decisionLevel, clauses, |instance|)
    }

    method UnitPropagate() returns (conflict: bool)
      requires Ready()
      modifies this
      ensures Valid() && trailLim == old(trailLim) && currentLevel == old(currentLevel) && phaseCache == old(phaseCache)
      ensures |assignment| == |old(assignment)|
      ensures PropagatedFrom(old(Snapshot()), Snapshot(), currentLevel)
      ensures SettledFor(trail[..old(Start())])
      ensures !conflict ==> SettledFor(trail)
      ensures conflict ==> exists ci :: 0 <= ci < |clauses| && AllFalse(assignment, clauses[ci])
      ensures old(trail) == [] ==> !conflict && trail == [] && assignment == old(assignment) && clauses == old(clauses)
    {
      hide LevelsOk, ReasonsOk, WatchesOk, Settled, TrailOk, PropagatedFrom, Permuted, ValidDb;
      var pos := if |trail| > 0 then |trail| - 1 else 0;
      PropagatedNothing(assignment, Snapshot(), currentLevel);
      while pos < |trail|
        invariant old(Start()) <= pos <= |trail| && trail[..old(Start())] == old(trail[..Start()])
        invariant Valid() && trailLim == old(trailLim) && currentLevel == old(currentLevel) &&
                  phaseCache == old(phaseCache)
        invariant |assignment| == |old(assignment)|
        invariant PropagatedFrom(old(Snapshot()), Snapshot(), currentLevel)
        invariant SettledFor(trail[..pos])
        invariant old(trail) == [] ==> trail == [] && assignment == old(assignment) && clauses == old(clauses)
        invariant pos == old(Start()) < |trail| ==>
                  ValidLit(|assignment|, trail[pos]) && decisionLevel[Var(trail[pos])] == currentLevel
        decreases |assignment| - pos
      {
        TrailFits(assignment, trail);
        if pos > old(Start()) {
          PropagatedEntry(old(Snapshot()), Snapshot(), currentLevel, pos);
        }
        ghost var before := Snapshot();
        conflict := ScanWatchList(pos);
        PropagatedTwice(old(Snapshot()), before, Snapshot(), currentLevel);
        if conflict {
          assert trail[..old(Start())] <= trail[..pos];
          SettledPrefix(assignment, decisionLevel, clauses, trail[..pos], trail[..old(Start())]);
          return;
        }
        pos := pos + 1;
      }
      assert trail[..pos] == trail;
      SettledPrefix(assignment, decisionLevel, clauses, trail, trail[..old(Start())]);
      return false;
    }

    /**
     unit_propagate as the main loop uses it. If it finishes, no clause of the whole database is false or
     unit, exactly as far as the instance's own short clauses are true.
     */
    method PropagateInLoop(ghost instance: seq<Clause>) returns (conflict: bool)
      requires InLoop(instance)
      modifies this
      ensures Valid() && trailLim == old(trailLim) && currentLevel == old(currentLevel)
      ensures |assignment| == |old(assignment)| && old(trail) <= trail && Permuted(old(clauses), clauses)
      ensures PropagatedFrom(old(Snapshot()), Snapshot(), currentLevel)
      ensures SettledFor(trail[..old(Start())]) && (!conflict ==> SettledFor(trail))
      ensures conflict ==> exists ci :: 0 <= ci < |clauses| && AllFalse(assignment, clauses[ci])
      ensures Holds(instance, clauses) && ShortTrue(assignment, decisionLevel, clauses, |instance|)
      ensures !conflict ==> (AllQuiet(assignment, clauses) <==> InstanceShortTrue(assignment, instance, clauses))
      ensures !conflict && (forall c :: c in instance ==> |c| >= 2) ==> AllQuiet(assignment, clauses)
    {
      hide LevelsOk, ReasonsOk, WatchesOk, Settled, TrailOk, PropagatedFrom, Permuted, Holds, ShortTrue, AllQuiet;
      ghost var asg, before := assignment, Snapshot();
      conflict := UnitPropagate();
      PropagatedClauses(before, Snapshot(), currentLevel);
      PermutedHolds(instance, before.clauses, clauses);
      PropagationKeepsShortTrue(asg, before, assignment, Snapshot(), currentLevel, |instance|);
      if !conflict {
        QuietInLoop(assignment, decisionLevel, trail, instance, clauses);
      }
    }

    /**
     The exception is real: one-literal clauses of the instance are watched but not propagated, so the first
     unit_propagate leaves each of them unit. The naive scan would assign its literal.
     */
    method LoadAndPropagate(n: nat, instance: seq<Clause>) returns (conflict: bool)
      requires ValidDb(n, instance)
      modifies this
      ensures Valid() && |assignment| == n && !conflict && clauses == instance
      ensures forall ci :: 0 <= ci < |clauses| && |clauses[ci]| == 1 ==> UnitAt(assignment, clauses[ci], 0)
      ensures AllQuiet(assignment, clauses) ==> forall ci :: 0 <= ci < |clauses| ==> |clauses[ci]| != 1
    {
      hide LevelsOk, ReasonsOk, WatchesOk, Settled, Holds, ShortTrue;
      Load(n, instance);
      conflict := UnitPropagate();
    }

    // ----------------------------------------------------------- conflict handling

    method AnalyzeConflict() returns (learned: Clause, backtrackLevel: int)
      requires CoreOk()
      ensures learned == NegatedLevel(assignment, decisionLevel, currentLevel, |assignment|)
      ensures backtrackLevel == if learned == [] then currentLevel - 1 else 0
    {
      hide LevelsOk, ReasonsOk;
      LevelIsAssigned(assignment, decisionLevel, antecedent, trail, trailLim);
      var n := |assignment|;
      var seen := seq(n, _ => false);
      var t := |trail|;
      while t > 0
        invariant 0 <= t <= |trail| && |seen| == n
        invariant forall v :: 0 <= v < n && seen[v] ==> decisionLevel[v] == currentLevel
        invariant forall i :: t <= i < |trail| && decisionLevel[Var(trail[i])] == currentLevel ==> seen[Var(trail[i])]
      {
        t := t - 1;
        var v := Var(trail[t]);
        if !seen[v] && decisionLevel[v] == currentLevel {
          seen := seen[v := true];
        }
      }
      forall v | 0 <= v < n
        ensures seen[v] <==> decisionLevel[v] == currentLevel
      {
        if decisionLevel[v] == currentLevel { assert TrueLit(assignment, v) in trail; }
      }
      learned, backtrackLevel := [], 0;
      for v := 0 to n
        invariant learned == NegatedLevel(assignment, decisionLevel, currentLevel, v) && backtrackLevel == 0
      {
        var l := decisionLevel[v];
        if seen[v] {
          learned := learned + [Negation(assignment, v)];
          backtrackLevel := if l < currentLevel && l > backtrackLevel then l else backtrackLevel;
        }
      }
      if learned == [] {
        for v := 0 to n
          invariant learned == NegatedLevel(assignment, decisionLevel, currentLevel, v)
        {
          if decisionLevel[v] == currentLevel {
            learned := learned + [Negation(assignment, v)];
          }
        }
        backtrackLevel := currentLevel - 1;
      }
    }

    method TrimLimits(to: nat)
      requires to <= |trailLim|
      modifies this`trailLim
      ensures trailLim == old(trailLim)[..to]
    {
      while |trailLim| > to
        invariant to <= |trailLim| <= |old(trailLim)| && trailLim == old(trailLim)[..|trailLim|]
      {
        trailLim := trailLim[..|trailLim| - 1];
      }
    }

    /** Undo every assignment above the level; the trail keeps exactly its prefix up to there. */
    method Backtrack(to: nat)
      requires CoreOk() && to <= currentLevel
      modifies this
      ensures CoreOk() && currentLevel == to && trailLim == old(trailLim)[..to]
      ensures clauses == old(clauses) && watches == old(watches)
      ensures trail == old(trail)[..CutAt(old(trail), old(trailLim), to)]
      ensures CutAt(old(trail), old(trailLim), to) <= |old(trail)|
      ensures Undone(old(trail), CutAt(old(trail), old(trailLim), to),
                     old(assignment), old(decisionLevel), old(antecedent), old(phaseCache),
                     assignment, decisionLevel, antecedent, phaseCache)
    {
      hide LevelsOk, ReasonsOk, Undone;
      UndoneNothing(assignment, decisionLevel, antecedent, phaseCache, trail);
      ghost var cut := CutAt(trail, trailLim, to);
      LevelsAroundCut(assignment, decisionLevel, antecedent, trail, trailLim, to);
      while |trail| > 0
        invariant |decisionLevel| == |antecedent| == |phaseCache| == |assignment| == |old(assignment)|
        invariant cut <= |trail| <= |old(trail)| && trail == old(trail)[..|trail|]
        invariant Undone(old(trail), |trail|, old(assignment), old(decisionLevel), old(antecedent), old(phaseCache),
                         assignment, decisionLevel, antecedent, phaseCache)
        invariant trailLim == old(trailLim) && clauses == old(clauses) && watches == old(watches)
        decreases |trail|
      {
        var lit := trail[|trail| - 1];
        UndoneOneMore(old(trail), |trail| - 1, old(assignment), old(decisionLevel), old(antecedent), old(phaseCache),
                      assignment, decisionLevel, antecedent, phaseCache);
        if decisionLevel[Var(lit)] <= to { break; }
        Unassign(lit);
        trail := trail[..|trail| - 1];
      }
      UndoneKeepsCore(old(assignment), old(decisionLevel), old(antecedent), old(phaseCache), old(trail), old(trailLim),
                      clauses, to, assignment, decisionLevel, antecedent, phaseCache);
      TrimLimits(to);
      currentLevel := to;
    }

    // ----------------------------------------------------------- clauses and decisions

    /** Append a clause and watch its first two literals, or its only one. */
    method PushClause(c: Clause)
      requires ValidDb(|assignment|, clauses) && |watches| == 2 * |assignment| &&
               WatchesOk(|assignment|, clauses, watches)
      requires ValidClause(|assignment|, c)
      modifies this`clauses, this`watches
      ensures clauses == old(clauses) + [c] && |watches| == 2 * |assignment|
      ensures ValidDb(|assignment|, clauses) && WatchesOk(|assignment|, clauses, watches)
    {
      hide WatchesOk;
      assert forall p :: 0 <= p < |c| ==> ValidLit(|assignment|, c[p]) && LitIndex(c[p]) < |watches|;
      AddClauseWatches(|assignment|, clauses, watches, c);
      var ci := |clauses|;
      if |c| >= 2 {
        watches := watches[LitIndex(c[0]) := watches[LitIndex(c[0])] + [ci]];
        watches := watches[LitIndex(c[1]) := watches[LitIndex(c[1])] + [ci]];
      } else if |c| == 1 {
        watches := watches[LitIndex(c[0]) := watches[LitIndex(c[0])] + [ci]];
      }
      clauses := clauses + [c];
    }

    /** add_learned_clause: a one-literal clause is also assigned at once. */
    method AddLearnedClause(c: Clause)
      requires Valid() && SettledFor(trail) && ValidClause(|assignment|, c)
      requires forall p :: 0 <= p < |c| ==> IsUnassigned(assignment, c[p])
      modifies this
      ensures Valid() && SettledFor(old(trail))
      ensures trailLim == old(trailLim) && currentLevel == old(currentLevel) && clauses == old(clauses) + [c]
      ensures if |c| == 1
              then trail == old(trail) + c && assignment == Assigned(old(assignment), c[0]) &&
                   decisionLevel == old(decisionLevel)[Var(c[0]) := currentLevel]
              else trail == old(trail) && assignment == old(assignment) && decisionLevel == old(decisionLevel)
    {
      hide LevelsOk, ReasonsOk, WatchesOk, Settled, TrailOk;
      AddClauseCore(assignment, decisionLevel, antecedent, trail, clauses, c);
      PushClause(c);
      if |c| == 1 {
        assert multiset(c) == multiset{c[0]};
        ExtendSettledOnly(assignment, decisionLevel, trail, clauses, c[0], currentLevel);
        ExtendPropagated(assignment, decisionLevel, antecedent, trail, trailLim, c[0], |clauses| - 1);
        ExtendReasons(assignment, antecedent, trail, clauses, c[0], |clauses| - 1);
        Assign(c[0], |clauses| - 1);
        assert c == [c[0]];
      }
    }

    /** Load an instance into a fresh solver state; nothing is assigned yet. */
    method Load(n: nat, instance: seq<Clause>)
      requires ValidDb(n, instance)
      modifies this
      ensures InLoop(instance) && |assignment| == n && currentLevel == 0 && trail == [] && clauses == instance
      ensures |phaseCache| == n && forall v :: 0 <= v < n ==> !phaseCache[v]
    {
      hide TrailOk, LevelsOk, ReasonsOk, WatchesOk, Settled;
      Reset(n);
      for ci := 0 to |instance|
        invariant CoreOk() && |assignment| == n && trail == [] && trailLim == []
        invariant |watches| == 2 * n && WatchesOk(n, clauses, watches) && clauses == instance[..ci]
        invariant forall v :: 0 <= v < |phaseCache| ==> !phaseCache[v]
      {
        assert ValidClause(n, instance[ci]);
        PushClause(instance[ci]);
        EmptyTrailReasons(assignment, decisionLevel, clauses, antecedent);
      }
      EmptyTrailReasons(assignment, decisionLevel, clauses, antecedent);
      assert trail[..Start()] == [];
      assert clauses[..|instance|] == instance;
    }

    method Reset(n: nat)
      modifies this
      ensures Valid() && |assignment| == n && currentLevel == 0 && trail == [] && trailLim == [] && clauses == []
      ensures forall v :: 0 <= v < |phaseCache| ==> !phaseCache[v]
    {
      hide TrailOk, LevelsOk, ReasonsOk, WatchesOk;
      assignment := seq(n, _ => Unassigned);
      decisionLevel := seq(n, _ => -1);
      antecedent := seq(n, _ => -1);
      phaseCache := seq(n, _ => false);
      trail, trailLim, currentLevel := [], [], 0;
      watches := seq(2 * n, _ => []);
      clauses := [];
      FreshState(n, assignment, decisionLevel, antecedent, watches);
    }

    /** Any unassigned variable may be picked; its sign is the saved phase. Zero means all are assigned. */
    method PickDecisionVariable(phaseSaving: bool) returns (lit: int)
      requires |phaseCache| == |assignment|
      ensures lit == 0 <==> forall v :: 0 <= v < |assignment| ==> assignment[v] != Unassigned
      ensures lit != 0 ==> ValidLit(|assignment|, lit) && IsUnassigned(assignment, lit)
      ensures lit != 0 ==> (lit > 0 <==> phaseSaving && phaseCache[Var(lit)])
    {
      if forall v :: 0 <= v < |assignment| ==> assignment[v] != Unassigned {
        return 0;
      }
      var v :| 0 <= v < |assignment| && assignment[v] == Unassigned;
      return if phaseSaving && phaseCache[v] then v + 1 else -(v + 1);
    }

    /** Open a new level with a decision. */
    method Decide(ghost instance: seq<Clause>, lit: int)
      requires Valid() && SettledFor(trail) && ValidLit(|assignment|, lit) && IsUnassigned(assignment, lit)
      requires Holds(instance, clauses) && ShortTrue(assignment, decisionLevel, clauses, |instance|)
      modifies this
      ensures InLoop(instance) && clauses == old(clauses) && |assignment| == |old(assignment)|
      ensures currentLevel == old(currentLevel) + 1 && trail == old(trail) + [lit] && antecedent[Var(lit)] == -1
      ensures Follows(old(Stand(false)), Stand(false))
    {
      hide LevelsOk, ReasonsOk, WatchesOk, Settled, TrailOk;
      hide Holds, ShortTrue;
      AssignKeepsShortTrue(assignment, decisionLevel, clauses, lit, currentLevel + 1, |instance|);
      ExtendDecided(assignment, decisionLevel, antecedent, trail, trailLim, lit);
      ExtendReasons(assignment, antecedent, trail, clauses, lit, -1);
      ExtendSettledOnly(assignment, decisionLevel, trail, clauses, lit, currentLevel + 1);
      currentLevel := currentLevel + 1;
      trailLim := trailLim + [|trail|];
      Assign(lit, -1);
      assert trail[..Start()] == old(trail);
    }

    // ----------------------------------------------------------- the main loop

    /** Steps 2 to 4 of the loop: analyze, jump back, learn. */
    method ResolveConflict(ghost base: nat) returns (learned: Clause)
      requires Valid() && currentLevel > 0 && SettledFor(trail[..trailLim[0]])
      requires ShortTrue(assignment, decisionLevel, clauses, base)
      modifies this
      ensures Ready() && currentLevel == 0
      ensures |assignment| == |old(assignment)| && clauses == old(clauses) + [learned]
      ensures ShortTrue(assignment, decisionLevel, clauses, base)
      // the learned clause was false and is free again, apart from the literal a one-literal clause asserts
      ensures ValidClause(|assignment|, learned) && learned != [] && AllFalse(old(assignment), learned)
      ensures |learned| > 1 ==> forall p :: 0 <= p < |learned| ==> IsUnassigned(assignment, learned[p])
      ensures trail == old(trail)[..old(trailLim)[0]] + (if |learned| == 1 then learned else [])
      ensures learned == NegatedLevel(old(assignment), old(decisionLevel), old(currentLevel), |assignment|)
    {
      hide LevelsOk, ReasonsOk, WatchesOk, Settled, Undone, TrailOk, ShortTrue;
      var level: int;
      LevelIsAssigned(assignment, decisionLevel, antecedent, trail, trailLim);
      NegatedLevelIs(assignment, decisionLevel, currentLevel, |assignment|);
      learned, level := AnalyzeConflict();
      DecisionLearned(assignment, decisionLevel, antecedent, trail, trailLim, learned);
      Backtrack(level);
      FreedByUndo(old(assignment), old(decisionLevel), old(antecedent), old(phaseCache), old(trail), old(trailLim),
                  learned,
                  assignment, decisionLevel, antecedent, phaseCache);
      UndoneKeepsSettled(old(assignment), old(decisionLevel), old(antecedent), old(phaseCache), old(trail),
                         old(trailLim), clauses, 0,
                         assignment, decisionLevel, antecedent, phaseCache);
      UndoKeepsShortTrue(old(assignment), old(decisionLevel), old(antecedent), old(phaseCache), old(trail),
                         old(trailLim),
                         clauses, base, assignment, decisionLevel, antecedent, phaseCache);
      ghost var free, levels := assignment, decisionLevel;
      AddLearnedClause(learned);
      LearningKeepsShortTrue(free, levels, old(clauses), learned, base, assignment, decisionLevel);
      if |learned| != 1 && |trail| > 0 {
        LevelZero(assignment, decisionLevel, antecedent, trail, trailLim);
      }
      SettledPrefix(assignment, decisionLevel, clauses, old(trail)[..old(trailLim)[0]], trail[..Start()]);
    }

    /** The conflict branch of the loop; the restart schedule is an arbitrary choice. */
    method HandleConflict(ghost instance: seq<Clause>, ghost start: nat)
      requires Valid() && currentLevel > 0 && start <= |trail| && SettledFor(trail[..start])
      requires trailLim[currentLevel - 1] <= start
      requires Holds(instance, clauses) && ShortTrue(assignment, decisionLevel, clauses, |instance|)
      modifies this
      ensures InLoop(instance) && |assignment| == |old(assignment)| && Follows(old(Stand(true)), Stand(false))
    {
      hide LevelsOk, ReasonsOk, WatchesOk, Settled, TrailOk, Holds, ShortTrue;
      ghost var before := clauses;
      FirstLimit(assignment, decisionLevel, antecedent, trail, trailLim);
      SettledPrefix(assignment, decisionLevel, clauses, trail[..start], trail[..trailLim[0]]);
      var learned := ResolveConflict(|instance|);
      AppendHolds(instance, before, learned);
      if * { Restart(); }
    }

    /** The jump to level zero has already happened, so a restart changes nothing. */
    method Restart()
      requires Ready() && currentLevel == 0
      modifies this
      ensures Ready() && currentLevel == 0 && trail == old(trail) && assignment == old(assignment)
      ensures decisionLevel == old(decisionLevel)
      ensures clauses == old(clauses) && watches == old(watches) && phaseCache == old(phaseCache)
    {
      hide LevelsOk, ReasonsOk, WatchesOk, Settled, TrailOk, Undone;
      Backtrack(0);
      UndoneNone(old(trail), old(assignment), old(decisionLevel), old(antecedent), old(phaseCache),
                 assignment, decisionLevel, antecedent, phaseCache);
      assert trail == old(trail) && decisionLevel == old(decisionLevel) && Start() == old(Start());
      assert SettledFor(trail[..Start()]);
    }

    /** All variables are assigned: read off the assignment and check it once more. */
    method ReadSolution(inst: SatInstance) returns (outcome: Outcome)
      requires Valid() && SettledFor(trail) && |assignment| == inst.numVariables && Holds(inst.clauses, clauses)
      requires forall v :: 0 <= v < |assignment| ==> assignment[v] != Unassigned
      ensures outcome.Found? || outcome.VerifyFailed?
      ensures outcome.Found? ==> |outcome.solution| == |assignment| &&
                                 forall v :: 0 <= v < |assignment| ==> (outcome.solution[v] <==> assignment[v] == True)
      ensures outcome.Found? ==> Satisfies(inst, outcome.solution)
      ensures outcome.VerifyFailed? ==> [] in inst.clauses
    {
      hide LevelsOk, ReasonsOk, WatchesOk, Settled, TrailOk, Holds;
      var solution := seq(|assignment|, i requires 0 <= i < |assignment| reads this => assignment[i] == True);
      FullAssignmentSatisfies(assignment, decisionLevel, trail, inst, clauses, solution);
      var ok := Verify(inst, solution);
      return if ok then Found(solution) else VerifyFailed;
    }

    /**
     The loop of solve; the rounds bound stands for the cancel flag and the timeout. The ghost result lists
     the states that unit_propagate left, one per round.
     */
    method Solve(inst: SatInstance, phaseSaving: bool, rounds: nat)
      returns (outcome: Outcome, ghost reached: seq<Reached>)
      requires ValidDb(inst.numVariables, inst.clauses)
      modifies this
      ensures outcome.Found? ==> Satisfies(inst, outcome.solution)
      // the final check can only fail on a clause that no assignment satisfies
      ensures outcome.VerifyFailed? ==> [] in inst.clauses
      // giving up at level zero means that the instance with the learned clauses has no model
      ensures outcome.ConflictAtLevelZero? ==> Holds(inst.clauses, clauses) && |assignment| == inst.numVariables &&
                                               forall model :: |model| == |assignment| ==> !ModelOf(model, clauses)
      ensures |reached| <= rounds && (outcome.Stopped? ==> |reached| == rounds)
      ensures Rounds(inst.clauses, reached)
      ensures !outcome.Stopped? ==> reached != []
      ensures outcome.ConflictAtLevelZero? ==> var last := reached[|reached| - 1];
                                               last.conflict && last.limits == []
      ensures outcome.Found? || outcome.VerifyFailed? ==> var last := reached[|reached| - 1];
                                                          !last.conflict && Unassigned !in last.assignment
      ensures outcome.Found? ==> var last, n := reached[|reached| - 1].assignment, |outcome.solution|;
                                 n == |last| && forall v :: 0 <= v < n ==> (outcome.solution[v] <==> last[v] == True)
    {
      hide LevelsOk, ReasonsOk, WatchesOk, Settled, TrailOk, PropagatedFrom;
      hide Holds, ShortTrue, Permuted, AllQuiet, InstanceShortTrue, Follows, Rounds;
      NoRounds(inst.clauses);
      Load(inst.numVariables, inst.clauses);
      reached := [];
      for round := 0 to rounds
        invariant InLoop(inst.clauses) && |assignment| == inst.numVariables && |reached| == round
        invariant Rounds(inst.clauses, reached)
        invariant if reached == [] then trailLim == [] && clauses == inst.clauses
                  else Follows(reached[|reached| - 1], Stand(false))
      {
        ghost var start, before := Start(), Stand(false);
        var conflict := PropagateInLoop(inst.clauses);
        if reached != [] { FollowsOn(reached[|reached| - 1], before, Stand(conflict)); }
        NextRound(inst.clauses, reached, Stand(conflict));
        reached := reached + [Stand(conflict)];
        if conflict {
          if currentLevel == 0 {
            NoModelAtLevelZero(assignment, decisionLevel, antecedent, trail, trailLim, clauses);
            return ConflictAtLevelZero, reached;
          }
          HandleConflict(inst.clauses, start);
        } else {
          var decision := PickDecisionVariable(phaseSaving);
          if decision == 0 {
            outcome := ReadSolution(inst);
            return;
          }
          Decide(inst.clauses, decision);
        }
      }
      return Stopped, reached;
    }
  }
  /** The smallest instance with such a clause: the variable stays free though the clause is unit. */
  method OneLiteralIgnored() returns (solver: CdclSolver, conflict: bool)
    ensures !conflict && solver.clauses == [[1]] && solver.assignment == [Unassigned]
    ensures ValidDb(1, [[1]]) && UnitAt([Unassigned], [1], 0) && !Quiet([Unassigned], [1])
  {
    solver := new CdclSolver;
    hide TrailOk, LevelsOk, ReasonsOk, WatchesOk, Settled, Holds, ShortTrue;
    conflict := solver.LoadAndPropagate(1, [[1]]);
    assert UnitAt(solver.assignment, solver.clauses[0], 0);
    assert solver.assignment == [Unassigned];
  }
}
