/**
 What the solver's invariants mean: a finished propagation leaves nothing for the naive scan,
 the trail is forced by its decisions, and a conflict excludes every model that agrees with them.
 */
module SolverTheorems {
  import opened SolverState
  import opened PropagationLemmas
  import opened SatInstances

  // ------------------------------------------------------- what a finished propagation leaves

  /** A clause with two watches that propagation has settled is true or has two open positions. */
  lemma SettledIsQuiet(asg: seq<VarState>, level: seq<int>, trail: seq<int>, clauses: seq<Clause>, ci: nat)
    requires TrailOk(asg, trail) && |level| == |asg| && ValidDb(|asg|, clauses)
    requires Settled(asg, level, clauses, trail) && ci < |clauses| && |clauses[ci]| >= 2
    ensures Quiet(asg, clauses[ci])
  {
    var c := clauses[ci];
    AssignedIsOnTrail(asg, trail, c[0]);
    AssignedIsOnTrail(asg, trail, c[1]);
    if IsFalse(asg, c[0]) {
      assert Guarded(asg, level, c, 0);
      TrueIsQuiet(asg, c, 1);
    } else if IsFalse(asg, c[1]) {
      assert Guarded(asg, level, c, 1);
      TrueIsQuiet(asg, c, 0);
    }
  }

  lemma TrueIsQuiet(asg: seq<VarState>, c: Clause, t: nat)
    requires ValidClause(|asg|, c) && t < |c| && LitValue(asg, c[t])
    ensures Quiet(asg, c)
  {
  }

  /**
   The naive scan has nothing to do after a finished propagation, except with clauses of fewer than
   two literals: these the two-watched scheme never propagates, so all is quiet exactly when each of
   them is already true.
   */
  lemma FinishedMeansQuiet(asg: seq<VarState>, level: seq<int>, trail: seq<int>, clauses: seq<Clause>)
    requires TrailOk(asg, trail) && |level| == |asg| && ValidDb(|asg|, clauses)
    requires Settled(asg, level, clauses, trail)
    ensures forall ci :: 0 <= ci < |clauses| && |clauses[ci]| >= 2 ==> Quiet(asg, clauses[ci])
    ensures AllQuiet(asg, clauses) <==>
            forall ci :: 0 <= ci < |clauses| && |clauses[ci]| < 2 ==> HasTrue(asg, clauses[ci])
  {
    forall ci | 0 <= ci < |clauses| && |clauses[ci]| >= 2 ensures Quiet(asg, clauses[ci]) {
      SettledIsQuiet(asg, level, trail, clauses, ci);
    }
    forall ci | 0 <= ci < |clauses| && |clauses[ci]| < 2
      ensures Quiet(asg, clauses[ci]) <==> HasTrue(asg, clauses[ci])
    {
      ShortQuiet(asg, clauses[ci]);
    }
  }

  lemma ShortQuiet(asg: seq<VarState>, c: Clause)
    requires ValidClause(|asg|, c) && |c| < 2
    ensures Quiet(asg, c) <==> HasTrue(asg, c)
  {
    if |c| == 1 && IsUnassigned(asg, c[0]) {
      assert UnitAt(asg, c, 0);
    }
  }

  // ------------------------------------------------------- levels along the trail

  /** Decision levels never decrease along the trail, and each level above zero starts with its only decision. */
  lemma LevelsNeverDecrease(asg: seq<VarState>, level: seq<int>, ante: seq<int>, trail: seq<int>, lim: seq<nat>, i: nat,
                            j: nat)
    requires TrailOk(asg, trail) && LevelsOk(asg, level, ante, trail, lim) && i <= j < |trail|
    ensures 0 <= level[Var(trail[i])] <= level[Var(trail[j])] <= |lim|
    ensures ante[Var(trail[i])] == -1 && ante[Var(trail[j])] == -1 && level[Var(trail[i])] == level[Var(trail[j])] ==>
            i == j
  {
    var L := Marks(level, trail);
    assert L[i] == level[Var(trail[i])] && L[j] == level[Var(trail[j])];
    if L[j] < |lim| {
      assert L[i] > L[j] <==> lim[L[j]] <= i;
      assert L[j] > L[j] <==> lim[L[j]] <= j;
    }
  }

  // ------------------------------------------------------- implication soundness

  /** The model gives every literal of the list the value true. */
  ghost predicate Agrees(model: seq<bool>, lits: seq<int>) {
    forall i :: 0 <= i < |lits| ==> InRange(|model|, lits[i]) && LitTrue(model, lits[i])
  }

  ghost predicate ModelOf(model: seq<bool>, clauses: seq<Clause>) {
    forall ci :: 0 <= ci < |clauses| ==> ClauseTrue(model, clauses[ci])
  }

  /** The decisions on the trail are true in the model. */
  ghost predicate AgreesWithDecisions(model: seq<bool>, ante: seq<int>, trail: seq<int>) {
    forall i :: 0 <= i < |trail| && ValidLit(|ante|, trail[i]) && ante[Var(trail[i])] == -1 ==>
                  InRange(|model|, trail[i]) && LitTrue(model, trail[i])
  }

  /** A model of the clauses that agrees with the decisions agrees with the whole trail. */
  lemma {:induction false} ModelFollowsTrail(model: seq<bool>, asg: seq<VarState>, clauses: seq<Clause>, ante: seq<int>,
                                             trail: seq<int>, k: nat)
    requires TrailOk(asg, trail) && |ante| == |asg| == |model| && ReasonsOk(asg, clauses, ante, trail)
    requires ModelOf(model, clauses) && AgreesWithDecisions(model, ante, trail) && k <= |trail|
    ensures Agrees(model, trail[..k])
    ensures k == |trail| ==> Agrees(model, trail)
  {
    hide TrailOk, ReasonsOk, ModelOf, AgreesWithDecisions;
    if k > 0 {
      ModelFollowsTrail(model, asg, clauses, ante, trail, k - 1);
      EntryInModel(model, asg, clauses, ante, trail, k - 1);
      AgreesMore(model, trail, k - 1);
    }
    assert trail[..|trail|] == trail;
  }

  lemma AgreesMore(model: seq<bool>, trail: seq<int>, i: nat)
    requires i < |trail| && Agrees(model, trail[..i]) && InRange(|model|, trail[i]) && LitTrue(model, trail[i])
    ensures Agrees(model, trail[..i + 1])
  {
    assert trail[..i + 1] == trail[..i] + [trail[i]];
  }

  lemma EntryInModel(model: seq<bool>, asg: seq<VarState>, clauses: seq<Clause>, ante: seq<int>, trail: seq<int>,
                     i: nat)
    requires TrailOk(asg, trail) && |ante| == |asg| == |model| && ReasonsOk(asg, clauses, ante, trail)
    requires ModelOf(model, clauses) && AgreesWithDecisions(model, ante, trail) && i < |trail| &&
             Agrees(model, trail[..i])
    ensures InRange(|model|, trail[i]) && LitTrue(model, trail[i])
  {
    var a := ante[Var(trail[i])];
    if a != -1 {
      hide Forces, Agrees;
      ForcedInModel(model, clauses[a], trail[..i], trail[i]);
    }
  }

  lemma ForcedInModel(model: seq<bool>, c: Clause, prefix: seq<int>, lit: int)
    requires Forces(c, prefix, lit) && Agrees(model, prefix) && ClauseTrue(model, c)
    ensures InRange(|model|, lit) && LitTrue(model, lit)
  {
    var p :| 0 <= p < |c| && InRange(|model|, c[p]) && LitTrue(model, c[p]);
    assert c[p] in multiset(c);
    assert -c[p] !in prefix;
  }

  /** A model that agrees with the trail makes none of a false clause's literals true. */
  lemma FalseInModel(model: seq<bool>, asg: seq<VarState>, trail: seq<int>, c: Clause)
    requires TrailOk(asg, trail) && |asg| == |model| && ValidClause(|asg|, c) && AllFalse(asg, c)
    ensures Agrees(model, trail) ==> !ClauseTrue(model, c)
  {
    forall p | 0 <= p < |c| ensures -c[p] in trail {
      AssignedIsOnTrail(asg, trail, c[p]);
    }
  }

  /** When a clause is false, no model of the clauses agrees with the decisions. */
  lemma ConflictExcludesModels(model: seq<bool>, asg: seq<VarState>, clauses: seq<Clause>, ante: seq<int>,
                               trail: seq<int>, ci: nat)
    requires TrailOk(asg, trail) && |ante| == |asg| == |model| && ReasonsOk(asg, clauses, ante, trail)
    requires ValidDb(|asg|, clauses) && ci < |clauses| && AllFalse(asg, clauses[ci])
    ensures !(ModelOf(model, clauses) && AgreesWithDecisions(model, ante, trail))
  {
    FalseInModel(model, asg, trail, clauses[ci]);
    if ModelOf(model, clauses) && AgreesWithDecisions(model, ante, trail) {
      ModelFollowsTrail(model, asg, clauses, ante, trail, |trail|);
    }
  }

  /** At level zero there are no decisions, so a conflict leaves the clauses without any model. */
  lemma NoModelAtLevelZero(asg: seq<VarState>, level: seq<int>, ante: seq<int>, trail: seq<int>, lim: seq<nat>,
                           clauses: seq<Clause>)
    requires TrailOk(asg, trail) && LevelsOk(asg, level, ante, trail, lim) && lim == []
    requires ReasonsOk(asg, clauses, ante, trail) && ValidDb(|asg|, clauses)
    requires exists ci :: 0 <= ci < |clauses| && AllFalse(asg, clauses[ci])
    ensures forall model :: |model| == |asg| ==> !ModelOf(model, clauses)
  {
    LevelZero(asg, level, ante, trail, lim);
    var ci :| 0 <= ci < |clauses| && AllFalse(asg, clauses[ci]);
    forall model: seq<bool> | |model| == |asg| ensures !ModelOf(model, clauses) {
      ConflictExcludesModels(model, asg, clauses, ante, trail, ci);
    }
  }

  // ------------------------------------------------------- the clause database of a run

  /** The database is the instance, clause by clause up to the order of literals, and then non-empty learned clauses. */
  ghost predicate Holds(instance: seq<Clause>, clauses: seq<Clause>) {
    |instance| <= |clauses| && Permuted(instance, clauses[..|instance|]) &&
    forall ci :: |instance| <= ci < |clauses| ==> clauses[ci] != []
  }

  lemma PermutedHolds(instance: seq<Clause>, clauses: seq<Clause>, clauses': seq<Clause>)
    requires Holds(instance, clauses) && Permuted(clauses, clauses')
    ensures Holds(instance, clauses')
  {
    forall ci | 0 <= ci < |clauses|
      ensures |clauses'[ci]| == |clauses[ci]|
    {
      assert |multiset(clauses[ci])| == |multiset(clauses'[ci])|;
    }
  }

  lemma AppendHolds(instance: seq<Clause>, clauses: seq<Clause>, learned: Clause)
    requires Holds(instance, clauses) && learned != []
    ensures Holds(instance, clauses + [learned])
  {
    assert (clauses + [learned])[..|instance|] == clauses[..|instance|];
  }

  // ------------------------------------------------------- short clauses in a run

  /** Clauses of fewer than two literals, from number base on, have one literal, true at level zero. */
  ghost predicate ShortTrue(asg: seq<VarState>, level: seq<int>, clauses: seq<Clause>, base: nat)
    requires ValidDb(|asg|, clauses) && |level| == |asg|
  {
    forall ci :: base <= ci < |clauses| && |clauses[ci]| < 2 ==>
                   |clauses[ci]| == 1 && LitValue(asg, clauses[ci][0]) && level[Var(clauses[ci][0])] == 0
  }

  lemma PropagationKeepsShortTrue(asg: seq<VarState>, before: Trace, asg': seq<VarState>, after: Trace,
                                  cur: int, base: nat)
    requires TrailOk(asg, before.trail) && TrailOk(asg', after.trail) && PropagatedFrom(before, after, cur)
    requires |before.level| == |asg| == |asg'| && ValidDb(|asg|, before.clauses) && ValidDb(|asg'|, after.clauses)
    requires ShortTrue(asg, before.level, before.clauses, base)
    ensures ShortTrue(asg', after.level, after.clauses, base)
  {
    forall ci | base <= ci < |after.clauses| && |after.clauses[ci]| < 2
      ensures |after.clauses[ci]| == 1 && LitValue(asg', after.clauses[ci][0])
      ensures after.level[Var(after.clauses[ci][0])] == 0
    {
      var c, d := before.clauses[ci], after.clauses[ci];
      assert |multiset(c)| == |multiset(d)| && c[0] in multiset(d);
      AssignedIsOnTrail(asg, before.trail, c[0]);
      var i :| 0 <= i < |before.trail| && before.trail[i] == c[0];
      assert after.trail[i] == c[0];
    }
  }

  /** Undoing everything above level zero leaves what is true at level zero. */
  lemma UndoKeepsShortTrue(asg: seq<VarState>, level: seq<int>, ante: seq<int>, phase: seq<bool>, trail: seq<int>,
                           lim: seq<nat>, clauses: seq<Clause>, base: nat,
                           asg': seq<VarState>, level': seq<int>, ante': seq<int>, phase': seq<bool>)
    requires TrailOk(asg, trail) && LevelsOk(asg, level, ante, trail, lim) && ValidDb(|asg|, clauses)
    requires Undone(trail, CutAt(trail, lim, 0), asg, level, ante, phase, asg', level', ante', phase')
    requires ShortTrue(asg, level, clauses, base)
    ensures ShortTrue(asg', level', clauses, base)
  {
    LevelsAroundCut(asg, level, ante, trail, lim, 0);
  }

  /** A decision, or a one-literal clause asserted at level zero, leaves short clauses true. */
  lemma AssignKeepsShortTrue(asg: seq<VarState>, level: seq<int>, clauses: seq<Clause>, lit: int, l: int, base: nat)
    requires ValidDb(|asg|, clauses) && |level| == |asg| && ValidLit(|asg|, lit) && IsUnassigned(asg, lit)
    requires ShortTrue(asg, level, clauses, base)
    ensures ShortTrue(Assigned(asg, lit), level[Var(lit) := l], clauses, base)
  {
  }

  /** A learned clause of one literal is asserted at level zero; longer ones are not short. */
  lemma LearningKeepsShortTrue(asg: seq<VarState>, level: seq<int>, clauses: seq<Clause>, c: Clause, base: nat,
                               asg': seq<VarState>, level': seq<int>)
    requires ValidDb(|asg|, clauses) && |level| == |asg| && ValidClause(|asg|, c) && c != []
    requires forall p :: 0 <= p < |c| ==> IsUnassigned(asg, c[p])
    requires ShortTrue(asg, level, clauses, base)
    requires if |c| == 1 then asg' == Assigned(asg, c[0]) && level' == level[Var(c[0]) := 0]
             else asg' == asg && level' == level
    requires ValidDb(|asg'|, clauses + [c])
    ensures ShortTrue(asg', level', clauses + [c], base)
  {
    if |c| == 1 {
      AssignKeepsShortTrue(asg, level, clauses, c[0], 0, base);
    }
  }

  /** The clauses of fewer than two literals that the instance itself brought are true. */
  ghost predicate InstanceShortTrue(asg: seq<VarState>, instance: seq<Clause>, clauses: seq<Clause>)
    requires |instance| <= |clauses| && ValidDb(|asg|, clauses)
  {
    forall ci :: 0 <= ci < |instance| && |instance[ci]| < 2 ==> HasTrue(asg, clauses[ci])
  }

  /**
   After a finished propagation of the main loop the naive scan has nothing to do exactly when the short
   clauses of the instance are true; without such clauses, always.
   */
  lemma QuietInLoop(asg: seq<VarState>, level: seq<int>, trail: seq<int>, instance: seq<Clause>, clauses: seq<Clause>)
    requires TrailOk(asg, trail) && |level| == |asg| && ValidDb(|asg|, clauses)
    requires Settled(asg, level, clauses, trail) && Holds(instance, clauses)
    requires ShortTrue(asg, level, clauses, |instance|)
    ensures AllQuiet(asg, clauses) <==> InstanceShortTrue(asg, instance, clauses)
    ensures (forall c :: c in instance ==> |c| >= 2) ==> AllQuiet(asg, clauses)
  {
    FinishedMeansQuiet(asg, level, trail, clauses);
    hide Settled, AllQuiet;
    forall ci | 0 <= ci < |instance| ensures |clauses[ci]| == |instance[ci]| {
      SameLength(instance, clauses, ci);
    }
    forall ci | |instance| <= ci < |clauses| && |clauses[ci]| < 2 ensures HasTrue(asg, clauses[ci]) {
      assert LitValue(asg, clauses[ci][0]);
    }
  }

  lemma SameLength(instance: seq<Clause>, clauses: seq<Clause>, ci: nat)
    requires Holds(instance, clauses) && ci < |instance|
    ensures multiset(clauses[ci]) == multiset(instance[ci]) && |clauses[ci]| == |instance[ci]|
  {
    assert clauses[..|instance|][ci] == clauses[ci];
    assert |multiset(clauses[ci])| == |multiset(instance[ci])|;
  }

  /** With every variable assigned and propagation finished, the assignment satisfies the instance. */
  lemma FullAssignmentSatisfies(asg: seq<VarState>, level: seq<int>, trail: seq<int>, inst: SatInstance,
                                clauses: seq<Clause>, solution: seq<bool>)
    requires TrailOk(asg, trail) && |level| == |asg| == inst.numVariables && ValidDb(|asg|, clauses)
    requires Settled(asg, level, clauses, trail) && Holds(inst.clauses, clauses)
    requires forall v :: 0 <= v < |asg| ==> asg[v] != Unassigned
    requires |solution| == |asg| && forall v :: 0 <= v < |asg| ==> solution[v] == (asg[v] == True)
    ensures [] !in inst.clauses ==> WellFormed(inst) && Satisfies(inst, solution)
  {
    forall c | c in inst.clauses && c != []
      ensures ClauseTrue(solution, c)
      ensures forall lit :: lit in c ==> InRange(inst.numVariables, lit)
    {
      var ci :| 0 <= ci < |inst.clauses| && inst.clauses[ci] == c;
      var d := clauses[ci];
      assert d == clauses[..|inst.clauses|][ci];
      assert multiset(c) == multiset(d) && |multiset(c)| == |multiset(d)|;
      SettledHasTrue(asg, level, trail, clauses, ci);
      var p :| 0 <= p < |d| && LitValue(asg, d[p]);
      assert d[p] in multiset(c);
      var q :| 0 <= q < |c| && c[q] == d[p];
      assert LitTrue(solution, c[q]);
      forall lit | lit in c ensures InRange(inst.numVariables, lit) {
        assert lit in multiset(d);
      }
    }
  }

  /** A settled clause whose variables are all assigned has a true literal, unless it is empty. */
  lemma SettledHasTrue(asg: seq<VarState>, level: seq<int>, trail: seq<int>, clauses: seq<Clause>, ci: nat)
    requires TrailOk(asg, trail) && |level| == |asg| && ValidDb(|asg|, clauses)
    requires Settled(asg, level, clauses, trail) && ci < |clauses| && clauses[ci] != []
    requires forall v :: 0 <= v < |asg| ==> asg[v] != Unassigned
    ensures HasTrue(asg, clauses[ci])
  {
    var c := clauses[ci];
    AssignedIsOnTrail(asg, trail, c[0]);
    if !LitValue(asg, c[0]) {
      assert Guarded(asg, level, c, 0);
    }
  }
}
