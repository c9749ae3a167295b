/**
 The naive unit propagation of tests/test_ponw_loop.cpp, which scans every clause until nothing
 changes, and the proof that two-watched-literal propagation computes the same thing.
 */
module NaivePropagation {
  import opened SolverState
  import opened PropagationLemmas
  import opened SolverTheorems
  import opened CdclSolving

  /** Every trail entry from base on is forced by some clause and the entries before it. */
  ghost predicate Derived(clauses: seq<Clause>, base: nat, trail: seq<int>) {
    base <= |trail| &&
    forall i :: base <= i < |trail| ==> ForcedBySome(clauses, trail[..i], trail[i])
  }

  ghost predicate ForcedBySome(clauses: seq<Clause>, prefix: seq<int>, lit: int) {
    exists ci :: 0 <= ci < |clauses| && Forces(clauses[ci], prefix, lit)
  }

  /** From base on, each entry has the current level and, as its antecedent, a clause that forced it. */
  ghost predicate Recorded(clauses: seq<Clause>, base: nat, trail: seq<int>, level: seq<int>, ante: seq<int>,
                           cur: int) {
    base <= |trail| && |level| == |ante| &&
    forall i :: base <= i < |trail| ==>
                  ValidLit(|ante|, trail[i]) && level[Var(trail[i])] == cur && 0 <= ante[Var(trail[i])] < |clauses| &&
                  Forces(clauses[ante[Var(trail[i])]], trail[..i], trail[i])
  }

  /** Marks change only for variables that get assigned. */
  ghost predicate OnlyAssignedChange(before: seq<VarState>, after: seq<VarState>, marks: seq<int>, marks': seq<int>) {
    |before| == |after| == |marks| == |marks'| &&
    forall v :: 0 <= v < |marks| && (before[v] != Unassigned || after[v] == Unassigned) ==> marks'[v] == marks[v]
  }

  /** The state of the naive solver. */
  datatype Scan = Scan(assignment: seq<VarState>, level: seq<int>, ante: seq<int>, trail: seq<int>)

  /** After is before with more literals assigned at the current level, each recorded with what forced it. */
  ghost predicate Extends(clauses: seq<Clause>, cur: int, before: Scan, after: Scan) {
    |after.assignment| == |before.assignment| && before.trail <= after.trail &&
    Recorded(clauses, |before.trail|, after.trail, after.level, after.ante, cur) &&
    OnlyAssignedChange(before.assignment, after.assignment, before.level, after.level) &&
    OnlyAssignedChange(before.assignment, after.assignment, before.ante, after.ante)
  }

  class NaiveSolver {
    var assignment: seq<VarState>
    var level: seq<int>
    var antecedent: seq<int>
    var trail: seq<int>
    const currentLevel: int
    const clauses: seq<Clause>

    ghost predicate Valid()
      reads this
    {
      ValidDb(|assignment|, clauses) && TrailOk(assignment, trail) && |level| == |antecedent| == |assignment|
    }

    ghost function Now(): Scan
      reads this
    {
      Scan(assignment, level, antecedent, trail)
    }

    constructor (asg: seq<VarState>, levels: seq<int>, ante: seq<int>, cur: int, t: seq<int>, cs: seq<Clause>)
      requires ValidDb(|asg|, cs) && TrailOk(asg, t) && |levels| == |ante| == |asg|
      ensures Valid() && assignment == asg && trail == t && clauses == cs
      ensures level == levels && antecedent == ante && currentLevel == cur
    {
      assignment, trail, clauses := asg, t, cs;
      level, antecedent, currentLevel := levels, ante, cur;
    }

    method Assign(lit: int, ante: int)
      requires ValidLit(|assignment|, lit) && |level| == |antecedent| == |assignment|
      modifies this
      ensures assignment == Assigned(old(assignment), lit) && trail == old(trail) + [lit]
      ensures level == old(level)[Var(lit) := currentLevel] && antecedent == old(antecedent)[Var(lit) := ante]
    {
      var v := Var(lit);
      assignment := assignment[v := if lit > 0 then True else False];
      level := level[v := currentLevel];
      antecedent := antecedent[v := ante];
      trail := trail + [lit];
    }

    /** The scan of one clause: is it satisfied, and if not, how many positions are still open. */
    method Examine(c: Clause) returns (satisfied: bool, undefCount: nat, undefLit: int)
      requires ValidClause(|assignment|, c)
      ensures satisfied ==> Quiet(assignment, c)
      ensures !satisfied && undefCount == 0 ==> AllFalse(assignment, c)
      ensures !satisfied && undefCount == 1 ==> exists p :: 0 <= p < |c| && c[p] == undefLit && UnitAt(assignment, c, p)
      ensures !satisfied && undefCount >= 2 ==> Quiet(assignment, c)
    {
      satisfied, undefCount, undefLit := false, 0, 0;
      ghost var first, second := 0, 0;
      for p := 0 to |c|
        invariant !satisfied
        invariant undefCount == 0 ==> forall q :: 0 <= q < p ==> IsFalse(assignment, c[q])
        invariant undefCount >= 1 ==> 0 <= first < p && IsUnassigned(assignment, c[first])
        invariant undefCount == 1 ==> c[first] == undefLit && forall q :: 0 <= q < p && q != first ==>
                  IsFalse(assignment, c[q])
        invariant undefCount >= 2 ==> first < second < p && IsUnassigned(assignment, c[second])
      {
        if LitValue(assignment, c[p]) {
          TrueIsQuiet(assignment, c, p);
          satisfied := true;
          return;
        }
        if IsUnassigned(assignment, c[p]) {
          if undefCount == 0 { first := p; } else { second := p; }
          undefCount := undefCount + 1;
          undefLit := c[p];
        }
      }
    }

    method Propagate() returns (conflict: int)
      requires Valid()
      modifies this
      ensures Valid() && |assignment| == |old(assignment)| && old(trail) <= trail
      ensures Recorded(clauses, |old(trail)|, trail, level, antecedent, currentLevel)
      ensures OnlyAssignedChange(old(assignment), assignment, old(level), level)
      ensures OnlyAssignedChange(old(assignment), assignment, old(antecedent), antecedent)
      ensures -1 <= conflict < |clauses|
      ensures conflict == -1 ==> AllQuiet(assignment, clauses)
      ensures conflict >= 0 ==> AllFalse(assignment, clauses[conflict])
      ensures old(AllQuiet(assignment, clauses)) ==>
              conflict == -1 && trail == old(trail) && assignment == old(assignment)
    {
      hide Extends, Recorded, OnlyAssignedChange, TrailOk, AllQuiet, Quiet, AllFalse, UnitAt, Forces, ValidClause;
      var changed := true;
      ExtendsItself(clauses, currentLevel, Now());
      while changed
        invariant Valid() && Extends(clauses, currentLevel, old(Now()), Now())
        invariant |assignment| == |old(assignment)| && (!changed ==> AllQuiet(assignment, clauses))
        invariant old(AllQuiet(assignment, clauses)) ==> Now() == old(Now())
        decreases |assignment| - |trail|, changed
      {
        changed := false;
        ghost var len := |trail|;
        for ci := 0 to |clauses|
          invariant Valid() && Extends(clauses, currentLevel, old(Now()), Now())
          invariant |assignment| == |old(assignment)| && len <= |trail| && (changed ==> len < |trail|)
          invariant !changed ==> forall k :: 0 <= k < ci ==> Quiet(assignment, clauses[k])
          invariant old(AllQuiet(assignment, clauses)) ==> !changed && Now() == old(Now())
        {
          QuietAt(assignment, clauses, ci);
          var satisfied, undefCount, undefLit := Examine(clauses[ci]);
          if satisfied { continue; }
          if undefCount == 0 {
            FalseIsNotQuiet(assignment, clauses[ci]);
            ExtendsMeans(clauses, currentLevel, old(Now()), Now());
            return ci;
          }
          if undefCount == 1 {
            UnitIsForced(assignment, trail, clauses, ci, undefLit);
            ExtendsByUnit(clauses, currentLevel, old(Now()), Now(), undefLit, ci);
            ExtendTrail(assignment, trail, undefLit);
            Assign(undefLit, ci);
            changed := true;
          }
        }
        TrailFits(assignment, trail);
        if !changed { EachIsQuiet(assignment, clauses); }
      }
      ExtendsMeans(clauses, currentLevel, old(Now()), Now());
      return -1;
    }
  }

  lemma ExtendsItself(clauses: seq<Clause>, cur: int, s: Scan)
    requires |s.assignment| == |s.level| == |s.ante|
    ensures Extends(clauses, cur, s, s)
  {
  }

  lemma ExtendsMeans(clauses: seq<Clause>, cur: int, before: Scan, after: Scan)
    requires Extends(clauses, cur, before, after)
    ensures before.trail <= after.trail
    ensures Recorded(clauses, |before.trail|, after.trail, after.level, after.ante, cur)
    ensures OnlyAssignedChange(before.assignment, after.assignment, before.level, after.level)
    ensures OnlyAssignedChange(before.assignment, after.assignment, before.ante, after.ante)
  {
  }

  /** One unit clause more. */
  lemma ExtendsByUnit(clauses: seq<Clause>, cur: int, before: Scan, now: Scan, lit: int, ci: nat)
    requires TrailOk(now.assignment, now.trail) && |now.ante| == |now.level| == |now.assignment|
    requires Extends(clauses, cur, before, now) && ValidLit(|now.assignment|, lit) && IsUnassigned(now.assignment, lit)
    requires ci < |clauses| && Forces(clauses[ci], now.trail, lit)
    requires TrailOk(before.assignment, before.trail)
    ensures Extends(clauses, cur, before,
                    Scan(Assigned(now.assignment, lit), now.level[Var(lit) := cur], now.ante[Var(lit) := ci],
                         now.trail + [lit]))
  {
    StillUnassigned(before, now, lit);
    hide Recorded, OnlyAssignedChange, TrailOk, Forces;
    ExtendRecorded(now.assignment, now.trail, clauses, |before.trail|, now.level, now.ante, cur, lit, ci);
    OneMoreAssigned(before.assignment, now.assignment, before.level, now.level, lit, cur);
    OneMoreAssigned(before.assignment, now.assignment, before.ante, now.ante, lit, ci);
  }

  /** A variable that is free now was free before. */
  lemma StillUnassigned(before: Scan, now: Scan, lit: int)
    requires TrailOk(before.assignment, before.trail) && TrailOk(now.assignment, now.trail)
    requires |before.assignment| == |now.assignment| && before.trail <= now.trail
    requires ValidLit(|now.assignment|, lit) && IsUnassigned(now.assignment, lit)
    ensures before.assignment[Var(lit)] == Unassigned
  {
    forall k | 0 <= k < |before.trail| ensures Var(before.trail[k]) != Var(lit) {
      assert now.trail[k] == before.trail[k];
    }
  }

  lemma QuietAt(asg: seq<VarState>, clauses: seq<Clause>, ci: nat)
    requires ValidDb(|asg|, clauses) && ci < |clauses|
    ensures ValidClause(|asg|, clauses[ci]) && (AllQuiet(asg, clauses) ==> Quiet(asg, clauses[ci]))
  {
  }

  lemma FalseIsNotQuiet(asg: seq<VarState>, c: Clause)
    requires ValidClause(|asg|, c)
    ensures AllFalse(asg, c) ==> !Quiet(asg, c)
  {
  }

  lemma EachIsQuiet(asg: seq<VarState>, clauses: seq<Clause>)
    requires ValidDb(|asg|, clauses) && forall k :: 0 <= k < |clauses| ==> Quiet(asg, clauses[k])
    ensures AllQuiet(asg, clauses)
  {
  }

  lemma UnitIsForced(asg: seq<VarState>, trail: seq<int>, clauses: seq<Clause>, ci: nat, lit: int)
    requires TrailOk(asg, trail) && ValidDb(|asg|, clauses) && ci < |clauses|
    requires exists p :: 0 <= p < |clauses[ci]| && clauses[ci][p] == lit && UnitAt(asg, clauses[ci], p)
    ensures ValidLit(|asg|, lit) && IsUnassigned(asg, lit)
    ensures Forces(clauses[ci], trail, lit)
    ensures !Quiet(asg, clauses[ci])
  {
    var p :| 0 <= p < |clauses[ci]| && clauses[ci][p] == lit && UnitAt(asg, clauses[ci], p);
    UnitForces(asg, trail, clauses[ci], p);
  }

  /** The clause without position p. */
  function Rest(c: Clause, p: nat): (r: Clause)
    requires p < |c|
    ensures multiset(c) == multiset(r) + multiset{c[p]}
    ensures |r| == |c| - 1 && forall q :: 0 <= q < |r| ==> r[q] == c[if q < p then q else q + 1]
  {
    assert c == c[..p] + [c[p]] + c[p + 1..];
    c[..p] + c[p + 1..]
  }

  lemma UnitForces(asg: seq<VarState>, trail: seq<int>, c: Clause, p: nat)
    requires TrailOk(asg, trail) && ValidClause(|asg|, c) && p < |c| && UnitAt(asg, c, p)
    ensures Forces(c, trail, c[p])
  {
    var rest := Rest(c, p);
    forall m | m in multiset(c)
      ensures m == c[p] || -m in trail
    {
      var q :| 0 <= q < |c| && c[q] == m;
      if q != p { AssignedIsOnTrail(asg, trail, c[q]); }
    }
    NotInRest(asg, c, p, rest);
  }

  lemma NotInRest(asg: seq<VarState>, c: Clause, p: nat, rest: seq<int>)
    requires ValidClause(|asg|, c) && p < |c| && UnitAt(asg, c, p) && rest == Rest(c, p)
    ensures multiset(rest)[c[p]] == 0
  {
    forall r | 0 <= r < |rest| ensures rest[r] != c[p] {}
    assert c[p] !in rest;
  }

  lemma ExtendRecorded(asg: seq<VarState>, trail: seq<int>, clauses: seq<Clause>, base: nat, level: seq<int>,
                       ante: seq<int>, cur: int,
                       lit: int, ci: nat)
    requires TrailOk(asg, trail) && |ante| == |asg| && Recorded(clauses, base, trail, level, ante, cur)
    requires ValidLit(|asg|, lit) && IsUnassigned(asg, lit) && ci < |clauses| && Forces(clauses[ci], trail, lit)
    ensures Recorded(clauses, base, trail + [lit], level[Var(lit) := cur], ante[Var(lit) := ci], cur)
  {
    hide Forces;
    var trail' := trail + [lit];
    forall i | base <= i < |trail'| ensures trail'[..i] == trail[..i] {}
    assert trail[..|trail|] == trail;
    forall i | 0 <= i < |trail| ensures Var(trail[i]) != Var(lit) {}
  }

  lemma OneMoreAssigned(before: seq<VarState>, asg: seq<VarState>, marks: seq<int>, marks': seq<int>, lit: int, m: int)
    requires OnlyAssignedChange(before, asg, marks, marks') && ValidLit(|asg|, lit) && IsUnassigned(asg, lit)
    requires before[Var(lit)] == Unassigned
    ensures OnlyAssignedChange(before, Assigned(asg, lit), marks, marks'[Var(lit) := m])
  {
  }

  lemma RecordedIsDerived(clauses: seq<Clause>, base: nat, trail: seq<int>, level: seq<int>, ante: seq<int>, cur: int)
    requires Recorded(clauses, base, trail, level, ante, cur)
    ensures Derived(clauses, base, trail)
  {
    hide Forces;
    forall i | base <= i < |trail| ensures ForcedBySome(clauses, trail[..i], trail[i]) {
      assert Forces(clauses[ante[Var(trail[i])]], trail[..i], trail[i]);
    }
  }

  // ------------------------------------------------------- both ways agree

  /** The literals of a are all among those of b. */
  ghost predicate Within(a: seq<int>, b: seq<int>) {
    forall m :: m in a ==> m in b
  }

  lemma ForcedWhenQuiet(asg: seq<VarState>, trail: seq<int>, c: Clause, prefix: seq<int>, lit: int)
    requires TrailOk(asg, trail) && ValidClause(|asg|, c) && Quiet(asg, c)
    requires Forces(c, prefix, lit) && Within(prefix, trail)
    ensures lit in trail
  {
    assert lit in multiset(c);
    var p :| 0 <= p < |c| && c[p] == lit;
    var rest := Rest(c, p);
    forall q | 0 <= q < |c| && q != p ensures IsFalse(asg, c[q]) {
      assert c[q] == rest[if q < p then q else q - 1];
      assert c[q] in multiset(rest) && c[q] in multiset(c);
      AssignedIsOnTrail(asg, trail, c[q]);
    }
    assert !UnitAt(asg, c, p);
    AssignedIsOnTrail(asg, trail, c[p]);
  }

  /** Whatever is derived from a common base holds wherever all clauses are quiet. */
  lemma {:induction false} DerivedIsShared(clauses: seq<Clause>, base: nat, trail: seq<int>, k: nat,
                                           asg': seq<VarState>, trail': seq<int>, clauses': seq<Clause>)
    requires Derived(clauses, base, trail) && base <= k <= |trail| && Permuted(clauses, clauses')
    requires TrailOk(asg', trail') && ValidDb(|asg'|, clauses') && AllQuiet(asg', clauses')
    requires Within(trail[..base], trail')
    ensures Within(trail[..k], trail')
  {
    if k > base {
      DerivedIsShared(clauses, base, trail, k - 1, asg', trail', clauses');
      hide TrailOk;
      assert ForcedBySome(clauses, trail[..k - 1], trail[k - 1]);
      ForcedBySomeHolds(clauses, trail[..k - 1], trail[k - 1], asg', trail', clauses');
      assert trail[..k] == trail[..k - 1] + [trail[k - 1]];
    }
  }

  lemma ForcedBySomeHolds(clauses: seq<Clause>, prefix: seq<int>, lit: int, asg': seq<VarState>, trail': seq<int>,
                          clauses': seq<Clause>)
    requires ForcedBySome(clauses, prefix, lit) && Permuted(clauses, clauses') && Within(prefix, trail')
    requires TrailOk(asg', trail') && ValidDb(|asg'|, clauses') && AllQuiet(asg', clauses')
    ensures lit in trail'
  {
    hide TrailOk, Quiet;
    var ci :| 0 <= ci < |clauses| && Forces(clauses[ci], prefix, lit);
    assert Forces(clauses'[ci], prefix, lit);
    ForcedWhenQuiet(asg', trail', clauses'[ci], prefix, lit);
  }

  /** A clause that is false is still false, however permuted, where more is assigned. */
  lemma FalseGrows(asg: seq<VarState>, trail: seq<int>, c: Clause, asg': seq<VarState>, trail': seq<int>, c': Clause)
    requires TrailOk(asg, trail) && TrailOk(asg', trail') && |asg| == |asg'|
    requires ValidClause(|asg|, c) && ValidClause(|asg|, c') && multiset(c) == multiset(c')
    requires Within(trail, trail') && AllFalse(asg, c)
    ensures AllFalse(asg', c') && !Quiet(asg', c')
  {
    forall p | 0 <= p < |c'| ensures IsFalse(asg', c'[p]) {
      assert c'[p] in multiset(c);
      var q :| 0 <= q < |c| && c[q] == c'[p];
      AssignedIsOnTrail(asg, trail, c[q]);
      AssignedIsOnTrail(asg', trail', c'[p]);
    }
  }

  lemma SameAssignment(asg: seq<VarState>, trail: seq<int>, asg': seq<VarState>, trail': seq<int>)
    requires TrailOk(asg, trail) && TrailOk(asg', trail') && |asg| == |asg'|
    requires Within(trail, trail') && Within(trail', trail)
    ensures asg == asg'
  {
    forall v | 0 <= v < |asg| ensures asg[v] == asg'[v] {
      AssignedIsOnTrail(asg, trail, v + 1);
      AssignedIsOnTrail(asg', trail', v + 1);
      AssignedIsOnTrail(asg, trail, -(v + 1));
      AssignedIsOnTrail(asg', trail', -(v + 1));
    }
  }

  lemma PropagatedIsDerived(asg: seq<VarState>, before: Trace, after: Trace, cur: int)
    requires TrailOk(asg, after.trail) && |after.ante| == |asg|
    requires PropagatedFrom(before, after, cur) && ReasonsOk(asg, after.clauses, after.ante, after.trail)
    ensures Derived(after.clauses, |before.trail|, after.trail)
  {
    forall i | |before.trail| <= i < |after.trail|
      ensures ForcedBySome(after.clauses, after.trail[..i], after.trail[i])
    {
      assert Forces(after.clauses[after.ante[Var(after.trail[i])]], after.trail[..i], after.trail[i]);
    }
  }

  /** Entries from base on have the level cur. */
  ghost predicate NewAtLevel(base: nat, trail: seq<int>, level: seq<int>, cur: int) {
    base <= |trail| && forall i :: base <= i < |trail| ==> ValidLit(|level|, trail[i]) && level[Var(trail[i])] == cur
  }

  /** After a propagation the level of a variable depends only on whether it was and is assigned. */
  lemma LevelAfter(asg: seq<VarState>, trail: seq<int>, level: seq<int>, asg': seq<VarState>, trail': seq<int>,
                   level': seq<int>, cur: int, v: nat)
    requires TrailOk(asg, trail) && TrailOk(asg', trail') && trail <= trail' && v < |asg|
    requires OnlyAssignedChange(asg, asg', level, level') && NewAtLevel(|trail|, trail', level', cur)
    ensures level'[v] == if asg[v] != Unassigned || asg'[v] == Unassigned then level[v] else cur
  {
    if asg[v] == Unassigned && asg'[v] != Unassigned {
      var i :| 0 <= i < |trail'| && trail'[i] == TrueLit(asg', v);
      forall k | 0 <= k < |trail| ensures Var(trail'[k]) != v {
        assert trail'[k] == trail[k];
      }
    }
  }

  lemma SameLevels(asg: seq<VarState>, trail: seq<int>, level: seq<int>, asg': seq<VarState>, cur: int,
                   trail1: seq<int>, level1: seq<int>, trail2: seq<int>, level2: seq<int>)
    requires TrailOk(asg, trail) && TrailOk(asg', trail1) && TrailOk(asg', trail2) && trail <= trail1 && trail <= trail2
    requires OnlyAssignedChange(asg, asg', level, level1) && NewAtLevel(|trail|, trail1, level1, cur)
    requires OnlyAssignedChange(asg, asg', level, level2) && NewAtLevel(|trail|, trail2, level2, cur)
    ensures level1 == level2
  {
    assert |level1| == |level2| == |asg|;
    forall v | 0 <= v < |asg| ensures level1[v] == level2[v] {
      hide TrailOk, OnlyAssignedChange, NewAtLevel;
      LevelAfter(asg, trail, level, asg', trail1, level1, cur, v);
      LevelAfter(asg, trail, level, asg', trail2, level2, cur, v);
    }
  }

  lemma FastLevels(asg: seq<VarState>, before: Trace, lim: seq<nat>, asg': seq<VarState>, after: Trace, cur: int)
    requires TrailOk(asg, before.trail) && LevelsOk(asg, before.level, before.ante, before.trail, lim)
    requires TrailOk(asg', after.trail) && LevelsOk(asg', after.level, after.ante, after.trail, lim)
    requires PropagatedFrom(before, after, cur)
    ensures OnlyAssignedChange(asg, asg', before.level, after.level) &&
            NewAtLevel(|before.trail|, after.trail, after.level, cur)
  {
    hide Leveled;
    forall v | 0 <= v < |asg| && (asg[v] != Unassigned || asg'[v] == Unassigned)
      ensures after.level[v] == before.level[v]
    {
      if asg[v] != Unassigned {
        var i :| 0 <= i < |before.trail| && before.trail[i] == TrueLit(asg, v);
        assert after.trail[i] == before.trail[i];
      }
    }
  }

  /** Short clauses that are true before a propagation are true after it. */
  lemma TrueStaysTrue(asg: seq<VarState>, trail: seq<int>, clauses: seq<Clause>, asg': seq<VarState>, trail': seq<int>,
                      clauses': seq<Clause>)
    requires TrailOk(asg, trail) && TrailOk(asg', trail') && |asg| == |asg'| && trail <= trail'
    requires ValidDb(|asg|, clauses) && ValidDb(|asg|, clauses') && Permuted(clauses, clauses')
    requires forall ci :: 0 <= ci < |clauses| && |clauses[ci]| < 2 ==> HasTrue(asg, clauses[ci])
    ensures forall ci :: 0 <= ci < |clauses'| && |clauses'[ci]| < 2 ==> HasTrue(asg', clauses'[ci])
  {
    forall ci | 0 <= ci < |clauses'| && |clauses'[ci]| < 2 ensures HasTrue(asg', clauses'[ci]) {
      var c, c' := clauses[ci], clauses'[ci];
      assert |multiset(c)| == |multiset(c')|;
      var p :| 0 <= p < |c| && LitValue(asg, c[p]);
      assert c[p] in multiset(c');
      var q :| 0 <= q < |c'| && c'[q] == c[p];
      AssignedIsOnTrail(asg, trail, c[p]);
      AssignedIsOnTrail(asg', trail', c'[q]);
    }
  }

  /**
   The agreement of two propagations from the same state, on values. Either side is the derived trail
   of the other's permuted clauses; a side that finished has all clauses quiet, one that did not has a
   false clause.
   */
  lemma PropagationsAgree(base: nat, asg1: seq<VarState>, trail1: seq<int>, clauses1: seq<Clause>, conflict1: bool,
                          asg2: seq<VarState>, trail2: seq<int>, clauses2: seq<Clause>, conflict2: bool)
    requires TrailOk(asg1, trail1) && TrailOk(asg2, trail2) && |asg1| == |asg2|
    requires ValidDb(|asg1|, clauses1) && ValidDb(|asg2|, clauses2) && Permuted(clauses1, clauses2)
    requires Derived(clauses1, base, trail1) && Derived(clauses2, base, trail2) && trail1[..base] == trail2[..base]
    requires if conflict1 then exists ci :: 0 <= ci < |clauses1| && AllFalse(asg1, clauses1[ci])
             else AllQuiet(asg1, clauses1)
    requires if conflict2 then exists ci :: 0 <= ci < |clauses2| && AllFalse(asg2, clauses2[ci])
             else AllQuiet(asg2, clauses2)
    ensures conflict1 <==> conflict2
    ensures !conflict1 ==> asg1 == asg2
  {
    assert trail1[..|trail1|] == trail1 && trail2[..|trail2|] == trail2;
    if !conflict2 { OneSide(base, asg1, trail1, clauses1, asg2, trail2, clauses2); }
    if !conflict1 { OneSide(base, asg2, trail2, clauses2, asg1, trail1, clauses1); }
    if !conflict1 && !conflict2 { SameAssignment(asg1, trail1, asg2, trail2); }
  }

  /** A finished propagation holds all that the other one derives, so the other one has no false clause. */
  lemma OneSide(base: nat, asg: seq<VarState>, trail: seq<int>, clauses: seq<Clause>,
                asg': seq<VarState>, trail': seq<int>, clauses': seq<Clause>)
    requires TrailOk(asg, trail) && TrailOk(asg', trail') && |asg| == |asg'|
    requires ValidDb(|asg|, clauses) && ValidDb(|asg'|, clauses') && Permuted(clauses, clauses')
    requires Derived(clauses, base, trail) && base <= |trail'| && trail[..base] == trail'[..base]
    requires AllQuiet(asg', clauses')
    ensures Within(trail, trail')
    ensures forall ci :: 0 <= ci < |clauses| ==> !AllFalse(asg, clauses[ci])
  {
    DerivedIsShared(clauses, base, trail, |trail|, asg', trail', clauses');
    assert trail[..|trail|] == trail;
    forall ci | 0 <= ci < |clauses| ensures !AllFalse(asg, clauses[ci]) {
      NotFalseBefore(asg, trail, clauses[ci], asg', trail', clauses'[ci]);
    }
  }

  lemma NotFalseBefore(asg: seq<VarState>, trail: seq<int>, c: Clause, asg': seq<VarState>, trail': seq<int>,
                       c': Clause)
    requires TrailOk(asg, trail) && TrailOk(asg', trail') && |asg| == |asg'|
    requires ValidClause(|asg|, c) && ValidClause(|asg|, c') && multiset(c) == multiset(c')
    requires Within(trail, trail')
    ensures AllFalse(asg, c) ==> !Quiet(asg', c')
  {
    if AllFalse(asg, c) {
      FalseGrows(asg, trail, c, asg', trail', c');
    }
  }

  /** In the main loop the short clauses are true as soon as those of the instance are. */
  lemma ShortClausesTrue(asg: seq<VarState>, level: seq<int>, instance: seq<Clause>, clauses: seq<Clause>)
    requires ValidDb(|asg|, clauses) && |level| == |asg| && Holds(instance, clauses)
    requires ShortTrue(asg, level, clauses, |instance|) && InstanceShortTrue(asg, instance, clauses)
    ensures forall ci :: 0 <= ci < |clauses| && |clauses[ci]| < 2 ==> HasTrue(asg, clauses[ci])
  {
    hide Permuted;
    forall ci | 0 <= ci < |clauses| && |clauses[ci]| < 2 ensures HasTrue(asg, clauses[ci]) {
      if ci < |instance| {
        SameLength(instance, clauses, ci);
      } else {
        assert LitValue(asg, clauses[ci][0]);
      }
    }
  }

  /**
   The refinement itself, in every state in which the main loop calls unit_propagate: it and the naive scan
   both finish or both report a conflict, and when they finish they have made the same assignments at the
   same level. The naive scan then finds nothing more to do. For an instance whose clauses have at least two
   literals the second hypothesis asks nothing.
   */
  method PropagateBothWays(ghost instance: seq<Clause>, fast: CdclSolver)
    returns (fastConflict: bool, slowConflict: int, slow: NaiveSolver)
    requires fast.InLoop(instance)
    requires (forall c :: c in instance ==> |c| >= 2) || InstanceShortTrue(fast.assignment, instance, fast.clauses)
    modifies fast
    ensures fast.Valid() && slow.Valid()
    ensures fastConflict <==> slowConflict != -1
    ensures !fastConflict ==> fast.assignment == slow.assignment && fast.decisionLevel == slow.level
    ensures !fastConflict ==> AllQuiet(fast.assignment, fast.clauses)
  {
    hide TrailOk, LevelsOk, ReasonsOk, WatchesOk, Settled, PropagatedFrom, Permuted, Derived, Recorded,
        OnlyAssignedChange, NewAtLevel;
    hide Holds, ShortTrue;
    ShortClausesTrue(fast.assignment, fast.decisionLevel, instance, fast.clauses);
    ghost var asg, before := fast.assignment, fast.Snapshot();
    slow := new NaiveSolver(fast.assignment, fast.decisionLevel, fast.antecedent, fast.currentLevel, fast.trail,
                            fast.clauses);
    slowConflict := slow.Propagate();
    RecordedIsDerived(slow.clauses, |before.trail|, slow.trail, slow.level, slow.antecedent, slow.currentLevel);
    fastConflict := fast.UnitPropagate();
    ghost var after := fast.Snapshot();
    PropagatedClauses(before, after, fast.currentLevel);
    PropagatedIsDerived(fast.assignment, before, after, fast.currentLevel);
    TrueStaysTrue(asg, before.trail, before.clauses, fast.assignment, fast.trail, fast.clauses);
    if !fastConflict {
      FinishedMeansQuiet(fast.assignment, fast.decisionLevel, fast.trail, fast.clauses);
    }
    PermutedBack(before.clauses, fast.clauses);
    PropagationsAgree(|before.trail|, fast.assignment, fast.trail, fast.clauses, fastConflict,
                      slow.assignment, slow.trail, slow.clauses, slowConflict != -1);
    if !fastConflict {
      FastLevels(asg, before, fast.trailLim, fast.assignment, after, fast.currentLevel);
      RecordedLevels(slow.clauses, |before.trail|, slow.trail, slow.level, slow.antecedent, slow.currentLevel);
      SameLevels(asg, before.trail, before.level, fast.assignment, fast.currentLevel, fast.trail, fast.decisionLevel,
                 slow.trail, slow.level);
    }
  }

  lemma RecordedLevels(clauses: seq<Clause>, base: nat, trail: seq<int>, level: seq<int>, ante: seq<int>, cur: int)
    requires Recorded(clauses, base, trail, level, ante, cur)
    ensures NewAtLevel(base, trail, level, cur)
  {
    hide Forces;
  }

  lemma PermutedBack(clauses: seq<Clause>, clauses': seq<Clause>)
    requires Permuted(clauses, clauses')
    ensures Permuted(clauses', clauses)
  {
  }
}
