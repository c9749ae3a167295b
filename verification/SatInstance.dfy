/**
 k-SAT instances and the linear-time witness check of src/consensus/ponw_engine.cpp
 (src/testnet_node.cpp carries the same check).
 */
module SatInstances {

  datatype SatInstance = SatInstance(numVariables: nat, clauses: seq<seq<int>>)

  predicate InRange(n: nat, lit: int) {
    lit != 0 && -(n as int) <= lit <= n
  }

  predicate LitTrue(assignment: seq<bool>, lit: int)
    requires InRange(|assignment|, lit)
  {
    if lit > 0 then assignment[lit - 1] else !assignment[-lit - 1]
  }

  /** Some literal of the clause is true: the mathematical meaning of "satisfied". */
  ghost predicate ClauseTrue(assignment: seq<bool>, clause: seq<int>) {
    exists p :: 0 <= p < |clause| && InRange(|assignment|, clause[p]) && LitTrue(assignment, clause[p])
  }

  ghost predicate WellFormed(inst: SatInstance) {
    forall c :: c in inst.clauses ==> forall lit :: lit in c ==> InRange(inst.numVariables, lit)
  }

  ghost predicate Satisfies(inst: SatInstance, assignment: seq<bool>) {
    |assignment| == inst.numVariables && forall c :: c in inst.clauses ==> ClauseTrue(assignment, c)
  }

  /** A true literal is met before any literal that is out of range. */
  ghost predicate AcceptedClause(assignment: seq<bool>, clause: seq<int>) {
    exists p :: 0 <= p < |clause| && InRange(|assignment|, clause[p]) && LitTrue(assignment, clause[p]) &&
                forall q :: 0 <= q < p ==> InRange(|assignment|, clause[q])
  }

  /** What the check lets through. */
  ghost predicate Accepted(inst: SatInstance, assignment: seq<bool>) {
    |assignment| == inst.numVariables && forall c :: c in inst.clauses ==> AcceptedClause(assignment, c)
  }

  /** The scan of one clause. */
  method VerifyClause(assignment: seq<bool>, clause: seq<int>) returns (sat: bool)
    ensures sat <==> AcceptedClause(assignment, clause)
  {
    for p := 0 to |clause|
      invariant forall q :: 0 <= q < p ==> InRange(|assignment|, clause[q]) && !LitTrue(assignment, clause[q])
    {
      if !InRange(|assignment|, clause[p]) { return false; }
      if LitTrue(assignment, clause[p]) { return true; }
    }
    return false;
  }

  /** SATInstance::verify decides satisfaction on well-formed instances, and is never too generous. */
  method Verify(inst: SatInstance, assignment: seq<bool>) returns (ok: bool)
    ensures ok <==> Accepted(inst, assignment)
    ensures ok ==> Satisfies(inst, assignment)
    ensures WellFormed(inst) ==> (ok <==> Satisfies(inst, assignment))
  {
    if |assignment| != inst.numVariables { return false; }
    for ci := 0 to |inst.clauses|
      invariant forall k :: 0 <= k < ci ==> AcceptedClause(assignment, inst.clauses[k])
    {
      var sat := VerifyClause(assignment, inst.clauses[ci]);
      if !sat {
        if WellFormed(inst) {
          WellFormedAccepts(inst, assignment, inst.clauses[ci]);
        }
        return false;
      }
    }
    return true;
  }

  /** On in-range literals the scan order does not matter. */
  lemma WellFormedAccepts(inst: SatInstance, assignment: seq<bool>, clause: seq<int>)
    requires WellFormed(inst) && clause in inst.clauses && |assignment| == inst.numVariables
    ensures ClauseTrue(assignment, clause) <==> AcceptedClause(assignment, clause)
  {
    forall q | 0 <= q < |clause| ensures InRange(|assignment|, clause[q]) {
      assert clause[q] in clause;
    }
  }
}
