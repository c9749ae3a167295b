/**
 The data the CDCL solver keeps, as values: literals, the trail, the clause
 database and the watch lists, with the invariants that tie them together.
 The class in CdclSolver.dfy updates these structures in place; everything
 said here is about one moment of its life.
 */
module SolverState {

  datatype VarState = Unassigned | True | False

  type Clause = seq<int>

  // ---------------------------------------------------------------- literals

  /** A literal is a non-zero integer; variable v is the literal v + 1, its negation -(v + 1). */
  function Var(lit: int): nat
    requires lit != 0
  {
    if lit > 0 then lit - 1 else -lit - 1
  }

  predicate ValidLit(n: nat, lit: int) {
    lit != 0 && Var(lit) < n
  }

  function LitIndex(lit: int): nat
    requires lit != 0
  {
    if lit > 0 then 2 * (lit - 1) else 2 * (-lit - 1) + 1
  }

  predicate IsUnassigned(asg: seq<VarState>, lit: int)
    requires ValidLit(|asg|, lit)
  {
    asg[Var(lit)] == Unassigned
  }

  predicate LitValue(asg: seq<VarState>, lit: int)
    requires ValidLit(|asg|, lit)
  {
    asg[Var(lit)] == if lit > 0 then True else False
  }

  predicate IsFalse(asg: seq<VarState>, lit: int)
    requires ValidLit(|asg|, lit)
  {
    !IsUnassigned(asg, lit) && !LitValue(asg, lit)
  }

  /** The literal of variable v that the assignment makes true. */
  function TrueLit(asg: seq<VarState>, v: nat): (lit: int)
    requires v < |asg| && asg[v] != Unassigned
    ensures ValidLit(|asg|, lit) && Var(lit) == v && LitValue(asg, lit)
  {
    if asg[v] == True then v + 1 else -(v + 1)
  }

  // ----------------------------------------------------------------- clauses

  ghost predicate ValidClause(n: nat, c: Clause) {
    forall p :: 0 <= p < |c| ==> ValidLit(n, c[p])
  }

  ghost predicate ValidDb(n: nat, clauses: seq<Clause>) {
    forall ci :: 0 <= ci < |clauses| ==> ValidClause(n, clauses[ci])
  }

  ghost predicate AllFalse(asg: seq<VarState>, c: Clause)
    requires ValidClause(|asg|, c)
  {
    forall p :: 0 <= p < |c| ==> IsFalse(asg, c[p])
  }

  ghost predicate HasTrue(asg: seq<VarState>, c: Clause)
    requires ValidClause(|asg|, c)
  {
    exists p :: 0 <= p < |c| && LitValue(asg, c[p])
  }

  /** Position p is unassigned and every other position is false. */
  ghost predicate UnitAt(asg: seq<VarState>, c: Clause, p: nat)
    requires ValidClause(|asg|, c)
    requires p < |c|
  {
    IsUnassigned(asg, c[p]) && forall q :: 0 <= q < |c| && q != p ==> IsFalse(asg, c[q])
  }

  /** The naive scan has nothing to do with the clause: it is neither false nor unit. */
  ghost predicate Quiet(asg: seq<VarState>, c: Clause)
    requires ValidClause(|asg|, c)
  {
    !AllFalse(asg, c) && forall p :: 0 <= p < |c| ==> !UnitAt(asg, c, p)
  }

  ghost predicate AllQuiet(asg: seq<VarState>, clauses: seq<Clause>)
    requires ValidDb(|asg|, clauses)
  {
    forall ci :: 0 <= ci < |clauses| ==> Quiet(asg, clauses[ci])
  }

  /** Same clauses at the same indices, up to the order of their literals. */
  ghost predicate Permuted(before: seq<Clause>, after: seq<Clause>) {
    |before| == |after| &&
    forall ci :: 0 <= ci < |before| ==> multiset(before[ci]) == multiset(after[ci])
  }

  // ------------------------------------------------------------------- trail

  /** The trail lists exactly the assigned variables, each once, with their true literals. */
  ghost predicate TrailOk(asg: seq<VarState>, trail: seq<int>) {
    (forall i :: 0 <= i < |trail| ==> ValidLit(|asg|, trail[i]) && LitValue(asg, trail[i])) &&
    (forall i, j :: 0 <= i < j < |trail| ==> Var(trail[i]) != Var(trail[j])) &&
    (forall v :: 0 <= v < |asg| && asg[v] != Unassigned ==> TrueLit(asg, v) in trail)
  }

  /** The marks (levels or antecedents) of the trail entries, in trail order. */
  ghost function Marks(xs: seq<int>, trail: seq<int>): (r: seq<int>)
    requires ValidClause(|xs|, trail)
    ensures |r| == |trail| && forall i :: 0 <= i < |trail| ==> r[i] == xs[Var(trail[i])]
  {
    seq(|trail|, i requires 0 <= i < |trail| => xs[Var(trail[i])])
  }

  /**
   Levels L and antecedents A along the trail: level d + 1 starts at lim[d] with a decision, and
   those are the only decisions. So levels never decrease.
   */
  ghost predicate Leveled(L: seq<int>, A: seq<int>, lim: seq<nat>) {
    |L| == |A| &&
    (forall i :: 0 <= i < |L| ==> 0 <= L[i] <= |lim|) &&
    (forall i, d :: 0 <= i < |L| && 0 <= d < |lim| ==> (L[i] > d <==> lim[d] <= i)) &&
    (forall d :: 0 <= d < |lim| ==> lim[d] < |L| && A[lim[d]] == -1 && L[lim[d]] == d + 1) &&
    (forall i :: 0 <= i < |L| && A[i] == -1 ==> L[i] >= 1 && lim[L[i] - 1] == i)
  }

  ghost predicate LevelsOk(asg: seq<VarState>, level: seq<int>, ante: seq<int>, trail: seq<int>, lim: seq<nat>)
    requires TrailOk(asg, trail)
  {
    |level| == |asg| && |ante| == |asg| && ValidClause(|asg|, trail) &&
    (forall v :: 0 <= v < |asg| && asg[v] == Unassigned ==> level[v] == -1 && ante[v] == -1) &&
    Leveled(Marks(level, trail), Marks(ante, trail), lim)
  }

  /** Clause c forces lit once the literals of prefix are true: lit occurs once, the rest is false. */
  ghost predicate Forces(c: Clause, prefix: seq<int>, lit: int) {
    multiset(c)[lit] == 1 &&
    forall m :: m in multiset(c) ==> m == lit || -m in prefix
  }

  /** Every propagated trail entry is forced by its antecedent and the entries before it. */
  ghost predicate ReasonsOk(asg: seq<VarState>, clauses: seq<Clause>, ante: seq<int>, trail: seq<int>)
    requires TrailOk(asg, trail) && |ante| == |asg|
  {
    forall i :: 0 <= i < |trail| && ante[Var(trail[i])] != -1 ==>
                  0 <= ante[Var(trail[i])] < |clauses| &&
                  Forces(clauses[ante[Var(trail[i])]], trail[..i], trail[i])
  }

  // ----------------------------------------------------------- watched literals

  /** How many of the watched positions of c hold a literal of index w. */
  function WatchMult(c: Clause, w: nat): nat
    requires |c| >= 1 ==> c[0] != 0
    requires |c| >= 2 ==> c[1] != 0
  {
    (if |c| >= 1 && LitIndex(c[0]) == w then 1 else 0) +
    (if |c| >= 2 && LitIndex(c[1]) == w then 1 else 0)
  }

  /** The watch lists hold each clause index exactly as often as its first two literals ask for. */
  ghost predicate WatchesOk(n: nat, clauses: seq<Clause>, watches: seq<seq<nat>>)
    requires ValidDb(n, clauses)
  {
    |watches| == 2 * n &&
    (forall w, i :: 0 <= w < |watches| && 0 <= i < |watches[w]| ==> watches[w][i] < |clauses|) &&
    (forall w, ci :: 0 <= w < |watches| && 0 <= ci < |clauses| ==>
                       multiset(watches[w])[ci] == WatchMult(clauses[ci], w))
  }

  /** Watched position a of c may be false only if the other watched literal is true at no higher level. */
  ghost predicate Guarded(asg: seq<VarState>, level: seq<int>, c: Clause, a: nat)
    requires ValidClause(|asg|, c) && |level| == |asg|
    requires a <= 1
  {
    a < |c| && |c| >= 2 &&
    LitValue(asg, c[1 - a]) && level[Var(c[1 - a])] <= level[Var(c[a])]
  }

  /** Propagation has dealt with the true literals of done: every watch they falsify is guarded. */
  ghost predicate Settled(asg: seq<VarState>, level: seq<int>, clauses: seq<Clause>, done: seq<int>)
    requires ValidDb(|asg|, clauses) && |level| == |asg|
  {
    forall ci, a :: 0 <= ci < |clauses| && 0 <= a <= 1 && a < |clauses[ci]| && -clauses[ci][a] in done ==>
                      Guarded(asg, level, clauses[ci], a)
  }

  /** The part of the above for the literal just being propagated and the clauses outside pending. */
  ghost predicate SettledBut(asg: seq<VarState>, level: seq<int>, clauses: seq<Clause>, falseLit: int,
                             pending: seq<nat>)
    requires ValidDb(|asg|, clauses) && |level| == |asg|
  {
    forall ci, a :: 0 <= ci < |clauses| && 0 <= a <= 1 && a < |clauses[ci]| &&
                    clauses[ci][a] == falseLit && ci !in pending ==>
                      Guarded(asg, level, clauses[ci], a)
  }
}
