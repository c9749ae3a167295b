/**
 What one step of propagation, learning or backtracking does to the invariants of
 SolverState, on values. The methods of CdclSolver call these after each update.
 */
module PropagationLemmas {
  import opened Counting
  import opened SolverState

  // ------------------------------------------------------------ assigning a literal

  lemma AssignedIsOnTrail(asg: seq<VarState>, trail: seq<int>, lit: int)
    requires TrailOk(asg, trail) && ValidLit(|asg|, lit)
    ensures LitValue(asg, lit) <==> lit in trail
    ensures IsFalse(asg, lit) <==> -lit in trail
  {
    if !IsUnassigned(asg, lit) {
      assert TrueLit(asg, Var(lit)) in trail;
    }
  }

  function Assigned(asg: seq<VarState>, lit: int): seq<VarState>
    requires ValidLit(|asg|, lit)
  {
    asg[Var(lit) := if lit > 0 then True else False]
  }

  lemma ExtendTrail(asg: seq<VarState>, trail: seq<int>, lit: int)
    requires TrailOk(asg, trail) && ValidLit(|asg|, lit) && IsUnassigned(asg, lit)
    ensures TrailOk(Assigned(asg, lit), trail + [lit])
  {
    var asg' := Assigned(asg, lit);
    forall v | 0 <= v < |asg'| && asg'[v] != Unassigned
      ensures TrueLit(asg', v) in trail + [lit]
    {
      if v != Var(lit) { assert TrueLit(asg, v) in trail; }
    }
  }

  lemma ExtendReasons(asg: seq<VarState>, ante: seq<int>, trail: seq<int>, clauses: seq<Clause>, lit: int, a: int)
    requires TrailOk(asg, trail) && |ante| == |asg| && ReasonsOk(asg, clauses, ante, trail)
    requires ValidLit(|asg|, lit) && IsUnassigned(asg, lit)
    requires a == -1 || (0 <= a < |clauses| && Forces(clauses[a], trail, lit))
    ensures TrailOk(Assigned(asg, lit), trail + [lit])
    ensures ReasonsOk(Assigned(asg, lit), clauses, ante[Var(lit) := a], trail + [lit])
  {
    ExtendTrail(asg, trail, lit);
    var trail', ante' := trail + [lit], ante[Var(lit) := a];
    forall i | 0 <= i < |trail'| && ante'[Var(trail'[i])] != -1
      ensures 0 <= ante'[Var(trail'[i])] < |clauses|
      ensures Forces(clauses[ante'[Var(trail'[i])]], trail'[..i], trail'[i])
    {
      assert trail'[..i] == trail[..i];
      if i == |trail| { assert trail[..i] == trail; }
    }
  }

  lemma MarksExtend(asg: seq<VarState>, trail: seq<int>, xs: seq<int>, lit: int, x: int)
    requires TrailOk(asg, trail) && |xs| == |asg| && ValidClause(|xs|, trail)
    requires ValidLit(|asg|, lit) && IsUnassigned(asg, lit)
    ensures ValidClause(|xs|, trail + [lit])
    ensures Marks(xs[Var(lit) := x], trail + [lit]) == Marks(xs, trail) + [x]
  {
  }

  lemma LeveledPush(L: seq<int>, A: seq<int>, lim: seq<nat>, ci: nat)
    requires Leveled(L, A, lim)
    ensures Leveled(L + [|lim|], A + [ci], lim)
  {
  }

  lemma LeveledDecide(L: seq<int>, A: seq<int>, lim: seq<nat>)
    requires Leveled(L, A, lim)
    ensures Leveled(L + [|lim| + 1], A + [-1], lim + [|L|])
  {
  }

  lemma LeveledCut(L: seq<int>, A: seq<int>, lim: seq<nat>, to: nat)
    requires Leveled(L, A, lim) && to <= |lim|
    ensures var cut := if to == |lim| then |L| else lim[to];
            cut <= |L| && Leveled(L[..cut], A[..cut], lim[..to]) &&
            forall i :: 0 <= i < |L| ==> (L[i] <= to <==> i < cut)
  {
    var cut := if to == |lim| then |L| else lim[to];
    forall d | 0 <= d < to ensures lim[d] < cut {
      assert L[lim[d]] == d + 1;
    }
  }

  lemma ExtendPropagated(asg: seq<VarState>, level: seq<int>, ante: seq<int>, trail: seq<int>, lim: seq<nat>, lit: int,
                         ci: nat)
    requires TrailOk(asg, trail) && LevelsOk(asg, level, ante, trail, lim)
    requires ValidLit(|asg|, lit) && IsUnassigned(asg, lit)
    ensures TrailOk(Assigned(asg, lit), trail + [lit])
    ensures LevelsOk(Assigned(asg, lit), level[Var(lit) := |lim|], ante[Var(lit) := ci], trail + [lit], lim)
  {
    ExtendTrail(asg, trail, lit);
    MarksExtend(asg, trail, level, lit, |lim|);
    MarksExtend(asg, trail, ante, lit, ci);
    LeveledPush(Marks(level, trail), Marks(ante, trail), lim, ci);
    hide TrailOk, Leveled;
  }

  lemma ExtendDecided(asg: seq<VarState>, level: seq<int>, ante: seq<int>, trail: seq<int>, lim: seq<nat>, lit: int)
    requires TrailOk(asg, trail) && LevelsOk(asg, level, ante, trail, lim)
    requires ValidLit(|asg|, lit) && IsUnassigned(asg, lit)
    ensures TrailOk(Assigned(asg, lit), trail + [lit])
    ensures LevelsOk(Assigned(asg, lit), level[Var(lit) := |lim| + 1], ante[Var(lit) := -1], trail + [lit],
                     lim + [|trail|])
  {
    ExtendTrail(asg, trail, lit);
    MarksExtend(asg, trail, level, lit, |lim| + 1);
    MarksExtend(asg, trail, ante, lit, -1);
    LeveledDecide(Marks(level, trail), Marks(ante, trail), lim);
    hide TrailOk, Leveled;
  }

  /** With every other position false, the clause forces its unassigned first literal. */
  lemma FirstIsForced(asg: seq<VarState>, trail: seq<int>, c: Clause)
    requires TrailOk(asg, trail) && ValidClause(|asg|, c) && |c| >= 1
    requires UnitAt(asg, c, 0)
    ensures Forces(c, trail, c[0])
  {
    assert c == [c[0]] + c[1..];
    forall m | m in c[1..]
      ensures m != c[0] && -m in trail
    {
      var q :| 1 <= q < |c| && c[q] == m;
      AssignedIsOnTrail(asg, trail, c[q]);
    }
    assert c[0] !in multiset(c[1..]);
  }

  /** True literals stay true and keep their level, so guards survive an assignment. */
  lemma ExtendSettled(asg: seq<VarState>, level: seq<int>, trail: seq<int>, clauses: seq<Clause>, done: seq<int>,
                      falseLit: int, pending: seq<nat>, lit: int, l: int)
    requires ValidDb(|asg|, clauses) && |level| == |asg| && TrailOk(asg, trail)
    requires ValidLit(|asg|, lit) && IsUnassigned(asg, lit)
    requires -falseLit in trail && forall m :: m in done ==> m in trail
    requires Settled(asg, level, clauses, done) && SettledBut(asg, level, clauses, falseLit, pending)
    ensures Settled(Assigned(asg, lit), level[Var(lit) := l], clauses, done)
    ensures SettledBut(Assigned(asg, lit), level[Var(lit) := l], clauses, falseLit, pending)
  {
    var asg', level' := Assigned(asg, lit), level[Var(lit) := l];
    forall ci, a | 0 <= ci < |clauses| && 0 <= a <= 1 && a < |clauses[ci]| && Guarded(asg, level, clauses[ci], a) &&
                   -clauses[ci][a] in trail
      ensures Guarded(asg', level', clauses[ci], a)
    {
      AssignedIsOnTrail(asg, trail, clauses[ci][a]);
    }
  }

  // ------------------------------------------------------------ rewriting one clause

  /** Exchanging two literals of one clause changes no clause as a multiset. */
  lemma SwapPermutes(clauses: seq<Clause>, ci: nat, p: nat, q: nat)
    requires ci < |clauses| && p < |clauses[ci]| && q < |clauses[ci]|
    ensures Permuted(clauses, clauses[ci := clauses[ci][p := clauses[ci][q]][q := clauses[ci][p]]])
  {
  }

  lemma PermutedKeepsDb(n: nat, clauses: seq<Clause>, clauses': seq<Clause>)
    requires Permuted(clauses, clauses') && ValidDb(n, clauses)
    ensures ValidDb(n, clauses')
  {
    forall ci, p | 0 <= ci < |clauses'| && 0 <= p < |clauses'[ci]|
      ensures ValidLit(n, clauses'[ci][p])
    {
      assert clauses'[ci][p] in multiset(clauses[ci]);
    }
  }

  lemma PermutedKeepsReasons(asg: seq<VarState>, clauses: seq<Clause>, clauses': seq<Clause>, ante: seq<int>,
                             trail: seq<int>)
    requires TrailOk(asg, trail) && |ante| == |asg|
    requires Permuted(clauses, clauses') && ReasonsOk(asg, clauses, ante, trail)
    ensures ReasonsOk(asg, clauses', ante, trail)
  {
  }

  /** Rewriting clause ci keeps the other clauses settled. */
  lemma RewriteSettled(asg: seq<VarState>, level: seq<int>, clauses: seq<Clause>, ci: nat, c: Clause,
                       done: seq<int>, falseLit: int, pending: seq<nat>)
    requires ValidDb(|asg|, clauses) && |level| == |asg|
    requires ci < |clauses| && ValidClause(|asg|, c)
    requires Settled(asg, level, clauses, done) && SettledBut(asg, level, clauses, falseLit, pending)
    requires forall a :: 0 <= a <= 1 && a < |c| && -c[a] in done ==> Guarded(asg, level, c, a)
    requires forall a :: 0 <= a <= 1 && a < |c| && c[a] == falseLit && ci !in pending ==> Guarded(asg, level, c, a)
    ensures ValidDb(|asg|, clauses[ci := c])
    ensures Settled(asg, level, clauses[ci := c], done)
    ensures SettledBut(asg, level, clauses[ci := c], falseLit, pending)
  {
  }

  lemma SwapFirstTwo(asg: seq<VarState>, level: seq<int>, clauses: seq<Clause>, watches: seq<seq<nat>>, ci: nat,
                     done: seq<int>, falseLit: int, pending: seq<nat>)
    requires ValidDb(|asg|, clauses) && |level| == |asg|
    requires ci < |clauses| && |clauses[ci]| >= 2
    requires WatchesOk(|asg|, clauses, watches)
    requires Settled(asg, level, clauses, done) && SettledBut(asg, level, clauses, falseLit, pending)
    ensures var clauses' := clauses[ci := clauses[ci][0 := clauses[ci][1]][1 := clauses[ci][0]]];
            ValidDb(|asg|, clauses') && WatchesOk(|asg|, clauses', watches) &&
            Settled(asg, level, clauses', done) && SettledBut(asg, level, clauses', falseLit, pending)
  {
    var c := clauses[ci];
    var c' := c[0 := c[1]][1 := c[0]];
    forall a | 0 <= a <= 1 && Guarded(asg, level, c, 1 - a)
      ensures Guarded(asg, level, c', a)
    {
    }
    RewriteSettled(asg, level, clauses, ci, c', done, falseLit, pending);
  }

  // ------------------------------------------------------------ compacting a watch list

  /** The entries of a watch list under compaction: the kept prefix and the unread rest. */
  function Live(wl: seq<nat>, i: nat, j: nat): seq<nat>
    requires j <= i <= |wl|
  {
    wl[..j] + wl[i..]
  }

  /** Copying entry i down to j and advancing both cursors loses nothing. */
  lemma KeepEntry(wl: seq<nat>, i: nat, j: nat)
    requires j <= i < |wl|
    ensures Live(wl[j := wl[i]], i + 1, j + 1) == Live(wl, i, j)
    ensures wl[j := wl[i]][i + 1..] == wl[i + 1..]
    ensures wl[j := wl[i]][..j + 1] == wl[..j] + [wl[i]]
  {
  }

  lemma CountLive(wl: seq<nat>, i: nat, j: nat, x: nat)
    requires j <= i < |wl|
    ensures multiset(Live(wl, i, j))[x] == multiset(wl[..j])[x] +
            (if wl[i] == x then 1 else 0) + multiset(wl[i + 1..])[x]
    ensures multiset(wl[..j] + wl[i + 1..])[x] == multiset(wl[..j])[x] + multiset(wl[i + 1..])[x]
  {
    assert wl[i..] == [wl[i]] + wl[i + 1..];
  }

  lemma InSeqIffCounted(s: seq<nat>, x: nat)
    ensures x in s <==> multiset(s)[x] > 0
  {
    if x in s { assert x in multiset(s); }
  }

  /** The watch of clause ci moves from falseLit, at position 1, to the literal at position k. */
  lemma MoveWatch(n: nat, clauses: seq<Clause>, watches: seq<seq<nat>>, ci: nat, k: nat, w: nat, i: nat, j: nat)
    requires ValidDb(n, clauses) && ci < |clauses| && 2 <= k < |clauses[ci]|
    requires |watches| == 2 * n && w < 2 * n && w == LitIndex(clauses[ci][1]) != LitIndex(clauses[ci][k]) < 2 * n
    requires j <= i < |watches[w]| && watches[w][i] == ci
    requires WatchesOk(n, clauses, watches[w := Live(watches[w], i, j)])
    ensures var c, w' := clauses[ci], LitIndex(clauses[ci][k]);
            var clauses' := clauses[ci := c[1 := c[k]][k := c[1]]];
            var watches' := watches[w' := watches[w'] + [ci]];
            ValidDb(n, clauses') && WatchesOk(n, clauses', watches'[w := Live(watches'[w], i + 1, j)])
  {
    var c, w' := clauses[ci], LitIndex(clauses[ci][k]);
    var c' := c[1 := c[k]][k := c[1]];
    SwapPermutes(clauses, ci, 1, k);
    PermutedKeepsDb(n, clauses, clauses[ci := c']);
    var watches' := watches[w' := watches[w'] + [ci]];
    var before, after := watches[w := Live(watches[w], i, j)], watches'[w := Live(watches'[w], i + 1, j)];
    assert after == before[w := watches[w][..j] + watches[w][i + 1..]][w' := before[w'] + [ci]];
    forall x: nat
      ensures multiset(after[w])[x] + (if x == ci then 1 else 0) == multiset(before[w])[x]
    {
      CountLive(watches[w], i, j, x);
    }
    MovedEntry(watches[w], i, j);
    MoveCounts(n, clauses, before, after, ci, c', w, w');
  }

  /** One occurrence of ci leaves list w, one arrives in list w', and the clause asks for just that. */
  lemma MoveCounts(n: nat, clauses: seq<Clause>, before: seq<seq<nat>>, after: seq<seq<nat>>, ci: nat, c': Clause,
                   w: nat, w': nat)
    requires ValidDb(n, clauses) && WatchesOk(n, clauses, before) && ci < |clauses| && ValidClause(n, c')
    requires |clauses[ci]| >= 2 && |c'| >= 2 && c'[0] == clauses[ci][0]
    requires w == LitIndex(clauses[ci][1]) != w' == LitIndex(c'[1]) && w < |before| && w' < |before|
    requires |after| == |before| && after == before[w := after[w]][w' := before[w'] + [ci]]
    requires forall x: nat :: multiset(after[w])[x] + (if x == ci then 1 else 0) == multiset(before[w])[x]
    requires forall x :: x in after[w] ==> x in before[w]
    ensures ValidDb(n, clauses[ci := c']) && WatchesOk(n, clauses[ci := c'], after)
  {
    var clauses' := clauses[ci := c'];
    forall u, x | 0 <= u < |after| && 0 <= x < |clauses'|
      ensures multiset(after[u])[x] == WatchMult(clauses'[x], u)
    {
      assert multiset(before[u])[x] == WatchMult(clauses[x], u);
    }
    forall u, q | 0 <= u < |after| && 0 <= q < |after[u]|
      ensures after[u][q] < |clauses'|
    {
      assert after[u][q] in before[u] || after[u][q] == ci;
    }
  }

  lemma MovedEntry(wl: seq<nat>, i: nat, j: nat)
    requires j <= i < |wl|
    ensures forall x :: x in wl[..j] + wl[i + 1..] ==> x in Live(wl, i, j)
  {
    assert wl[i..] == [wl[i]] + wl[i + 1..];
  }

  /** After the move the clause needs no guard that it does not have. */
  lemma MoveSettled(asg: seq<VarState>, level: seq<int>, trail: seq<int>, clauses: seq<Clause>, watches: seq<seq<nat>>,
                    ci: nat, k: nat, w: nat, i: nat, j: nat, done: seq<int>, falseLit: int)
    requires ValidDb(|asg|, clauses) && |level| == |asg| && TrailOk(asg, trail)
    requires ci < |clauses| && 2 <= k < |clauses[ci]| && clauses[ci][1] == falseLit
    requires IsFalse(asg, falseLit) && !IsFalse(asg, clauses[ci][k]) && !LitValue(asg, clauses[ci][0])
    requires forall m :: m in done ==> m in trail
    requires w == LitIndex(falseLit) < |watches| && j <= i < |watches[w]| && watches[w][i] == ci
    requires WatchesOk(|asg|, clauses, watches[w := Live(watches[w], i, j)])
    requires forall x :: x in watches[w][..j] ==> x !in watches[w][i..]
    requires Settled(asg, level, clauses, done) && SettledBut(asg, level, clauses, falseLit, watches[w][i..])
    ensures var c := clauses[ci]; var clauses' := clauses[ci := c[1 := c[k]][k := c[1]]];
            ValidDb(|asg|, clauses') &&
            Settled(asg, level, clauses', done) &&
            SettledBut(asg, level, clauses', falseLit, watches[w][i + 1..])
  {
    var c, wl := clauses[ci], watches[w];
    var c' := c[1 := c[k]][k := c[1]];
    SwapPermutes(clauses, ci, 1, k);
    PermutedKeepsDb(|asg|, clauses, clauses[ci := c']);
    NewWatchNeedsNoGuard(asg, level, trail, clauses, ci, k, done, falseLit);
    if c[0] == falseLit {
      ListedTwice(|asg|, clauses, watches, ci, w, i, j);
    }
    assert wl[i..] == [ci] + wl[i + 1..];
    hide WatchesOk, TrailOk;
    forall x, a | 0 <= x < |clauses| && x != ci && 0 <= a <= 1 && a < |clauses[x]| &&
                  clauses[x][a] == falseLit && x !in wl[i + 1..]
      ensures Guarded(asg, level, clauses[x], a)
    {
      assert x !in wl[i..];
    }
  }

  lemma NewWatchNeedsNoGuard(asg: seq<VarState>, level: seq<int>, trail: seq<int>, clauses: seq<Clause>,
                             ci: nat, k: nat, done: seq<int>, falseLit: int)
    requires ValidDb(|asg|, clauses) && |level| == |asg| && TrailOk(asg, trail)
    requires ci < |clauses| && 2 <= k < |clauses[ci]| && clauses[ci][1] == falseLit
    requires IsFalse(asg, falseLit) && !IsFalse(asg, clauses[ci][k])
    requires forall m :: m in done ==> m in trail
    requires Settled(asg, level, clauses, done)
    ensures -clauses[ci][0] !in done && -clauses[ci][k] !in done && clauses[ci][k] != falseLit
  {
    var c := clauses[ci];
    AssignedIsOnTrail(asg, trail, c[k]);
    assert !Guarded(asg, level, c, 0);
  }

  /** A clause watching the same literal twice is listed again further on. */
  lemma ListedTwice(n: nat, clauses: seq<Clause>, watches: seq<seq<nat>>, ci: nat, w: nat, i: nat, j: nat)
    requires ValidDb(n, clauses) && ci < |clauses| && |clauses[ci]| >= 2
    requires w < |watches| && j <= i < |watches[w]| && watches[w][i] == ci
    requires LitIndex(clauses[ci][0]) == w && LitIndex(clauses[ci][1]) == w
    requires WatchesOk(n, clauses, watches[w := Live(watches[w], i, j)])
    requires forall x :: x in watches[w][..j] ==> x !in watches[w][i..]
    ensures ci in watches[w][i + 1..]
  {
    var wl := watches[w];
    var eff := watches[w := Live(wl, i, j)];
    assert multiset(eff[w])[ci] == WatchMult(clauses[ci], w);
    CountLive(wl, i, j, ci);
    assert ci in wl[i..];
    InSeqIffCounted(wl[..j], ci);
    InSeqIffCounted(wl[i + 1..], ci);
  }

  /** A kept clause whose other watch is true at the current level or below is guarded. */
  lemma KeepSettled(asg: seq<VarState>, level: seq<int>, clauses: seq<Clause>, ci: nat, rest: seq<nat>, falseLit: int)
    requires ValidDb(|asg|, clauses) && |level| == |asg| && ValidLit(|asg|, falseLit)
    requires ci < |clauses| && |clauses[ci]| >= 2 && clauses[ci][1] == falseLit && IsFalse(asg, falseLit)
    requires LitValue(asg, clauses[ci][0]) && level[Var(clauses[ci][0])] <= level[Var(falseLit)]
    requires SettledBut(asg, level, clauses, falseLit, [ci] + rest)
    ensures SettledBut(asg, level, clauses, falseLit, rest)
  {
    forall x, a | 0 <= x < |clauses| && 0 <= a <= 1 && a < |clauses[x]| &&
                  clauses[x][a] == falseLit && x !in rest
      ensures Guarded(asg, level, clauses[x], a)
    {
      if x != ci { assert x !in [ci] + rest; }
    }
  }

  /** An entry that is kept with a true other watch does not occur again further on. */
  lemma KeptOnce(n: nat, clauses: seq<Clause>, watches: seq<seq<nat>>, w: nat, i: nat, j: nat)
    requires ValidDb(n, clauses) && w < |watches| && j <= i < |watches[w]|
    requires WatchesOk(n, clauses, watches[w := Live(watches[w], i, j)])
    requires watches[w][i] < |clauses| && WatchMult(clauses[watches[w][i]], w) == 1
    requires forall x :: x in watches[w][..j] ==> x !in watches[w][i..]
    ensures forall x :: x in watches[w][..j] + [watches[w][i]] ==> x !in watches[w][i + 1..]
  {
    var wl := watches[w];
    var eff := watches[w := Live(wl, i, j)];
    var ci := wl[i];
    assert multiset(eff[w])[ci] == 1;
    CountLive(wl, i, j, ci);
    InSeqIffCounted(wl[i + 1..], ci);
    assert wl[i..] == [ci] + wl[i + 1..];
  }

  // ------------------------------------------------------------ what propagation may change

  datatype Trace = Trace(trail: seq<int>, level: seq<int>, ante: seq<int>, clauses: seq<Clause>)

  /** After is before plus literals propagated at level cur, with the clauses permuted. */
  ghost predicate PropagatedFrom(before: Trace, after: Trace, cur: int) {
    before.trail <= after.trail && Permuted(before.clauses, after.clauses) &&
    |before.level| == |before.ante| == |after.level| == |after.ante| &&
    (forall i :: 0 <= i < |after.trail| ==> ValidLit(|after.ante|, after.trail[i])) &&
    (forall i :: 0 <= i < |before.trail| ==>
                   after.level[Var(after.trail[i])] == before.level[Var(after.trail[i])] &&
                   after.ante[Var(after.trail[i])] == before.ante[Var(after.trail[i])]) &&
    (forall i :: |before.trail| <= i < |after.trail| ==>
                   after.ante[Var(after.trail[i])] != -1 && after.level[Var(after.trail[i])] == cur)
  }

  lemma PropagatedNothing(asg: seq<VarState>, t: Trace, cur: int)
    requires TrailOk(asg, t.trail) && |t.level| == |t.ante| == |asg|
    ensures PropagatedFrom(t, t, cur)
  {
  }

  lemma PropagatedEntry(before: Trace, after: Trace, cur: int, i: nat)
    requires PropagatedFrom(before, after, cur) && |before.trail| <= i < |after.trail|
    ensures ValidLit(|after.ante|, after.trail[i])
    ensures after.ante[Var(after.trail[i])] != -1 && after.level[Var(after.trail[i])] == cur
  {
  }

  lemma PropagatedClauses(before: Trace, after: Trace, cur: int)
    requires PropagatedFrom(before, after, cur)
    ensures Permuted(before.clauses, after.clauses) && before.trail <= after.trail
  {
  }

  lemma PropagatedTwice(t0: Trace, t1: Trace, t2: Trace, cur: int)
    requires PropagatedFrom(t0, t1, cur) && PropagatedFrom(t1, t2, cur)
    ensures PropagatedFrom(t0, t2, cur)
    ensures t0.trail <= t1.trail <= t2.trail
  {
  }

  lemma PermutingPropagates(asg: seq<VarState>, t: Trace, cur: int, clauses: seq<Clause>)
    requires TrailOk(asg, t.trail) && |t.level| == |t.ante| == |asg| && Permuted(t.clauses, clauses)
    ensures PropagatedFrom(t, t.(clauses := clauses), cur)
  {
  }

  lemma ExtendingPropagates(asg: seq<VarState>, t: Trace, cur: int, lit: int, ci: nat)
    requires TrailOk(asg, t.trail) && |t.level| == |t.ante| == |asg|
    requires ValidLit(|asg|, lit) && IsUnassigned(asg, lit)
    ensures PropagatedFrom(t, Trace(t.trail + [lit], t.level[Var(lit) := cur], t.ante[Var(lit) := ci], t.clauses), cur)
  {
  }

  lemma EntryFacts(asg: seq<VarState>, trail: seq<int>, pos: nat)
    requires TrailOk(asg, trail) && pos < |trail|
    ensures ValidLit(|asg|, trail[pos]) && LitValue(asg, trail[pos])
    ensures ValidLit(|asg|, -trail[pos]) && IsFalse(asg, -trail[pos]) && Var(-trail[pos]) == Var(trail[pos])
    ensures LitIndex(-trail[pos]) < 2 * |asg|
  {
  }

  // ------------------------------------------------------------ one pass over a watch list

  /** The next entry names a clause that watches falseLit. */
  lemma LiveEntry(n: nat, clauses: seq<Clause>, watches: seq<seq<nat>>, falseLit: int, w: nat, i: nat, j: nat)
    requires ValidDb(n, clauses) && ValidLit(n, falseLit)
    requires w == LitIndex(falseLit) < |watches| && j <= i < |watches[w]|
    requires WatchesOk(n, clauses, watches[w := Live(watches[w], i, j)])
    ensures watches[w][i] < |clauses|
    ensures var c := clauses[watches[w][i]]; |c| >= 1 && (|c| == 1 ==> c[0] == falseLit) &&
                                             (|c| >= 2 ==> c[0] == falseLit || c[1] == falseLit)
  {
    var eff, ci := watches[w := Live(watches[w], i, j)], watches[w][i];
    assert eff[w][j] == ci;
    assert multiset(eff[w])[ci] == WatchMult(clauses[ci], w);
    CountLive(watches[w], i, j, ci);
  }

  lemma StartScan(asg: seq<VarState>, level: seq<int>, clauses: seq<Clause>, watches: seq<seq<nat>>, falseLit: int)
    requires ValidDb(|asg|, clauses) && |level| == |asg| && ValidLit(|asg|, falseLit)
    requires WatchesOk(|asg|, clauses, watches) && LitIndex(falseLit) < |watches|
    ensures SettledBut(asg, level, clauses, falseLit, watches[LitIndex(falseLit)])
  {
    var w := LitIndex(falseLit);
    forall ci, a | 0 <= ci < |clauses| && 0 <= a <= 1 && a < |clauses[ci]| && clauses[ci][a] == falseLit
      ensures ci in watches[w]
    {
      assert multiset(watches[w])[ci] == WatchMult(clauses[ci], w);
      InSeqIffCounted(watches[w], ci);
    }
  }

  lemma FinishScan(asg: seq<VarState>, level: seq<int>, clauses: seq<Clause>, done: seq<int>, falseLit: int)
    requires ValidDb(|asg|, clauses) && |level| == |asg|
    requires Settled(asg, level, clauses, done) && SettledBut(asg, level, clauses, falseLit, [])
    ensures Settled(asg, level, clauses, done + [-falseLit])
  {
  }

  /** The trail has no room for more than one entry per variable. */
  lemma TrailFits(asg: seq<VarState>, trail: seq<int>)
    requires TrailOk(asg, trail)
    ensures |trail| <= |asg|
  {
    Pigeonhole(seq(|trail|, i requires 0 <= i < |trail| => Var(trail[i])), |asg|);
  }

  lemma SettledPrefix(asg: seq<VarState>, level: seq<int>, clauses: seq<Clause>, done: seq<int>, prefix: seq<int>)
    requires ValidDb(|asg|, clauses) && |level| == |asg|
    requires Settled(asg, level, clauses, done) && prefix <= done
    ensures Settled(asg, level, clauses, prefix)
  {
    forall m | m in prefix ensures m in done {}
  }

  // ------------------------------------------------------------ conflicts and backtracking

  /** The literal that a clause learned from a level has for one of its variables. */
  function Negation(asg: seq<VarState>, v: nat): int
    requires v < |asg|
  {
    if asg[v] == True then -(v + 1) else v + 1
  }

  /** The literals, in variable order, that negate the assignments made at one level. */
  function NegatedLevel(asg: seq<VarState>, level: seq<int>, l: int, n: nat): (c: Clause)
    requires n <= |asg| && |level| == |asg|
  {
    if n == 0 then [] else
      NegatedLevel(asg, level, l, n - 1) + (if level[n - 1] == l then [Negation(asg, n - 1)] else [])
  }

  lemma LevelIsAssigned(asg: seq<VarState>, level: seq<int>, ante: seq<int>, trail: seq<int>, lim: seq<nat>)
    requires TrailOk(asg, trail) && LevelsOk(asg, level, ante, trail, lim)
    ensures forall v :: 0 <= v < |asg| && level[v] == |lim| ==> asg[v] != Unassigned && TrueLit(asg, v) in trail
  {
  }

  /** A false literal of a variable below n at the level. */
  ghost predicate FalseAtLevel(asg: seq<VarState>, level: seq<int>, l: int, n: nat, lit: int)
    requires n <= |asg| && |level| == |asg|
  {
    ValidLit(|asg|, lit) && Var(lit) < n && level[Var(lit)] == l && IsFalse(asg, lit)
  }

  /** The clause negates the assignments below n at the level, in the order of variables, and holds nothing else. */
  ghost predicate Negates(asg: seq<VarState>, level: seq<int>, l: int, n: nat, c: Clause)
    requires n <= |asg| && |level| == |asg|
  {
    (forall p :: 0 <= p < |c| ==> FalseAtLevel(asg, level, l, n, c[p])) &&
    (forall v {:trigger Negation(asg, v)} :: 0 <= v < n && level[v] == l ==> Negation(asg, v) in c) &&
    (forall p, q :: 0 <= p < q < |c| ==> Var(c[p]) < Var(c[q]))
  }

  lemma NegationIsFalse(asg: seq<VarState>, level: seq<int>, v: nat)
    requires v < |asg| && |level| == |asg| && asg[v] != Unassigned
    ensures FalseAtLevel(asg, level, level[v], v + 1, Negation(asg, v)) && Var(Negation(asg, v)) == v
    ensures Negation(asg, v) == -TrueLit(asg, v)
  {
  }

  lemma HigherBound(asg: seq<VarState>, level: seq<int>, l: int, n: nat, c: Clause)
    requires n < |asg| && |level| == |asg| && Negates(asg, level, l, n, c)
    ensures forall p :: 0 <= p < |c| ==> FalseAtLevel(asg, level, l, n + 1, c[p]) && Var(c[p]) < n
  {
    forall p | 0 <= p < |c| ensures FalseAtLevel(asg, level, l, n + 1, c[p]) && Var(c[p]) < n {
      assert FalseAtLevel(asg, level, l, n, c[p]);
    }
  }

  lemma NegatesMore(asg: seq<VarState>, level: seq<int>, l: int, n: nat, c: Clause)
    requires n < |asg| && |level| == |asg| && Negates(asg, level, l, n, c) && level[n] == l && asg[n] != Unassigned
    ensures Negates(asg, level, l, n + 1, c + [Negation(asg, n)])
  {
    hide FalseAtLevel, Negation, Var;
    HigherBound(asg, level, l, n, c);
    NegationIsFalse(asg, level, n);
    var d := c + [Negation(asg, n)];
    assert d[|c|] == Negation(asg, n);
    forall v | 0 <= v < n + 1 && level[v] == l ensures Negation(asg, v) in d {
      if v < n { assert Negation(asg, v) in c; }
    }
  }

  lemma NegatesSame(asg: seq<VarState>, level: seq<int>, l: int, n: nat, c: Clause)
    requires n < |asg| && |level| == |asg| && Negates(asg, level, l, n, c) && level[n] != l
    ensures Negates(asg, level, l, n + 1, c)
  {
    hide FalseAtLevel, Negation;
    HigherBound(asg, level, l, n, c);
  }

  lemma {:induction false} NegatedLevelIs(asg: seq<VarState>, level: seq<int>, l: int, n: nat)
    requires n <= |asg| && |level| == |asg|
    requires forall v :: 0 <= v < |asg| && level[v] == l ==> asg[v] != Unassigned
    ensures Negates(asg, level, l, n, NegatedLevel(asg, level, l, n))
  {
    if n > 0 {
      hide Negates, Negation;
      NegatedLevelIs(asg, level, l, n - 1);
      var c := NegatedLevel(asg, level, l, n - 1);
      if level[n - 1] == l {
        NegatesMore(asg, level, l, n - 1, c);
      } else {
        NegatesSame(asg, level, l, n - 1, c);
        assert c + [] == c;
      }
    }
  }

  /** Variable v is assigned by a trail entry at position k or later. */
  ghost predicate Beyond(trail: seq<int>, k: nat, v: nat) {
    exists i :: k <= i < |trail| && trail[i] != 0 && Var(trail[i]) == v
  }

  /** Entries of the trail from position k on have been undone, the rest of the state is as before. */
  ghost predicate Undone(trail: seq<int>, k: nat, asg: seq<VarState>, level: seq<int>, ante: seq<int>, phase: seq<bool>,
                         asg': seq<VarState>, level': seq<int>, ante': seq<int>, phase': seq<bool>)
    requires TrailOk(asg, trail)
  {
    |level| == |ante| == |phase| == |asg| && |level'| == |ante'| == |phase'| == |asg'| == |asg| &&
    forall v :: 0 <= v < |asg| ==>
      if Beyond(trail, k, v)
      then asg'[v] == Unassigned && level'[v] == -1 && ante'[v] == -1 && phase'[v] == (asg[v] == True)
      else asg'[v] == asg[v] && level'[v] == level[v] && ante'[v] == ante[v] && phase'[v] == phase[v]
  }

  lemma UndoneNothing(asg: seq<VarState>, level: seq<int>, ante: seq<int>, phase: seq<bool>, trail: seq<int>)
    requires TrailOk(asg, trail) && |level| == |ante| == |phase| == |asg|
    ensures Undone(trail, |trail|, asg, level, ante, phase, asg, level, ante, phase)
  {
  }

  lemma UndoneOneMore(trail: seq<int>, k: nat, asg: seq<VarState>, level: seq<int>, ante: seq<int>, phase: seq<bool>,
                      asg': seq<VarState>, level': seq<int>, ante': seq<int>, phase': seq<bool>)
    requires TrailOk(asg, trail) && k < |trail|
    requires Undone(trail, k + 1, asg, level, ante, phase, asg', level', ante', phase')
    ensures |level'| == |ante'| == |phase'| == |asg'| && ValidLit(|asg'|, trail[k])
    ensures level'[Var(trail[k])] == level[Var(trail[k])]
    ensures var v := Var(trail[k]);
            Undone(trail, k, asg, level, ante, phase,
                   asg'[v := Unassigned], level'[v := -1], ante'[v := -1], phase'[v := asg'[v] == True])
  {
    var v := Var(trail[k]);
    assert !Beyond(trail, k + 1, v);
    forall u: nat | u < |asg| && u != v
      ensures Beyond(trail, k, u) <==> Beyond(trail, k + 1, u)
    {
    }
    assert Beyond(trail, k, v);
  }

  /** Where the trail is cut when everything above level to is undone. */
  function CutAt(trail: seq<int>, lim: seq<nat>, to: nat): nat
    requires to <= |lim|
  {
    if to == |lim| then |trail| else lim[to]
  }

  lemma LevelsAroundCut(asg: seq<VarState>, level: seq<int>, ante: seq<int>, trail: seq<int>, lim: seq<nat>, to: nat)
    requires TrailOk(asg, trail) && LevelsOk(asg, level, ante, trail, lim) && to <= |lim|
    ensures CutAt(trail, lim, to) <= |trail|
    ensures forall i :: 0 <= i < |trail| ==> (level[Var(trail[i])] <= to <==> i < CutAt(trail, lim, to))
    ensures forall v :: 0 <= v < |asg| ==>
              (level[v] > to <==> Beyond(trail, CutAt(trail, lim, to), v))
  {
    forall v | 0 <= v < |asg| && level[v] > to
      ensures Beyond(trail, CutAt(trail, lim, to), v)
    {
      assert TrueLit(asg, v) in trail;
    }
  }

  lemma UndoneKeepsCore(asg: seq<VarState>, level: seq<int>, ante: seq<int>, phase: seq<bool>, trail: seq<int>,
                        lim: seq<nat>,
                        clauses: seq<Clause>, to: nat,
                        asg': seq<VarState>, level': seq<int>, ante': seq<int>, phase': seq<bool>)
    requires TrailOk(asg, trail) && LevelsOk(asg, level, ante, trail, lim) && ReasonsOk(asg, clauses, ante, trail)
    requires to <= |lim| && CutAt(trail, lim, to) <= |trail|
    requires |ante| == |asg| && |ante'| == |asg'| == |asg|
    requires Undone(trail, CutAt(trail, lim, to), asg, level, ante, phase, asg', level', ante', phase')
    ensures TrailOk(asg', trail[..CutAt(trail, lim, to)])
    ensures LevelsOk(asg', level', ante', trail[..CutAt(trail, lim, to)], lim[..to])
    ensures ReasonsOk(asg', clauses, ante', trail[..CutAt(trail, lim, to)])
  {
    hide ReasonsOk, LevelsOk, Undone;
    var cut := CutAt(trail, lim, to);
    UndonePrefix(asg, level, ante, phase, trail, cut, asg', level', ante', phase');
    UndoneLevels(asg, level, ante, phase, trail, lim, to, asg', level', ante', phase');
    CutReasons(asg, asg', clauses, ante, ante', trail, cut);
  }

  lemma UndoneLevels(asg: seq<VarState>, level: seq<int>, ante: seq<int>, phase: seq<bool>, trail: seq<int>,
                     lim: seq<nat>, to: nat,
                     asg': seq<VarState>, level': seq<int>, ante': seq<int>, phase': seq<bool>)
    requires TrailOk(asg, trail) && LevelsOk(asg, level, ante, trail, lim)
    requires to <= |lim| && CutAt(trail, lim, to) <= |trail| && TrailOk(asg', trail[..CutAt(trail, lim, to)])
    requires Undone(trail, CutAt(trail, lim, to), asg, level, ante, phase, asg', level', ante', phase')
    requires forall i :: 0 <= i < CutAt(trail, lim, to) ==>
               level'[Var(trail[i])] == level[Var(trail[i])] && ante'[Var(trail[i])] == ante[Var(trail[i])]
    ensures LevelsOk(asg', level', ante', trail[..CutAt(trail, lim, to)], lim[..to])
  {
    var cut := CutAt(trail, lim, to);
    LeveledCut(Marks(level, trail), Marks(ante, trail), lim, to);
    UnassignedHasNoLevel(asg, level, ante, phase, trail, lim, cut, asg', level', ante', phase');
    hide Undone, TrailOk, Leveled;
    assert ValidClause(|asg'|, trail[..cut]);
    assert Marks(level', trail[..cut]) == Marks(level, trail)[..cut];
    assert Marks(ante', trail[..cut]) == Marks(ante, trail)[..cut];
  }

  lemma UnassignedHasNoLevel(asg: seq<VarState>, level: seq<int>, ante: seq<int>, phase: seq<bool>, trail: seq<int>,
                             lim: seq<nat>, cut: nat,
                             asg': seq<VarState>, level': seq<int>, ante': seq<int>, phase': seq<bool>)
    requires TrailOk(asg, trail) && LevelsOk(asg, level, ante, trail, lim)
    requires Undone(trail, cut, asg, level, ante, phase, asg', level', ante', phase')
    ensures |level'| == |ante'| == |asg'|
    ensures forall v :: 0 <= v < |asg'| && asg'[v] == Unassigned ==> level'[v] == -1 && ante'[v] == -1
  {
  }

  lemma UndonePrefix(asg: seq<VarState>, level: seq<int>, ante: seq<int>, phase: seq<bool>, trail: seq<int>, cut: nat,
                     asg': seq<VarState>, level': seq<int>, ante': seq<int>, phase': seq<bool>)
    requires TrailOk(asg, trail) && cut <= |trail|
    requires Undone(trail, cut, asg, level, ante, phase, asg', level', ante', phase')
    ensures TrailOk(asg', trail[..cut])
    ensures forall i :: 0 <= i < cut ==>
            level'[Var(trail[i])] == level[Var(trail[i])] && ante'[Var(trail[i])] == ante[Var(trail[i])]
  {
    var trail' := trail[..cut];
    forall i | 0 <= i < cut
      ensures ValidLit(|asg'|, trail'[i]) && LitValue(asg', trail'[i])
      ensures level'[Var(trail[i])] == level[Var(trail[i])] && ante'[Var(trail[i])] == ante[Var(trail[i])]
    {
      assert trail'[i] == trail[i];
    }
    forall v | 0 <= v < |asg'| && asg'[v] != Unassigned
      ensures TrueLit(asg', v) in trail'
    {
      var i :| 0 <= i < |trail| && trail[i] == TrueLit(asg, v);
      assert trail'[i] == trail[i];
    }
  }

  lemma CutReasons(asg: seq<VarState>, asg': seq<VarState>, clauses: seq<Clause>, ante: seq<int>, ante': seq<int>,
                   trail: seq<int>, cut: nat)
    requires TrailOk(asg, trail) && |ante| == |asg| && ReasonsOk(asg, clauses, ante, trail)
    requires cut <= |trail| && TrailOk(asg', trail[..cut]) && |ante'| == |asg'| == |asg|
    requires forall i :: 0 <= i < cut ==> ante'[Var(trail[i])] == ante[Var(trail[i])]
    ensures ReasonsOk(asg', clauses, ante', trail[..cut])
  {
    var trail' := trail[..cut];
    forall i | 0 <= i < |trail'| && ante'[Var(trail'[i])] != -1
      ensures 0 <= ante'[Var(trail'[i])] < |clauses|
      ensures Forces(clauses[ante'[Var(trail'[i])]], trail'[..i], trail'[i])
    {
      assert trail'[..i] == trail[..i] && trail'[i] == trail[i];
    }
  }

  /** Guards point to levels at most their own, so whatever keeps its falsified watch keeps its guard. */
  lemma UndoneKeepsSettled(asg: seq<VarState>, level: seq<int>, ante: seq<int>, phase: seq<bool>, trail: seq<int>,
                           lim: seq<nat>,
                           clauses: seq<Clause>, to: nat,
                           asg': seq<VarState>, level': seq<int>, ante': seq<int>, phase': seq<bool>)
    requires TrailOk(asg, trail) && LevelsOk(asg, level, ante, trail, lim) && ValidDb(|asg|, clauses)
    requires to <= |lim| && CutAt(trail, lim, to) <= |trail|
    requires Undone(trail, CutAt(trail, lim, to), asg, level, ante, phase, asg', level', ante', phase')
    requires Settled(asg, level, clauses, trail[..CutAt(trail, lim, to)])
    ensures Settled(asg', level', clauses, trail[..CutAt(trail, lim, to)])
  {
    LevelsAroundCut(asg, level, ante, trail, lim, to);
    var kept := trail[..CutAt(trail, lim, to)];
    forall ci, a | 0 <= ci < |clauses| && 0 <= a <= 1 && a < |clauses[ci]| && -clauses[ci][a] in kept
      ensures Guarded(asg', level', clauses[ci], a)
    {
      assert Guarded(asg, level, clauses[ci], a);
      var i :| 0 <= i < |kept| && kept[i] == -clauses[ci][a];
      assert level[Var(trail[i])] <= to;
    }
  }

  // ------------------------------------------------------------ adding a clause

  /** The watch lists after clause number ci has been entered under its first two literals. */
  function WithWatches(watches: seq<seq<nat>>, c: Clause, ci: nat): seq<seq<nat>>
    requires forall p :: 0 <= p < |c| ==> c[p] != 0 && LitIndex(c[p]) < |watches|
  {
    if |c| == 0 then watches else
      var first := watches[LitIndex(c[0]) := watches[LitIndex(c[0])] + [ci]];
      if |c| == 1 then first else first[LitIndex(c[1]) := first[LitIndex(c[1])] + [ci]]
  }

  lemma AddClauseWatches(n: nat, clauses: seq<Clause>, watches: seq<seq<nat>>, c: Clause)
    requires ValidDb(n, clauses) && |watches| == 2 * n && WatchesOk(n, clauses, watches) && ValidClause(n, c)
    requires forall p :: 0 <= p < |c| ==> c[p] != 0 && LitIndex(c[p]) < |watches|
    ensures ValidDb(n, clauses + [c])
    ensures |WithWatches(watches, c, |clauses|)| == 2 * n
    ensures WatchesOk(n, clauses + [c], WithWatches(watches, c, |clauses|))
  {
    var watches', clauses' := WithWatches(watches, c, |clauses|), clauses + [c];
    forall w | 0 <= w < |watches|
      ensures forall i :: 0 <= i < |watches'[w]| ==> watches'[w][i] < |clauses'|
    {
      assert forall x :: x in watches'[w] ==> x in watches[w] || x == |clauses|;
    }
    forall w, ci: nat | 0 <= w < |watches'| && ci < |clauses'|
      ensures multiset(watches'[w])[ci] == WatchMult(clauses'[ci], w)
    {
      WithWatchesCount(watches, c, |clauses|, w, ci);
      if ci < |clauses| {
        assert multiset(watches[w])[ci] == WatchMult(clauses[ci], w);
      } else {
        InSeqIffCounted(watches[w], ci);
      }
    }
  }

  lemma WithWatchesCount(watches: seq<seq<nat>>, c: Clause, ci: nat, w: nat, x: nat)
    requires forall p :: 0 <= p < |c| ==> c[p] != 0 && LitIndex(c[p]) < |watches|
    requires w < |watches|
    ensures |WithWatches(watches, c, ci)| == |watches|
    ensures multiset(WithWatches(watches, c, ci)[w])[x] == multiset(watches[w])[x] +
            (if x == ci then WatchMult(c, w) else 0)
  {
  }

  /** A clause of unassigned literals is settled from the start, and old reasons still hold. */
  lemma AddClauseCore(asg: seq<VarState>, level: seq<int>, ante: seq<int>, trail: seq<int>, clauses: seq<Clause>,
                      c: Clause)
    requires TrailOk(asg, trail) && |level| == |ante| == |asg| && ValidDb(|asg|, clauses) && ValidClause(|asg|, c)
    requires ReasonsOk(asg, clauses, ante, trail) && Settled(asg, level, clauses, trail)
    requires forall p :: 0 <= p < |c| ==> IsUnassigned(asg, c[p])
    ensures ValidDb(|asg|, clauses + [c]) && ReasonsOk(asg, clauses + [c], ante, trail)
    ensures Settled(asg, level, clauses + [c], trail)
  {
    forall p | 0 <= p < |c| ensures -c[p] !in trail {
      AssignedIsOnTrail(asg, trail, c[p]);
    }
  }

  /** Assigning one more literal does not unsettle what was settled. */
  lemma ExtendSettledOnly(asg: seq<VarState>, level: seq<int>, trail: seq<int>, clauses: seq<Clause>, lit: int, l: int)
    requires ValidDb(|asg|, clauses) && |level| == |asg| && TrailOk(asg, trail)
    requires ValidLit(|asg|, lit) && IsUnassigned(asg, lit)
    requires Settled(asg, level, clauses, trail)
    ensures Settled(Assigned(asg, lit), level[Var(lit) := l], clauses, trail)
  {
    forall ci, a | 0 <= ci < |clauses| && 0 <= a <= 1 && a < |clauses[ci]| && -clauses[ci][a] in trail
      ensures Guarded(Assigned(asg, lit), level[Var(lit) := l], clauses[ci], a)
    {
      AssignedIsOnTrail(asg, trail, clauses[ci][a]);
      assert Guarded(asg, level, clauses[ci], a);
    }
  }

  lemma EmptyTrailReasons(asg: seq<VarState>, level: seq<int>, clauses: seq<Clause>, ante: seq<int>)
    requires TrailOk(asg, []) && |ante| == |level| == |asg| && ValidDb(|asg|, clauses)
    ensures ReasonsOk(asg, clauses, ante, []) && Settled(asg, level, clauses, [])
  {
  }

  lemma FreshState(n: nat, asg: seq<VarState>, level: seq<int>, ante: seq<int>, watches: seq<seq<nat>>)
    requires |asg| == |level| == |ante| == n && |watches| == 2 * n
    requires forall v :: 0 <= v < n ==> asg[v] == Unassigned && level[v] == -1 && ante[v] == -1
    requires forall w :: 0 <= w < 2 * n ==> watches[w] == []
    ensures TrailOk(asg, []) && LevelsOk(asg, level, ante, [], []) && ReasonsOk(asg, [], ante, [])
    ensures WatchesOk(n, [], watches)
  {
  }

  // ------------------------------------------------------------ learning

  /** Above level zero the learned clause holds at least the negated decision. */
  lemma DecisionLearned(asg: seq<VarState>, level: seq<int>, ante: seq<int>, trail: seq<int>, lim: seq<nat>, c: Clause)
    requires TrailOk(asg, trail) && LevelsOk(asg, level, ante, trail, lim) && |lim| > 0
    requires c == NegatedLevel(asg, level, |lim|, |asg|)
    ensures c != []
  {
    LevelIsAssigned(asg, level, ante, trail, lim);
    NegatedLevelIs(asg, level, |lim|, |asg|);
    var v := Var(trail[lim[|lim| - 1]]);
    assert level[v] == |lim|;
    assert Negation(asg, v) in c;
  }

  /** Undoing everything above level zero frees the literals of the learned clause. */
  lemma FreedByUndo(asg: seq<VarState>, level: seq<int>, ante: seq<int>, phase: seq<bool>, trail: seq<int>,
                    lim: seq<nat>, c: Clause,
                    asg': seq<VarState>, level': seq<int>, ante': seq<int>, phase': seq<bool>)
    requires TrailOk(asg, trail) && LevelsOk(asg, level, ante, trail, lim) && |lim| > 0
    requires c == NegatedLevel(asg, level, |lim|, |asg|) && CutAt(trail, lim, 0) <= |trail|
    requires Undone(trail, CutAt(trail, lim, 0), asg, level, ante, phase, asg', level', ante', phase')
    ensures ValidClause(|asg|, c) && AllFalse(asg, c)
    ensures |asg'| == |asg| && forall p :: 0 <= p < |c| ==> IsUnassigned(asg', c[p])
  {
    LevelIsAssigned(asg, level, ante, trail, lim);
    NegatedLevelIs(asg, level, |lim|, |asg|);
    LevelsAroundCut(asg, level, ante, trail, lim, 0);
  }

  lemma LevelZero(asg: seq<VarState>, level: seq<int>, ante: seq<int>, trail: seq<int>, lim: seq<nat>)
    requires TrailOk(asg, trail) && LevelsOk(asg, level, ante, trail, lim) && lim == []
    ensures forall i :: 0 <= i < |trail| ==> level[Var(trail[i])] == 0 && ante[Var(trail[i])] != -1
  {
  }

  lemma FirstLimit(asg: seq<VarState>, level: seq<int>, ante: seq<int>, trail: seq<int>, lim: seq<nat>)
    requires TrailOk(asg, trail) && LevelsOk(asg, level, ante, trail, lim)
    ensures forall d :: 0 <= d < |lim| ==> lim[0] <= lim[d] < |trail|
  {
    forall d | 0 <= d < |lim| ensures lim[0] <= lim[d] < |trail| {
      assert level[Var(trail[lim[d]])] == d + 1;
    }
  }

  lemma UndoneNone(trail: seq<int>, asg: seq<VarState>, level: seq<int>, ante: seq<int>, phase: seq<bool>,
                   asg': seq<VarState>, level': seq<int>, ante': seq<int>, phase': seq<bool>)
    requires TrailOk(asg, trail)
    requires Undone(trail, |trail|, asg, level, ante, phase, asg', level', ante', phase')
    ensures asg' == asg && level' == level && ante' == ante && phase' == phase
  {
  }
}
