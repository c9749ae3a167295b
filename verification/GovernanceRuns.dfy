/** What holds of every run of the voting system. */
module GovernanceRuns {
  import opened Words
  import opened Governance

  datatype State = State(proposals: seq<Proposal>, nextId: nat)

  function Next(s: State, e: Event): State {
    State(After(s.proposals, s.nextId, e), if e.Submit? && AcceptsSubmit(e) then (s.nextId + 1) % TWO_32 else s.nextId)
  }

  function Run(events: seq<Event>): State {
    if events == [] then State([], 1) else Next(Run(events[..|events| - 1]), events[|events| - 1])
  }

  /** Running the events through the class leaves the state of the run. */
  method Replay(events: seq<Event>) returns (g: GovernanceState)
    ensures fresh(g) && State(g.proposals, g.nextId) == Run(events)
  {
    g := new GovernanceState();
    for i := 0 to |events|
      invariant fresh(g) && State(g.proposals, g.nextId) == Run(events[..i])
    {
      assert events[..i + 1][..i] == events[..i];
      match events[i] {
        case Submit(_, _, _, _, _, _, _, _) => var ok := g.SubmitProposal(events[i]);
        case Vote(_, _, _, _, _) => var ok := g.CastVote(events[i]);
        case Process(height, totalSupply) => g.ProcessHeight(height, totalSupply);
      }
    }
    assert events[..|events|] == events;
  }

  // ------------------------------------------------ status and frozen tallies

  ghost predicate MayBecome(a: ProposalStatus, b: ProposalStatus) {
    a == b || (a == ACTIVE && b != ACTIVE) || (a == PASSED && b == ACTIVATED)
  }

  /** One event: the status moves forward only, and tallies and voters change only while voting is open. */
  lemma StatusMovesForward(s: State, e: Event, i: nat)
    requires i < |s.proposals|
    ensures var p, p' := s.proposals[i], Next(s, e).proposals[i];
            MayBecome(p.status, p'.status) && p'.id == p.id &&
            p'.voteEndHeight == p.voteEndHeight && p'.activationHeight == p.activationHeight &&
            (p.status != ACTIVE || p'.status != ACTIVE ==>
             p'.voters == p.voters && forall c :: Tally(p', c) == Tally(p, c))
  {
  }

  /** The same between any two moments of a run. */
  lemma {:induction false} StatusMovesForwardInRun(events: seq<Event>, k: nat, i: nat)
    requires k <= |events| && i < |Run(events[..k]).proposals|
    ensures i < |Run(events).proposals|
    ensures var p, p' := Run(events[..k]).proposals[i], Run(events).proposals[i];
            MayBecomeLater(p.status, p'.status) &&
            p'.voteEndHeight == p.voteEndHeight && p'.activationHeight == p.activationHeight &&
            (p.status != ACTIVE ==> p'.voters == p.voters && forall c :: Tally(p', c) == Tally(p, c))
    decreases |events| - k
  {
    if k == |events| {
      assert events[..k] == events;
    } else {
      assert events[..k + 1][..k] == events[..k];
      StatusMovesForward(Run(events[..k]), events[k], i);
      StatusMovesForwardInRun(events, k + 1, i);
    }
  }

  ghost predicate MayBecomeLater(a: ProposalStatus, b: ProposalStatus) {
    a == b || a == ACTIVE || (a == PASSED && b == ACTIVATED)
  }

  predicate HasPassed(p: Proposal) {
    p.status == PASSED || p.status == ACTIVATED
  }

  /**
   Why a proposal p stands where it does, given the event that closed its vote: that event came at the end
   of the voting period or later, and p passed exactly if it met both thresholds, expired exactly if too few
   took part.
   */
  ghost predicate ClosedRightly(p: Proposal, e: Event) {
    e.Process? && e.height >= p.voteEndHeight &&
    (HasPassed(p) <==> MeetsThresholds(p, e.totalSupply)) &&
    (p.status == EXPIRED <==> ParticipationRate(p, e.totalSupply) < PARTICIPATION_MIN)
  }

  /** Event e closed the vote on proposal number i, for a reason that its later self p shows. */
  ghost predicate Closes(before: State, e: Event, i: nat, p: Proposal) {
    i < |before.proposals| && before.proposals[i].status == ACTIVE && Next(before, e).proposals[i].status != ACTIVE &&
    (HasPassed(p) <==> HasPassed(Next(before, e).proposals[i])) && ClosedRightly(p, e)
  }

  /** Event e activated proposal number i, at its activation height or later. */
  ghost predicate Activates(before: State, e: Event, i: nat) {
    i < |before.proposals| && before.proposals[i].status != ACTIVATED &&
    Next(before, e).proposals[i].status == ACTIVATED &&
    e.Process? && e.height >= before.proposals[i].activationHeight
  }

  ghost predicate ClosedBy(events: seq<Event>, i: nat, k: nat, p: Proposal)
    requires k < |events|
  {
    Closes(Run(events[..k]), events[k], i, p)
  }

  ghost predicate ActivatedBy(events: seq<Event>, i: nat, k: nat)
    requires k < |events|
  {
    Activates(Run(events[..k]), events[k], i)
  }

  /** One event that closes a vote does so rightly; one that activates a proposal does so in time. */
  lemma ClosingStep(s: State, e: Event, i: nat)
    requires i < |s.proposals|
    ensures var p, p' := s.proposals[i], Next(s, e).proposals[i];
            (p.status == ACTIVE && p'.status != ACTIVE ==> ClosedRightly(p', e)) &&
            (p.status != ACTIVATED && p'.status == ACTIVATED ==> e.Process? && e.height >= p.activationHeight)
  {
    var p, p' := s.proposals[i], Next(s, e).proposals[i];
    StatusMovesForward(s, e, i);
    if p.status == ACTIVE && p'.status != ACTIVE {
      assert e.Process?;
      SameRates(p, p');
    }
  }

  lemma ClosesNow(s: State, e: Event, i: nat)
    requires i < |s.proposals| && s.proposals[i].status == ACTIVE && Next(s, e).proposals[i].status != ACTIVE
    ensures Closes(s, e, i, Next(s, e).proposals[i])
  {
    ClosingStep(s, e, i);
    hide Next;
  }

  lemma SameRates(p: Proposal, p': Proposal)
    requires forall c :: Tally(p', c) == Tally(p, c)
    ensures forall supply :: MeetsThresholds(p, supply) == MeetsThresholds(p', supply)
    ensures forall supply :: ParticipationRate(p, supply) == ParticipationRate(p', supply)
  {
    assert Tally(p', APPROVE) == Tally(p, APPROVE);
    assert Tally(p', REJECT) == Tally(p, REJECT);
    assert Tally(p', ABSTAIN) == Tally(p, ABSTAIN);
  }

  /** What closed a vote still explains it after one more event. */
  lemma StillClosed(before: State, closing: Event, s: State, e: Event, i: nat)
    requires i < |s.proposals| && s.proposals[i].status != ACTIVE && Closes(before, closing, i, s.proposals[i])
    ensures Closes(before, closing, i, Next(s, e).proposals[i])
  {
    StatusMovesForward(s, e, i);
    hide Next;
    SameRates(s.proposals[i], Next(s, e).proposals[i]);
  }

  /**
   A proposal that is no longer open was closed by one event of the run, at the end of its voting period or
   later: it passed exactly if its tallies, final since then, met both thresholds under the supply of that
   moment, and it expired exactly if participation was too low.
   */
  lemma {:induction false} ClosedForAReason(events: seq<Event>, i: nat)
    requires i < |Run(events).proposals| && Run(events).proposals[i].status != ACTIVE
    ensures exists k :: 0 <= k < |events| && ClosedBy(events, i, k, Run(events).proposals[i])
  {
    var front, last := events[..|events| - 1], events[|events| - 1];
    hide Next, ClosedRightly, HasPassed, Closes;
    NewIsActive(front, last, i);
    if Run(front).proposals[i].status == ACTIVE {
      ClosesNow(Run(front), last, i);
      assert ClosedBy(events, i, |front|, Run(events).proposals[i]);
    } else {
      ClosedForAReason(front, i);
      var k :| 0 <= k < |front| && ClosedBy(front, i, k, Run(front).proposals[i]);
      StillClosed(Run(front[..k]), front[k], Run(front), last, i);
      assert events[..k] == front[..k];
      assert ClosedBy(events, i, k, Run(events).proposals[i]);
    }
  }

  /** A proposal that the last event added is open. */
  lemma NewIsActive(front: seq<Event>, last: Event, i: nat)
    requires i < |Next(Run(front), last).proposals| && Next(Run(front), last).proposals[i].status != ACTIVE
    ensures i < |Run(front).proposals|
  {
  }

  /** An activated proposal was activated by one event of the run, at its activation height or later. */
  lemma {:induction false} ActivatedForAReason(events: seq<Event>, i: nat)
    requires i < |Run(events).proposals| && Run(events).proposals[i].status == ACTIVATED
    ensures exists k :: 0 <= k < |events| && ActivatedBy(events, i, k)
  {
    var front, last := events[..|events| - 1], events[|events| - 1];
    hide Next;
    NewIsActive(front, last, i);
    if Run(front).proposals[i].status == ACTIVATED {
      ActivatedForAReason(front, i);
      var k :| 0 <= k < |front| && ActivatedBy(front, i, k);
      assert events[..k] == front[..k];
      assert ActivatedBy(events, i, k);
    } else {
      ClosingStep(Run(front), last, i);
      assert ActivatedBy(events, i, |front|);
    }
  }

  // ------------------------------------------------ tallies and weights

  /** For each voter the latest choice and the balance it was cast with. */
  type Ledger = map<string, (VoteChoice, nat)>

  ghost function WeightsFor(ledger: Ledger, c: VoteChoice): map<string, nat> {
    map v | v in ledger :: if ledger[v].0 == c then ledger[v].1 else 0
  }

  ghost predicate TallyMatches(p: Proposal, ledger: Ledger, c: VoteChoice) {
    Tally(p, c) == Sum(WeightsFor(ledger, c)) % TWO_64
  }

  ghost predicate Weighed(p: Proposal, ledger: Ledger) {
    p.voters.Keys == ledger.Keys &&
    (forall v :: v in ledger ==> p.voters[v] == ledger[v].0 && 0 < ledger[v].1 < TWO_64)
  }

  /** Every tally is the sum of the weights of those whose latest choice it is. */
  ghost predicate TalliesMatch(p: Proposal, ledger: Ledger) {
    forall c :: TallyMatches(p, ledger, c)
  }

  lemma WeightsAfter(ledger: Ledger, v: string, choice: VoteChoice, w: nat, c: VoteChoice)
    ensures var had := if v in ledger && ledger[v].0 == c then ledger[v].1 else 0;
            Sum(WeightsFor(ledger[v := (choice, w)], c)) == Sum(WeightsFor(ledger, c)) - had +
            (if choice == c then w else 0)
  {
    SumUpdate(WeightsFor(ledger, c), v, if choice == c then w else 0);
    assert WeightsFor(ledger[v := (choice, w)], c) == WeightsFor(ledger, c)[v := if choice == c then w else 0];
  }

  /**
   A vote keeps the tallies right if and only if it is the voter's first, or is cast with the very
   balance of the earlier one.
   */
  lemma VoteKeepsTalliesExactly(p: Proposal, ledger: Ledger, v: string, choice: VoteChoice, balance: nat)
    requires Weighed(p, ledger) && TalliesMatch(p, ledger) && 0 < balance < TWO_64
    ensures Weighed(VotedOn(p, v, choice, balance), ledger[v := (choice, balance)])
    ensures TalliesMatch(VotedOn(p, v, choice, balance), ledger[v := (choice, balance)])
            <==> v !in ledger || ledger[v].1 == balance
  {
    var p', ledger' := VotedOn(p, v, choice, balance), ledger[v := (choice, balance)];
    forall c
      ensures TallyMatches(p', ledger', c) <==> (v in ledger && ledger[v].0 == c ==> ledger[v].1 == balance)
    {
      OneTallyExactly(p, ledger, v, choice, balance, c);
    }
    hide TallyMatches, VotedOn;
    if v in ledger {
      assert TallyMatches(p', ledger', ledger[v].0) <==> ledger[v].1 == balance;
    }
  }

  lemma OneTallyExactly(p: Proposal, ledger: Ledger, v: string, choice: VoteChoice, balance: nat, c: VoteChoice)
    requires Weighed(p, ledger) && TallyMatches(p, ledger, c) && 0 < balance < TWO_64
    ensures TallyMatches(VotedOn(p, v, choice, balance), ledger[v := (choice, balance)], c) <==>
            (v in ledger && ledger[v].0 == c ==> ledger[v].1 == balance)
  {
    WeightsAfter(ledger, v, choice, balance, c);
    var s := Sum(WeightsFor(ledger, c));
    hide WeightsFor, Sum;
    if v in ledger && ledger[v].0 == c {
      TallyAlgebra(s, balance, ledger[v].1);
    } else {
      TallyAlgebra(s, 0, 0);
    }
  }

  /** Undoing b where w was counted is right only for b == w. */
  lemma TallyAlgebra(s: nat, b: nat, w: nat)
    requires b < TWO_64 && w < TWO_64
    ensures Sub64(s % TWO_64, b) == (s - w) % TWO_64 <==> b == w
    ensures Add64(Sub64(s % TWO_64, b), b) == (s - w + b) % TWO_64 <==> b == w
    ensures forall x: nat :: Add64(s % TWO_64, x) == (s + x) % TWO_64
  {
    ReduceFirst(s, -(b as int));
    ReduceFirst(s - b, b);
    SameRemainder(s - b, s - w);
    SameRemainder(s, s - w + b);
    forall x: nat ensures Add64(s % TWO_64, x) == (s + x) % TWO_64 { ReduceFirst(s, x); }
  }

  // ------------------------------------------------ tallies over whole runs

  function LedgersAfter(s: State, ledgers: seq<Ledger>, e: Event): (r: seq<Ledger>)
    requires |ledgers| == |s.proposals|
    ensures |r| == |Next(s, e).proposals|
  {
    match e
    case Submit(_, _, _, _, _, _, _, _) => if AcceptsSubmit(e) then ledgers + [map[]] else ledgers
    case Vote(id, voter, choice, balance, _) =>
      if AcceptsVote(s.proposals, e) then
        var i := FirstActive(s.proposals, id);
        ledgers[i := ledgers[i][voter := (choice, balance)]]
      else ledgers
    case Process(_, _) => ledgers
  }

  function Ledgers(events: seq<Event>): (r: seq<Ledger>)
    ensures |r| == |Run(events).proposals|
  {
    if events == [] then [] else
      LedgersAfter(Run(events[..|events| - 1]), Ledgers(events[..|events| - 1]), events[|events| - 1])
  }

  /** The last event, if it is an accepted repeated vote, is cast with the balance of the earlier vote. */
  ghost predicate SteadyLast(events: seq<Event>)
    requires events != []
  {
    var front, e := events[..|events| - 1], events[|events| - 1];
    e.Vote? && AcceptsVote(Run(front).proposals, e) ==>
      var ledger := Ledgers(front)[FirstActive(Run(front).proposals, e.id)];
      e.balance < TWO_64 && (e.voter in ledger ==> ledger[e.voter].1 == e.balance)
  }

  /** While every repeated vote is cast with an unchanged balance, all tallies are right. */
  lemma {:induction false} TalliesMatchInRun(events: seq<Event>)
    requires forall k :: 0 < k <= |events| ==> SteadyLast(events[..k])
    ensures forall i :: 0 <= i < |Ledgers(events)| ==>
              Weighed(Run(events).proposals[i], Ledgers(events)[i]) &&
              TalliesMatch(Run(events).proposals[i], Ledgers(events)[i])
  {
    if events != [] {
      var front, e := events[..|events| - 1], events[|events| - 1];
      assert forall k :: 0 < k <= |front| ==> front[..k] == events[..k];
      TalliesMatchInRun(front);
      assert events[..|events|] == events && SteadyLast(events);
      forall i | 0 <= i < |Ledgers(events)|
        ensures Weighed(Run(events).proposals[i], Ledgers(events)[i]) &&
                TalliesMatch(Run(events).proposals[i], Ledgers(events)[i])
      {
        TalliesMatchStep(Run(front), Ledgers(front), e, i);
      }
    }
  }

  lemma TalliesMatchStep(s: State, ledgers: seq<Ledger>, e: Event, i: nat)
    requires |ledgers| == |s.proposals| && i < |LedgersAfter(s, ledgers, e)|
    requires forall k :: 0 <= k < |ledgers| ==>
             Weighed(s.proposals[k], ledgers[k]) && TalliesMatch(s.proposals[k], ledgers[k])
    requires e.Vote? && AcceptsVote(s.proposals, e) ==>
               var ledger := ledgers[FirstActive(s.proposals, e.id)];
               e.balance < TWO_64 && (e.voter in ledger ==> ledger[e.voter].1 == e.balance)
    ensures Weighed(Next(s, e).proposals[i], LedgersAfter(s, ledgers, e)[i])
    ensures TalliesMatch(Next(s, e).proposals[i], LedgersAfter(s, ledgers, e)[i])
  {
    if i == |ledgers| {
      EmptyTallies(Next(s, e).proposals[i]);
    } else if e.Vote? && AcceptsVote(s.proposals, e) && i == FirstActive(s.proposals, e.id) {
      VoteKeepsTalliesExactly(s.proposals[i], ledgers[i], e.voter, e.choice, e.balance);
    } else {
      SameTallies(s.proposals[i], Next(s, e).proposals[i], ledgers[i]);
    }
  }

  lemma EmptyTallies(p: Proposal)
    requires p.voters == map[] && forall c :: Tally(p, c) == 0
    ensures Weighed(p, map[]) && TalliesMatch(p, map[])
  {
    forall c ensures TallyMatches(p, map[], c) {
      assert WeightsFor(map[], c) == map[];
    }
  }

  lemma SameTallies(p: Proposal, p': Proposal, ledger: Ledger)
    requires Weighed(p, ledger) && TalliesMatch(p, ledger)
    requires p'.voters == p.voters && forall c :: Tally(p', c) == Tally(p, c)
    ensures Weighed(p', ledger) && TalliesMatch(p', ledger)
  {
    forall c ensures TallyMatches(p', ledger, c) {
      assert TallyMatches(p, ledger, c);
    }
  }

  // ------------------------------------------------ exactly the steady runs

  /** The balances of all votes are 64-bit numbers. */
  ghost predicate Bounded(events: seq<Event>) {
    forall k :: 0 <= k < |events| && events[k].Vote? ==> events[k].balance < TWO_64
  }

  /** Every proposal's voters are those of the ledger, whatever its tallies. */
  ghost predicate AllWeighed(events: seq<Event>) {
    forall i :: 0 <= i < |Ledgers(events)| ==> Weighed(Run(events).proposals[i], Ledgers(events)[i])
  }

  ghost predicate AllTalliesMatch(events: seq<Event>) {
    forall i :: 0 <= i < |Ledgers(events)| ==> TalliesMatch(Run(events).proposals[i], Ledgers(events)[i])
  }

  lemma {:induction false} WeighedInRun(events: seq<Event>)
    requires Bounded(events)
    ensures AllWeighed(events)
  {
    if events != [] {
      var front, e := events[..|events| - 1], events[|events| - 1];
      WeighedInRun(front);
      forall i | 0 <= i < |Ledgers(events)| ensures Weighed(Run(events).proposals[i], Ledgers(events)[i]) {
        WeighedStep(Run(front), Ledgers(front), e, i);
      }
    }
  }

  lemma WeighedStep(s: State, ledgers: seq<Ledger>, e: Event, i: nat)
    requires |ledgers| == |s.proposals| && i < |LedgersAfter(s, ledgers, e)|
    requires forall k :: 0 <= k < |ledgers| ==> Weighed(s.proposals[k], ledgers[k])
    requires e.Vote? ==> e.balance < TWO_64
    ensures Weighed(Next(s, e).proposals[i], LedgersAfter(s, ledgers, e)[i])
  {
    if i < |ledgers| {
      assert Weighed(s.proposals[i], ledgers[i]);
    }
  }

  /** If the tallies match before and after the last event, it was steady. */
  lemma MatchMeansSteady(events: seq<Event>)
    requires events != [] && Bounded(events)
    requires AllTalliesMatch(events[..|events| - 1]) && AllTalliesMatch(events)
    ensures SteadyLast(events)
  {
    var front, e := events[..|events| - 1], events[|events| - 1];
    WeighedInRun(front);
    if e.Vote? && AcceptsVote(Run(front).proposals, e) {
      var i := FirstActive(Run(front).proposals, e.id);
      hide Weighed, TalliesMatch, VotedOn;
      assert TalliesMatch(Run(events).proposals[i], Ledgers(events)[i]);
      VoteKeepsTalliesExactly(Run(front).proposals[i], Ledgers(front)[i], e.voter, e.choice, e.balance);
    }
  }

  /**
   Over a run: the tallies are right at every moment exactly if every repeated vote is cast with the balance
   of the earlier one.
   */
  lemma TalliesMatchExactly(events: seq<Event>)
    requires Bounded(events)
    ensures (forall k :: 0 <= k <= |events| ==> AllTalliesMatch(events[..k])) <==>
            (forall k :: 0 < k <= |events| ==> SteadyLast(events[..k]))
  {
    hide SteadyLast, AllTalliesMatch;
    if forall k :: 0 <= k <= |events| ==> AllTalliesMatch(events[..k]) {
      forall k | 0 < k <= |events| ensures SteadyLast(events[..k]) {
        assert events[..k][..k - 1] == events[..k - 1];
        MatchMeansSteady(events[..k]);
      }
    }
    if forall k :: 0 < k <= |events| ==> SteadyLast(events[..k]) {
      forall k | 0 <= k <= |events| ensures AllTalliesMatch(events[..k]) {
        assert forall j :: 0 <= j <= k ==> events[..k][..j] == events[..j];
        TalliesMatchInRun(events[..k]);
        AllMatch(events[..k]);
      }
    }
  }

  lemma AllMatch(events: seq<Event>)
    requires forall i :: 0 <= i < |Ledgers(events)| ==>
               Weighed(Run(events).proposals[i], Ledgers(events)[i]) &&
               TalliesMatch(Run(events).proposals[i], Ledgers(events)[i])
    ensures AllTalliesMatch(events)
  {
  }

  /** A voter who approves with balance 10 and then rejects with balance 20 leaves the approvals below zero, wrapped. */
  lemma ChangedBalanceWraps(p: Proposal)
    requires p.votesApprove == p.votesReject == p.votesAbstain == 0 && p.voters == map[]
    ensures VotedOn(VotedOn(p, "a", APPROVE, 10), "a", REJECT, 20).votesApprove == TWO_64 - 10
  {
  }
}
