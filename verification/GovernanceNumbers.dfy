/**
 The voting system in whole numbers: which terms a proposal gets, when exactly it passes, is rejected or
 expires, and the same in terms of the balances behind the votes.
 */
module GovernanceNumbers {
  import opened Words
  import opened Governance
  import opened GovernanceRuns

  /** Three quarters of the approving and rejecting votes approve. */
  predicate Approved(approve: nat, reject: nat) {
    approve + reject > 0 && 4 * approve >= 3 * (approve + reject)
  }

  /** The votes are at least 70 percent of the supply. */
  predicate Attended(votes: nat, supply: nat) {
    supply > 0 && 10 * votes >= 7 * supply
  }

  /** All votes and the supply are 64-bit numbers. */
  predicate Countable(p: Proposal, supply: nat) {
    Votes(p) < TWO_64 && supply < TWO_64
  }

  function Votes(p: Proposal): nat {
    p.votesApprove + p.votesReject + p.votesAbstain
  }

  lemma ShareAtLeast(part: nat, whole: nat, percent: nat)
    requires whole > 0
    ensures part as real / whole as real >= percent as real / 100.0 <==> 100 * part >= percent * whole
  {
    var share := part as real / whole as real;
    assert share * whole as real == part as real;
    assert percent as real / 100.0 * 100.0 == percent as real;
    ScaleUp(share, percent as real / 100.0, whole as real);
    assert (percent as real / 100.0) * whole as real * 100.0 == percent as real * whole as real;
    assert (percent * whole) as real == percent as real * whole as real;
  }

  lemma ScaleUp(a: real, b: real, c: real)
    requires c > 0.0
    ensures a >= b <==> a * c >= b * c
  {
    assert (a - b) * c == a * c - b * c;
    if a >= b { assert (a - b) * c >= 0.0; } else { assert (b - a) * c > 0.0; }
  }

  lemma ApprovalByNumbers(p: Proposal)
    requires p.votesApprove + p.votesReject < TWO_64
    ensures ApprovalRate(p) >= APPROVAL_THRESHOLD <==> Approved(p.votesApprove, p.votesReject)
  {
    var voted := p.votesApprove + p.votesReject;
    if voted > 0 { ShareAtLeast(p.votesApprove, voted, 75); }
  }

  lemma ParticipationByNumbers(p: Proposal, supply: nat)
    requires Countable(p, supply)
    ensures ParticipationRate(p, supply) >= PARTICIPATION_MIN <==> Attended(Votes(p), supply)
  {
    VotesAdd(p);
    hide Votes, Add64;
    if supply > 0 { ShareAtLeast(Votes(p), supply, 70); }
  }

  lemma VotesAdd(p: Proposal)
    requires Votes(p) < TWO_64
    ensures Add64(Add64(p.votesApprove, p.votesReject), p.votesAbstain) == Votes(p)
  {
  }

  /** What a proposal becomes when its vote is closed. */
  function Outcome(p: Proposal, supply: nat): ProposalStatus {
    if !Attended(Votes(p), supply) then EXPIRED
    else if Approved(p.votesApprove, p.votesReject) then PASSED
    else REJECTED
  }

  /**
   Processing, for every proposal at every height: an active one at the end of its period or later is closed
   with the outcome of the votes, and one that has passed, just now or before, is activated at its activation
   height or later. Nothing else changes.
   */
  lemma ProcessDecides(s: State, height: nat, supply: nat, i: nat)
    requires i < |s.proposals| && Countable(s.proposals[i], supply)
    ensures var p := s.proposals[i];
            var closed := if p.status == ACTIVE && height >= p.voteEndHeight then Outcome(p, supply) else p.status;
            var status := if closed == PASSED && height >= p.activationHeight then ACTIVATED else closed;
            Next(s, Process(height, supply)).proposals[i] == p.(status := status)
  {
    var p := s.proposals[i];
    ApprovalByNumbers(p);
    ParticipationByNumbers(p, supply);
    hide ApprovalRate, ParticipationRate, Approved, Attended;
  }

  /** So afterwards no proposal at its end is open and none at its activation height is waiting. */
  lemma ProcessLeavesNothingDue(s: State, height: nat, supply: nat, i: nat)
    requires i < |s.proposals|
    ensures var p := Next(s, Process(height, supply)).proposals[i];
            (p.status == ACTIVE ==> height < p.voteEndHeight) && (p.status == PASSED ==> height < p.activationHeight)
  {
    hide ApprovalRate, ParticipationRate;
  }

  /**
   A proposal is posted exactly if its author has 47564.688 Certs, the title is 1 to 200 and the description 1
   to 5000 characters long. Voting then ends 240 blocks later, and activation is 120 blocks after that.
   */
  lemma SubmitAdds(s: State, e: Event)
    requires e.Submit?
    ensures var s' := Next(s, e);
            if e.balance >= 47_564_688_000 && 1 <= |e.title| <= 200 && 1 <= |e.description| <= 5000
            then |s'.proposals| == |s.proposals| + 1 && s.proposals <= s'.proposals &&
                 s'.nextId == (s.nextId + 1) % TWO_32 &&
                 var p := s'.proposals[|s.proposals|];
                 p.id == s.nextId && p.kind == e.kind && p.status == ACTIVE && p.title == e.title &&
                 p.description == e.description && p.author == e.author && p.submitHeight == e.height &&
                 p.voteEndHeight == (e.height + 240) % TWO_64 && p.activationHeight == (e.height + 360) % TWO_64 &&
                 p.paramKey == e.paramKey && p.paramValue == e.paramValue && p.voters == map[] &&
                 p.votesApprove == p.votesReject == p.votesAbstain == 0
            else s' == s
  {
  }

  // ------------------------------------------------ over runs

  /** Event k closed proposal number i, whose tallies, final since then, decide. */
  ghost predicate Decided(events: seq<Event>, i: nat, k: nat, p: Proposal)
    requires k < |events|
  {
    events[k].Process? && i < |Run(events[..k]).proposals| && Run(events[..k]).proposals[i].status == ACTIVE &&
    events[k].height >= p.voteEndHeight &&
    (Countable(p, events[k].totalSupply) ==>
       (Outcome(p, events[k].totalSupply) == if p.status == ACTIVATED then PASSED else p.status))
  }

  /** Every proposal that is not open was closed by one event of the run, as the numbers then said. */
  lemma DecidedInNumbers(events: seq<Event>, i: nat) returns (k: nat)
    requires i < |Run(events).proposals| && Run(events).proposals[i].status != ACTIVE
    ensures k < |events| && Decided(events, i, k, Run(events).proposals[i])
  {
    hide Run, Next;
    var p := Run(events).proposals[i];
    ClosedForAReason(events, i);
    k :| 0 <= k < |events| && ClosedBy(events, i, k, p);
    if Countable(p, events[k].totalSupply) {
      ApprovalByNumbers(p);
      ParticipationByNumbers(p, events[k].totalSupply);
      hide ApprovalRate, ParticipationRate, Approved, Attended;
    }
  }

  /** What stands behind a choice: the balances of those who chose it last. */
  ghost function Behind(ledger: Ledger, c: VoteChoice): nat {
    Sum(WeightsFor(ledger, c))
  }

  /** The outcome by the balances behind the votes. */
  ghost function OutcomeByBalances(ledger: Ledger, supply: nat): ProposalStatus {
    if !Attended(Behind(ledger, APPROVE) + Behind(ledger, REJECT) + Behind(ledger, ABSTAIN), supply) then EXPIRED
    else if Approved(Behind(ledger, APPROVE), Behind(ledger, REJECT)) then PASSED
    else REJECTED
  }

  /** In a run without changed balances the balances behind the votes decide, as long as they fit 64 bits. */
  lemma DecidedByBalances(events: seq<Event>, i: nat) returns (k: nat)
    requires i < |Run(events).proposals| && Run(events).proposals[i].status != ACTIVE
    requires forall j :: 0 < j <= |events| ==> SteadyLast(events[..j])
    requires var ledger := Ledgers(events)[i];
             Behind(ledger, APPROVE) + Behind(ledger, REJECT) + Behind(ledger, ABSTAIN) < TWO_64
    ensures k < |events| && events[k].Process? && Decided(events, i, k, Run(events).proposals[i])
    ensures events[k].totalSupply < TWO_64 ==>
              OutcomeByBalances(Ledgers(events)[i], events[k].totalSupply) ==
              if Run(events).proposals[i].status == ACTIVATED then PASSED else Run(events).proposals[i].status
  {
    var p, ledger := Run(events).proposals[i], Ledgers(events)[i];
    TalliesMatchInRun(events);
    TallyIsSum(p, ledger);
    hide Run, Ledgers, SteadyLast, Behind;
    k := DecidedInNumbers(events, i);
  }

  lemma TallyIsSum(p: Proposal, ledger: Ledger)
    requires TalliesMatch(p, ledger)
    requires Behind(ledger, APPROVE) + Behind(ledger, REJECT) + Behind(ledger, ABSTAIN) < TWO_64
    ensures p.votesApprove == Behind(ledger, APPROVE) && p.votesReject == Behind(ledger, REJECT)
    ensures p.votesAbstain == Behind(ledger, ABSTAIN)
  {
    hide WeightsFor, Sum;
    assert TallyMatches(p, ledger, APPROVE) && TallyMatches(p, ledger, REJECT) && TallyMatches(p, ledger, ABSTAIN);
  }
}
