/**
 On-chain voting of src/testnet_node.cpp: proposals, weighted votes in 64-bit tallies, closing and
 activation by block height. Rates are exact rationals.
 */
module Governance {
  import opened Words

  datatype ProposalStatus = ACTIVE | PASSED | REJECTED | ACTIVATED | EXPIRED

  datatype VoteChoice = APPROVE | REJECT | ABSTAIN

  datatype Proposal = Proposal(
    id: nat, kind: nat, status: ProposalStatus, title: string, description: string, author: string,
    submitHeight: nat, voteEndHeight: nat, activationHeight: nat, paramKey: string, paramValue: string,
    votesApprove: nat, votesReject: nat, votesAbstain: nat, voters: map<string, VoteChoice>)

  const VOTE_PERIOD_BLOCKS := 240
  const ACTIVATION_DELAY := 120
  const APPROVAL_THRESHOLD := 0.75
  const PARTICIPATION_MIN := 0.70
  const MIN_PROPOSER_BALANCE := 47_564_688_000

  function ApprovalRate(p: Proposal): real {
    var voted := Add64(p.votesApprove, p.votesReject);
    if voted > 0 then p.votesApprove as real / voted as real else 0.0
  }

  function ParticipationRate(p: Proposal, totalSupply: nat): real {
    var totalVoted := Add64(Add64(p.votesApprove, p.votesReject), p.votesAbstain);
    if totalSupply > 0 then totalVoted as real / totalSupply as real else 0.0
  }

  predicate MeetsThresholds(p: Proposal, totalSupply: nat) {
    ApprovalRate(p) >= APPROVAL_THRESHOLD && ParticipationRate(p, totalSupply) >= PARTICIPATION_MIN
  }

  function Tally(p: Proposal, c: VoteChoice): nat {
    match c
    case APPROVE => p.votesApprove
    case REJECT => p.votesReject
    case ABSTAIN => p.votesAbstain
  }

  function WithTally(p: Proposal, c: VoteChoice, t: nat): (p': Proposal)
    ensures forall d :: Tally(p', d) == if d == c then t else Tally(p, d)
    ensures p'.voters == p.voters && p'.status == p.status && p'.id == p.id
    ensures p'.voteEndHeight == p.voteEndHeight && p'.activationHeight == p.activationHeight
  {
    match c
    case APPROVE => p.(votesApprove := t)
    case REJECT => p.(votesReject := t)
    case ABSTAIN => p.(votesAbstain := t)
  }

  // ------------------------------------------------ what the operations do to one proposal

  /** An accepted vote. The earlier vote is undone with the balance of today. */
  function VotedOn(p: Proposal, voter: string, choice: VoteChoice, balance: nat): Proposal {
    var undone :=
      if voter in p.voters then WithTally(p, p.voters[voter], Sub64(Tally(p, p.voters[voter]), balance)) else p;
    var recorded := undone.(voters := undone.voters[voter := choice]);
    WithTally(recorded, choice, Add64(Tally(recorded, choice), balance))
  }

  function Closed(p: Proposal, height: nat, totalSupply: nat): Proposal {
    if p.status != ACTIVE || height < p.voteEndHeight then p
    else if MeetsThresholds(p, totalSupply) then p.(status := PASSED)
    else if ParticipationRate(p, totalSupply) < PARTICIPATION_MIN then p.(status := EXPIRED)
    else p.(status := REJECTED)
  }

  function Activated(p: Proposal, height: nat): Proposal {
    if p.status == PASSED && height >= p.activationHeight then p.(status := ACTIVATED) else p
  }

  /** The proposal a vote goes to: the first active one with the id. */
  function FirstActive(proposals: seq<Proposal>, id: nat): (i: nat)
    ensures i <= |proposals|
    ensures i < |proposals| ==> proposals[i].id == id && proposals[i].status == ACTIVE
    ensures forall k :: 0 <= k < i ==> proposals[k].id != id || proposals[k].status != ACTIVE
  {
    if proposals == [] then 0
    else if proposals[0].id == id && proposals[0].status == ACTIVE then 0
    else 1 + FirstActive(proposals[1..], id)
  }

  datatype Event =
    | Submit(author: string, kind: nat, title: string, description: string, balance: nat, height: nat,
             paramKey: string, paramValue: string)
    | Vote(id: nat, voter: string, choice: VoteChoice, balance: nat, height: nat)
    | Process(height: nat, totalSupply: nat)

  predicate AcceptsSubmit(e: Event)
    requires e.Submit?
  {
    e.balance >= MIN_PROPOSER_BALANCE && 0 < |e.title| <= 200 && 0 < |e.description| <= 5000
  }

  function NewProposal(e: Event, id: nat): Proposal
    requires e.Submit?
  {
    Proposal(id, e.kind, ACTIVE, e.title, e.description, e.author, e.height, Add64(e.height, VOTE_PERIOD_BLOCKS),
             Add64(e.height, VOTE_PERIOD_BLOCKS + ACTIVATION_DELAY), e.paramKey, e.paramValue, 0, 0, 0, map[])
  }

  predicate AcceptsVote(proposals: seq<Proposal>, e: Event)
    requires e.Vote?
  {
    var i := FirstActive(proposals, e.id);
    i < |proposals| && e.height <= proposals[i].voteEndHeight && e.balance > 0
  }

  /** What an event makes of the proposals, given the next free id. */
  function After(proposals: seq<Proposal>, nextId: nat, e: Event): (r: seq<Proposal>)
    ensures |proposals| <= |r|
  {
    match e
    case Submit(_, _, _, _, _, _, _, _) => if AcceptsSubmit(e) then proposals + [NewProposal(e, nextId)] else proposals
    case Vote(id, voter, choice, balance, _) =>
      if AcceptsVote(proposals, e) then
        var i := FirstActive(proposals, id);
        proposals[i := VotedOn(proposals[i], voter, choice, balance)]
      else proposals
    case Process(height, totalSupply) =>
      seq(|proposals|, i requires 0 <= i < |proposals| => Activated(Closed(proposals[i], height, totalSupply), height))
  }

  class GovernanceState {
    var proposals: seq<Proposal>
    var nextId: nat

    constructor ()
      ensures proposals == [] && nextId == 1
    {
      proposals, nextId := [], 1;
    }

    method SubmitProposal(e: Event) returns (ok: bool)
      requires e.Submit?
      modifies this
      ensures ok == AcceptsSubmit(e)
      ensures proposals == After(old(proposals), old(nextId), e)
      ensures nextId == if ok then (old(nextId) + 1) % TWO_32 else old(nextId)
    {
      if e.balance < MIN_PROPOSER_BALANCE { return false; }
      if |e.title| == 0 || |e.title| > 200 { return false; }
      if |e.description| == 0 || |e.description| > 5000 { return false; }
      proposals := proposals + [NewProposal(e, nextId)];
      nextId := (nextId + 1) % TWO_32;
      return true;
    }

    method CastVote(e: Event) returns (ok: bool)
      requires e.Vote?
      modifies this`proposals
      ensures ok == AcceptsVote(old(proposals), e)
      ensures proposals == After(old(proposals), nextId, e)
    {
      for i := 0 to |proposals|
        invariant proposals == old(proposals)
        invariant forall k :: 0 <= k < i ==> proposals[k].id != e.id || proposals[k].status != ACTIVE
      {
        var p := proposals[i];
        if p.id == e.id && p.status == ACTIVE {
          assert FirstActive(proposals, e.id) == i;
          if e.height > p.voteEndHeight { return false; }
          if e.balance == 0 { return false; }
          if e.voter in p.voters {
            match p.voters[e.voter] {
              case APPROVE => p := p.(votesApprove := Sub64(p.votesApprove, e.balance));
              case REJECT => p := p.(votesReject := Sub64(p.votesReject, e.balance));
              case ABSTAIN => p := p.(votesAbstain := Sub64(p.votesAbstain, e.balance));
            }
          }
          p := p.(voters := p.voters[e.voter := e.choice]);
          match e.choice {
            case APPROVE => p := p.(votesApprove := Add64(p.votesApprove, e.balance));
            case REJECT => p := p.(votesReject := Add64(p.votesReject, e.balance));
            case ABSTAIN => p := p.(votesAbstain := Add64(p.votesAbstain, e.balance));
          }
          assert p == VotedOn(proposals[i], e.voter, e.choice, e.balance);
          proposals := proposals[i := p];
          return true;
        }
      }
      return false;
    }

    method ProcessHeight(height: nat, totalSupply: nat)
      modifies this`proposals
      ensures proposals == After(old(proposals), nextId, Process(height, totalSupply))
    {
      for i := 0 to |proposals|
        invariant |proposals| == |old(proposals)|
        invariant forall k :: 0 <= k < i ==> proposals[k] == Closed(old(proposals)[k], height, totalSupply)
        invariant forall k :: i <= k < |proposals| ==> proposals[k] == old(proposals)[k]
      {
        var p := proposals[i];
        if p.status != ACTIVE { continue; }
        if height >= p.voteEndHeight {
          var approval, participation := ApprovalRate(p), ParticipationRate(p, totalSupply);
          if approval >= APPROVAL_THRESHOLD && participation >= PARTICIPATION_MIN {
            p := p.(status := PASSED);
          } else if participation < PARTICIPATION_MIN {
            p := p.(status := EXPIRED);
          } else {
            p := p.(status := REJECTED);
          }
          proposals := proposals[i := p];
        }
      }
      ghost var closed := proposals;
      for i := 0 to |proposals|
        invariant |proposals| == |closed|
        invariant forall k :: 0 <= k < i ==> proposals[k] == Activated(closed[k], height)
        invariant forall k :: i <= k < |proposals| ==> proposals[k] == closed[k]
      {
        if proposals[i].status == PASSED && height >= proposals[i].activationHeight {
          proposals := proposals[i := proposals[i].(status := ACTIVATED)];
        }
      }
    }
  }
}
