/**
 The marketplace of src/testnet_node.cpp. A job's bounty leaves the submitter's balance when it is
 posted and comes back into somebody's balance when the job closes.
 */
module Marketplace {
  import opened Words
  import opened Bytes
  import opened Blocks
  import opened Ledger

  const MIN_BOUNTY := 1_000_000
  const MAX_TITLE := 200

  datatype Status = Open | Solving | Completed | Expired | Cancelled

  datatype Solution = Solution(solver: Address, height: U64, score: real, digest: seq<Byte>, data: seq<Byte>)

  datatype Job = Job(
    id: U32, status: Status, title: string, submitter: Address, bounty: U64, submitHeight: U64, deadline: U64,
    solutions: seq<Solution>, winner: Address)

  datatype Request = Request(submitter: Address, title: string, bounty: U64, deadlineBlocks: U64)

  datatype Offer = Offer(jobId: U32, solver: Address, score: real, data: seq<Byte>)

  /** The chain with its balances, and the marketplace beside it. */
  datatype World = World(chain: Chain, jobs: seq<Job>, nextId: U32, bountiesPaid: U64, jobsCompleted: U64)

  predicate Active(j: Job) {
    j.status == Open || j.status == Solving
  }

  // ------------------------------------------------ the best solution

  /** The loop of best_solution: a later solution replaces the best one only if its score is lower. */
  function BestOf(solutions: seq<Solution>): (k: nat)
    requires solutions != []
    ensures k < |solutions|
  {
    var n := |solutions| - 1;
    if n == 0 then 0 else
      var k := BestOf(solutions[..n]);
      if solutions[n].score < solutions[k].score then n else k
  }

  /** No solution is better, and no earlier one is as good. */
  ghost predicate EarliestMinimal(solutions: seq<Solution>, k: nat) {
    k < |solutions| &&
    forall j :: 0 <= j < |solutions| ==>
                  solutions[k].score <= solutions[j].score && (j < k ==> solutions[k].score < solutions[j].score)
  }

  lemma {:induction false} BestIsEarliestMinimal(solutions: seq<Solution>, k: nat)
    requires solutions != []
    ensures EarliestMinimal(solutions, k) <==> k == BestOf(solutions)
  {
    BestIsMinimal(solutions);
    var b := BestOf(solutions);
    if EarliestMinimal(solutions, k) {
      assert solutions[k].score <= solutions[b].score && solutions[b].score <= solutions[k].score;
    }
  }

  lemma {:induction false} BestIsMinimal(solutions: seq<Solution>)
    requires solutions != []
    ensures EarliestMinimal(solutions, BestOf(solutions))
  {
    var n := |solutions| - 1;
    if n > 0 {
      BestIsMinimal(solutions[..n]);
      var k := BestOf(solutions[..n]);
      assert forall j :: 0 <= j < n ==> solutions[..n][j] == solutions[j];
    }
  }

  method BestSolution(solutions: seq<Solution>) returns (best: nat)
    requires solutions != []
    ensures best == BestOf(solutions)
  {
    best := 0;
    assert solutions[..1][..1] == solutions[..1];
    for i := 1 to |solutions|
      invariant best == BestOf(solutions[..i]) < i
    {
      assert solutions[..i + 1][..i] == solutions[..i];
      if solutions[i].score < solutions[best].score { best := i; }
    }
    assert solutions[..|solutions|] == solutions;
  }

  // ------------------------------------------------ the operations

  predicate CanSubmit(r: Request, balance: nat) {
    balance >= r.bounty && 0 < |r.title| <= MAX_TITLE && r.bounty >= MIN_BOUNTY
  }

  function NewJob(r: Request, id: U32, height: U64): Job {
    Job(id, Open, r.title, r.submitter, r.bounty, height, Add64(height, r.deadlineBlocks), [], [])
  }

  function Submitted(w: World, r: Request): World {
    var balance := Get(w.chain.balances, r.submitter);
    if !CanSubmit(r, balance) then w else
      w.(jobs := w.jobs + [NewJob(r, w.nextId, HeightOf(w.chain.blocks))], nextId := (w.nextId + 1) % TWO_32,
         chain := w.chain.(balances := w.chain.balances[r.submitter := balance - r.bounty]))
  }

  /** The first active job with the id, or the number of jobs. */
  function FindActive(jobs: seq<Job>, id: U32): (i: nat)
    ensures i <= |jobs|
    ensures i < |jobs| ==> jobs[i].id == id && Active(jobs[i])
    ensures forall k :: 0 <= k < i ==> !(jobs[k].id == id && Active(jobs[k]))
  {
    if jobs == [] || (jobs[0].id == id && Active(jobs[0])) then 0 else 1 + FindActive(jobs[1..], id)
  }

  function WithSolution(env: Env, j: Job, o: Offer, height: U64): Job {
    j.(status := Solving,
       solutions := j.solutions + [Solution(o.solver, height, o.score, env.sha3(o.data)[..8], o.data)])
  }

  function Solved(env: Env, w: World, o: Offer): World {
    var i, height := FindActive(w.jobs, o.jobId), HeightOf(w.chain.blocks);
    if i == |w.jobs| || height > w.jobs[i].deadline then w
    else w.(jobs := w.jobs[i := WithSolution(env, w.jobs[i], o, height)])
  }

  predicate Due(j: Job, height: U64) {
    Active(j) && height >= j.deadline
  }

  function Recipient(j: Job): Address {
    if j.solutions == [] then j.submitter else j.solutions[BestOf(j.solutions)].solver
  }

  function Closed(j: Job): Job {
    if j.solutions == [] then j.(status := Expired) else j.(status := Completed, winner := Recipient(j))
  }

  function Credit(balances: map<Address, nat>, a: Address, amount: nat): map<Address, nat> {
    balances[a := Add64(Get(balances, a), amount)]
  }

  /** Job i is closed if its time has come. */
  function SettledAt(w: World, i: nat, height: U64): World
    requires i < |w.jobs|
  {
    var j := w.jobs[i];
    if !Due(j, height) then w else
      var w' := w.(jobs := w.jobs[i := Closed(j)],
                   chain := w.chain.(balances := Credit(w.chain.balances, Recipient(j), j.bounty)));
      if j.solutions == [] then w'
      else w'.(bountiesPaid := Add64(w.bountiesPaid, j.bounty), jobsCompleted := Add64(w.jobsCompleted, 1))
  }

  function SettledUpTo(w: World, n: nat, height: U64): (r: World)
    requires n <= |w.jobs|
    ensures |r.jobs| == |w.jobs|
  {
    if n == 0 then w else SettledAt(SettledUpTo(w, n - 1, height), n - 1, height)
  }

  class MarketplaceState {
    var jobs: seq<Job>
    var nextId: U32
    var bountiesPaid: U64
    var jobsCompleted: U64

    constructor ()
      ensures jobs == [] && nextId == 1 && bountiesPaid == 0 && jobsCompleted == 0
    {
      jobs, nextId, bountiesPaid, jobsCompleted := [], 1, 0, 0;
    }

    ghost function With(chain: ChainState): World
      reads this, chain
    {
      World(chain.Value(), jobs, nextId, bountiesPaid, jobsCompleted)
    }

    method SubmitJob(r: Request, height: U64, balance: nat) returns (ok: bool)
      modifies this
      ensures ok == CanSubmit(r, balance)
      ensures !ok ==> unchanged(this)
      ensures ok ==> jobs == old(jobs) + [NewJob(r, old(nextId), height)] && nextId == (old(nextId) + 1) % TWO_32 &&
                     unchanged(this`bountiesPaid, this`jobsCompleted)
    {
      if balance < r.bounty { return false; }
      if r.title == "" || |r.title| > MAX_TITLE { return false; }
      if r.bounty < MIN_BOUNTY { return false; }
      jobs := jobs + [NewJob(r, nextId, height)];
      nextId := (nextId + 1) % TWO_32;
      return true;
    }

    /** The request to submit a job: check, post, and take the bounty from the balance. */
    method OnSubmit(chain: ChainState, r: Request) returns (ok: bool)
      modifies this, chain
      ensures ok == CanSubmit(r, Get(old(chain.balances), r.submitter))
      ensures With(chain) == Submitted(old(With(chain)), r)
    {
      var balance := Get(chain.balances, r.submitter);
      ok := SubmitJob(r, HeightOf(chain.blocks), balance);
      if ok { chain.balances := chain.balances[r.submitter := balance - r.bounty]; }
    }

    method OnSolve(env: Env, chain: ChainState, o: Offer) returns (ok: bool)
      modifies this
      ensures With(chain) == Solved(env, old(With(chain)), o)
      ensures ok <==> jobs != old(jobs)
    {
      var i, height := 0, HeightOf(chain.blocks);
      assert jobs[0..] == jobs;
      while i < |jobs|
        invariant i <= |jobs| && unchanged(this)
        invariant FindActive(jobs, o.jobId) == i + FindActive(jobs[i..], o.jobId)
      {
        assert jobs[i..][1..] == jobs[i + 1..];
        if jobs[i].id == o.jobId && Active(jobs[i]) {
          if height > jobs[i].deadline { return false; }
          var j := WithSolution(env, jobs[i], o, height);
          assert |j.solutions| > |jobs[i].solutions|;
          jobs := jobs[i := j];
          return true;
        }
        i := i + 1;
      }
      return false;
    }

    method ProcessHeight(chain: ChainState)
      modifies this, chain
      ensures With(chain) == SettledUpTo(old(With(chain)), |old(jobs)|, HeightOf(old(chain.blocks)))
    {
      hide BestOf;
      var height := HeightOf(chain.blocks);
      for i := 0 to |jobs|
        invariant |jobs| == |old(jobs)| && With(chain) == SettledUpTo(old(With(chain)), i, height)
      {
        hide SettledUpTo;
        SettleOne(old(With(chain)), i, height);
        var j := jobs[i];
        if Active(j) && height >= j.deadline {
          if j.solutions == [] {
            jobs := jobs[i := j.(status := Expired)];
            chain.balances := chain.balances[j.submitter := Add64(Get(chain.balances, j.submitter), j.bounty)];
          } else {
            var k := BestSolution(j.solutions);
            var winner := j.solutions[k].solver;
            jobs := jobs[i := j.(status := Completed, winner := winner)];
            chain.balances := chain.balances[winner := Add64(Get(chain.balances, winner), j.bounty)];
            bountiesPaid := Add64(bountiesPaid, j.bounty);
            jobsCompleted := Add64(jobsCompleted, 1);
          }
        }
      }
    }
  }

  lemma SettleOne(w: World, i: nat, height: U64)
    requires i < |w.jobs|
    ensures SettledUpTo(w, i + 1, height) == SettledAt(SettledUpTo(w, i, height), i, height)
  {
  }

  /** Processing closes exactly the active jobs whose deadline has been reached. */
  lemma {:induction false} ProcessedJobs(w: World, n: nat, height: U64, i: nat)
    requires n <= |w.jobs| && i < |w.jobs|
    ensures SettledUpTo(w, n, height).jobs[i] ==
            if i < n && Due(w.jobs[i], height) then Closed(w.jobs[i]) else w.jobs[i]
  {
    if n > 0 {
      hide Due, Closed, Credit, Recipient;
      ProcessedJobs(w, n - 1, height, i);
    }
  }
}
