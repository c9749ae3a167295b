/**
 Where jobs, solutions and winners of the marketplace come from: everything is told in terms of the actions
 of a run and of the state just before each of them.
 */
module MarketplaceOrigins {
  import opened Words
  import opened Bytes
  import opened Blocks
  import opened Ledger
  import opened Marketplace
  import opened MarketplaceRuns

  ghost predicate IsOpen(j: Job) {
    j.status == Open || j.status == Solving
  }

  // ------------------------------------------------ jobs

  /** A request that was granted, and the height of the chain at that moment. */
  datatype Posting = Posting(request: Request, height: U64)

  /** The submitter can pay, the title is not empty and not over 200 characters, the bounty at least one Cert. */
  ghost predicate Granted(w: World, r: Request) {
    Get(w.chain.balances, r.submitter) >= r.bounty >= 1_000_000 && 1 <= |r.title| <= 200
  }

  /** The granted requests of a run, in order. */
  ghost function Postings(env: Env, c: Chain, actions: seq<Action>): seq<Posting> {
    if actions == [] then [] else
      var front, last := actions[..|actions| - 1], actions[|actions| - 1];
      var w := Run(env, Opening(c), front);
      Postings(env, c, front) +
      (if last.Submit? && Granted(w, last.r) then [Posting(last.r, HeightOf(w.chain.blocks))] else [])
  }

  /** The job has the terms of the posting; its deadline is a 64-bit sum. */
  ghost predicate HasTerms(j: Job, p: Posting, number: nat) {
    j.id == number % TWO_32 && j.title == p.request.title && j.submitter == p.request.submitter &&
    j.bounty == p.request.bounty && j.submitHeight == p.height &&
    j.deadline == (p.height + p.request.deadlineBlocks) % TWO_64
  }

  ghost predicate JobsArePostings(jobs: seq<Job>, postings: seq<Posting>) {
    |jobs| == |postings| && forall i :: 0 <= i < |jobs| ==> HasTerms(jobs[i], postings[i], i + 1)
  }

  /** The jobs are the granted requests, one for one and in order, with their terms. */
  lemma {:induction false} JobsComeFromRequests(env: Env, c: Chain, actions: seq<Action>)
    ensures var w := Run(env, Opening(c), actions);
            JobsArePostings(w.jobs, Postings(env, c, actions)) && w.nextId == (|w.jobs| + 1) % TWO_32
  {
    if actions != [] {
      var front, last := actions[..|actions| - 1], actions[|actions| - 1];
      JobsComeFromRequests(env, c, front);
      PostingStep(env, Run(env, Opening(c), front), last, Postings(env, c, front));
    }
  }

  lemma PostingStep(env: Env, w: World, a: Action, postings: seq<Posting>)
    requires JobsArePostings(w.jobs, postings) && w.nextId == (|w.jobs| + 1) % TWO_32
    ensures var w' := Act(env, w, a);
            var more := if a.Submit? && Granted(w, a.r) then [Posting(a.r, HeightOf(w.chain.blocks))] else [];
            JobsArePostings(w'.jobs, postings + more) && w'.nextId == (|w'.jobs| + 1) % TWO_32
  {
    var w' := Act(env, w, a);
    NextNumber(|w.jobs| + 1);
    ActBecomes(env, w, a);
    ActSize(env, w, a);
    hide Act, HeightOf;
    forall i | 0 <= i < |w.jobs| ensures HasTerms(w'.jobs[i], postings[i], i + 1) {
      assert Becomes(w.jobs[i], w'.jobs[i]);
    }
  }

  lemma NextNumber(n: nat)
    ensures (n % TWO_32 + 1) % TWO_32 == (n + 1) % TWO_32
  {
  }

  /** Only a granted request adds a job. */
  lemma ActSize(env: Env, w: World, a: Action)
    ensures var w' := Act(env, w, a);
            if a.Submit? && Granted(w, a.r)
            then |w'.jobs| == |w.jobs| + 1 && w'.nextId == (w.nextId + 1) % TWO_32 &&
                 var j, height := w'.jobs[|w.jobs|], HeightOf(w.chain.blocks);
                 j.solutions == [] && IsOpen(j) && j.id == w.nextId && j.title == a.r.title &&
                 j.submitter == a.r.submitter && j.bounty == a.r.bounty && j.submitHeight == height &&
                 j.deadline == (height + a.r.deadlineBlocks) % TWO_64
            else |w'.jobs| == |w.jobs| && w'.nextId == w.nextId
  {
    if a == Process { ProcessKeepsId(w, |w.jobs|, HeightOf(w.chain.blocks)); }
    hide Appended, SettledUpTo, HeightOf, WithSolution;
  }

  lemma {:induction false} ProcessKeepsId(w: World, n: nat, height: U64)
    requires n <= |w.jobs|
    ensures SettledUpTo(w, n, height).nextId == w.nextId
  {
    if n > 0 {
      hide Due, Closed, Credit, Recipient;
      ProcessKeepsId(w, n - 1, height);
    }
  }

  // ------------------------------------------------ solutions

  /** An offer that was taken, and the height of the chain at that moment. */
  datatype Taking = Taking(offer: Offer, height: U64)

  /** The offer is for job i: the first open job with its number, and its deadline has not passed. */
  ghost predicate Takes(w: World, o: Offer, i: nat) {
    i < |w.jobs| && w.jobs[i].id == o.jobId && IsOpen(w.jobs[i]) && HeightOf(w.chain.blocks) <= w.jobs[i].deadline &&
    forall k :: 0 <= k < i ==> !(w.jobs[k].id == o.jobId && IsOpen(w.jobs[k]))
  }

  /** The offers that a run made for job i, in order. */
  ghost function Takings(env: Env, c: Chain, actions: seq<Action>, i: nat): seq<Taking> {
    if actions == [] then [] else
      var front, last := actions[..|actions| - 1], actions[|actions| - 1];
      var w := Run(env, Opening(c), front);
      Takings(env, c, front, i) +
      (if last.Solve? && Takes(w, last.o, i) then [Taking(last.o, HeightOf(w.chain.blocks))] else [])
  }

  /** The solution records who offered what, when, and the first eight bytes of the hash of the data. */
  ghost predicate Records(env: Env, s: Solution, t: Taking) {
    s.solver == t.offer.solver && s.score == t.offer.score && s.data == t.offer.data && s.height == t.height &&
    s.digest == env.sha3(t.offer.data)[..8]
  }

  ghost predicate SolutionsAreTakings(env: Env, j: Job, takings: seq<Taking>) {
    |j.solutions| == |takings| &&
    forall k :: 0 <= k < |takings| ==>
                  Records(env, j.solutions[k], takings[k]) && takings[k].height <= j.deadline &&
                  takings[k].offer.jobId == j.id
  }

  /** What one action does to the solutions of a job: an offer for it adds one, nothing else does. */
  lemma ActSolutions(env: Env, w: World, a: Action, i: nat)
    requires i < |w.jobs|
    ensures var j, j' := w.jobs[i], Act(env, w, a).jobs[i];
            if a.Solve? && Takes(w, a.o, i)
            then |j'.solutions| == |j.solutions| + 1 && j.solutions <= j'.solutions &&
                 Records(env, j'.solutions[|j.solutions|], Taking(a.o, HeightOf(w.chain.blocks)))
            else j'.solutions == j.solutions
  {
    if a == Process {
      ProcessedJobs(w, |w.jobs|, HeightOf(w.chain.blocks), i);
    }
    hide SettledUpTo, Recipient, Appended, HeightOf;
  }

  lemma {:induction false} NoTakingsYet(env: Env, c: Chain, actions: seq<Action>, i: nat)
    requires |Run(env, Opening(c), actions).jobs| <= i
    ensures Takings(env, c, actions, i) == []
  {
    if actions != [] {
      var front, last := actions[..|actions| - 1], actions[|actions| - 1];
      ActBecomes(env, Run(env, Opening(c), front), last);
      hide Act;
      NoTakingsYet(env, c, front, i);
    }
  }

  /**
   The solutions of every job are the offers that the run made for it, one for one and in order, each with its
   solver, score and data, and at a height not above the job's deadline.
   */
  lemma {:induction false} SolutionsComeFromOffers(env: Env, c: Chain, actions: seq<Action>, i: nat)
    requires i < |Run(env, Opening(c), actions).jobs|
    ensures SolutionsAreTakings(env, Run(env, Opening(c), actions).jobs[i], Takings(env, c, actions, i))
  {
    var front, last := actions[..|actions| - 1], actions[|actions| - 1];
    var w := Run(env, Opening(c), front);
    ActSize(env, w, last);
    if i < |w.jobs| {
      SolutionsComeFromOffers(env, c, front, i);
      ActSolutions(env, w, last, i);
      ActBecomes(env, w, last);
      hide Act, Records, HeightOf;
      assert Becomes(w.jobs[i], Act(env, w, last).jobs[i]);
      TakingMore(env, w.jobs[i], Act(env, w, last).jobs[i], Takings(env, c, front, i),
                 if last.Solve? && Takes(w, last.o, i) then [Taking(last.o, HeightOf(w.chain.blocks))] else []);
    } else {
      NoTakingsYet(env, c, front, i);
      hide Act, HeightOf;
    }
  }

  lemma TakingMore(env: Env, j: Job, j': Job, takings: seq<Taking>, more: seq<Taking>)
    requires SolutionsAreTakings(env, j, takings) && Becomes(j, j') && |more| <= 1
    requires |j'.solutions| == |j.solutions| + |more|
    requires more != [] ==> Records(env, j'.solutions[|j.solutions|], more[0]) && more[0].height <= j.deadline &&
                            more[0].offer.jobId == j.id
    ensures SolutionsAreTakings(env, j', takings + more)
  {
    hide Records;
    forall k | 0 <= k < |takings| ensures j'.solutions[k] == j.solutions[k] {
    }
  }

  // ------------------------------------------------ winners

  /** No offer has a lower score, and no earlier one has the same. */
  ghost predicate EarliestLowest(takings: seq<Taking>, k: nat) {
    k < |takings| &&
    forall m :: 0 <= m < |takings| ==> takings[k].offer.score <= takings[m].offer.score &&
                                       (m < k ==> takings[k].offer.score < takings[m].offer.score)
  }

  /** The winner of a completed job is who sent the earliest of the lowest-scored offers that the run made for it. */
  lemma WinnerSentBestOffer(env: Env, c: Chain, actions: seq<Action>, i: nat) returns (k: nat)
    requires Linked(env, c.blocks) && AccountsOk(c) && i < |Run(env, Opening(c), actions).jobs|
    requires Run(env, Opening(c), actions).jobs[i].status == Completed
    ensures var takings := Takings(env, c, actions, i);
            EarliestLowest(takings, k) && Run(env, Opening(c), actions).jobs[i].winner == takings[k].offer.solver
  {
    hide Run, Takings, Linked, AccountsOk;
    var j := Run(env, Opening(c), actions).jobs[i];
    BountiesArePaidOnce(env, c, actions);
    assert WonByBest(j);
    SolutionsComeFromOffers(env, c, actions, i);
    k :| EarliestMinimal(j.solutions, k) && j.winner == j.solutions[k].solver;
    forall m | 0 <= m < |j.solutions| ensures Records(env, j.solutions[m], Takings(env, c, actions, i)[m]) {
    }
  }

  // ------------------------------------------------ closing

  /** After processing, no job whose deadline the chain has reached is open. */
  lemma ProcessClosesDue(env: Env, w: World, i: nat)
    requires i < |w.jobs|
    ensures var j, j', height := w.jobs[i], Act(env, w, Process).jobs[i], HeightOf(w.chain.blocks);
            if IsOpen(j) && height >= j.deadline
            then j'.status == (if j.solutions == [] then Expired else Completed)
            else j' == j
  {
    ProcessedJobs(w, |w.jobs|, HeightOf(w.chain.blocks), i);
    hide SettledUpTo, Recipient;
  }

  /** This action closed job i: the chain had reached the job's deadline. */
  ghost predicate ClosedJob(env: Env, c: Chain, actions: seq<Action>, i: nat, k: nat)
    requires k < |actions|
  {
    var w := Run(env, Opening(c), actions[..k]);
    actions[k] == Process && i < |w.jobs| && IsOpen(w.jobs[i]) && HeightOf(w.chain.blocks) >= w.jobs[i].deadline &&
    !IsOpen(Act(env, w, Process).jobs[i])
  }

  lemma OnlyProcessCloses(env: Env, w: World, a: Action, i: nat)
    requires i < |w.jobs| && IsOpen(w.jobs[i]) && !IsOpen(Act(env, w, a).jobs[i])
    ensures a == Process && HeightOf(w.chain.blocks) >= w.jobs[i].deadline
  {
    if a == Process { ProcessClosesDue(env, w, i); }
    hide SettledUpTo, Appended, HeightOf;
  }

  /** Every job that is not open was closed by one processing step, at its deadline or later. */
  lemma {:induction false} ClosedAtDeadline(env: Env, c: Chain, actions: seq<Action>, i: nat)
    requires i < |Run(env, Opening(c), actions).jobs| && !IsOpen(Run(env, Opening(c), actions).jobs[i])
    ensures exists k :: 0 <= k < |actions| && ClosedJob(env, c, actions, i, k)
  {
    var front, last := actions[..|actions| - 1], actions[|actions| - 1];
    var w := Run(env, Opening(c), front);
    ActSize(env, w, last);
    ActBecomes(env, w, last);
    hide Act, HeightOf;
    if IsOpen(w.jobs[i]) {
      OnlyProcessCloses(env, w, last, i);
      assert ClosedJob(env, c, actions, i, |front|);
    } else {
      ClosedAtDeadline(env, c, front, i);
      var k :| 0 <= k < |front| && ClosedJob(env, c, front, i, k);
      assert actions[..k] == front[..k];
      assert ClosedJob(env, c, actions, i, k);
    }
  }
}
