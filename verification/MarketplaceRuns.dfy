/**
 Any run of blocks, job submissions, solutions and deadline processing: where the Certs are, what each
 address has, and how a job's life goes.
 */
module MarketplaceRuns {
  import opened Words
  import opened Bytes
  import opened Blocks
  import opened Ledger
  import opened Persistence
  import opened Marketplace

  datatype Action = Append(b: Block) | Submit(r: Request) | Solve(o: Offer) | Process

  ghost function Act(env: Env, w: World, action: Action): World {
    match action
    case Append(b) => if AcceptsBlock(w.chain.blocks, b) then w.(chain := Appended(env, w.chain, b)) else w
    case Submit(r) => Submitted(w, r)
    case Solve(o) => Solved(env, w, o)
    case Process => SettledUpTo(w, |w.jobs|, HeightOf(w.chain.blocks))
  }

  ghost function Run(env: Env, w: World, actions: seq<Action>): World {
    if actions == [] then w else Act(env, Run(env, w, actions[..|actions| - 1]), actions[|actions| - 1])
  }

  /** Running the actions through the two classes gives the world of the run. */
  method Replay(env: Env, chain: ChainState, market: MarketplaceState, actions: seq<Action>)
    modifies chain, market
    ensures market.With(chain) == Run(env, old(market.With(chain)), actions)
  {
    hide Appended, Submitted, Solved, SettledUpTo;
    for i := 0 to |actions|
      invariant market.With(chain) == Run(env, old(market.With(chain)), actions[..i])
    {
      assert actions[..i + 1][..i] == actions[..i];
      match actions[i] {
        case Append(b) => var _ := chain.AddBlock(env, b);
        case Submit(r) => var _ := market.OnSubmit(chain, r);
        case Solve(o) => var _ := market.OnSolve(env, chain, o);
        case Process => market.ProcessHeight(chain);
      }
    }
    assert actions[..|actions|] == actions;
  }

  // ------------------------------------------------ sums over jobs

  ghost function Total(jobs: seq<Job>, f: Job -> int): int {
    if jobs == [] then 0 else Total(jobs[..|jobs| - 1], f) + f(jobs[|jobs| - 1])
  }

  lemma TotalAppend(jobs: seq<Job>, j: Job, f: Job -> int)
    ensures Total(jobs + [j], f) == Total(jobs, f) + f(j)
  {
    assert (jobs + [j])[..|jobs|] == jobs;
  }

  lemma {:induction false} TotalChange(jobs: seq<Job>, i: nat, j: Job, f: Job -> int)
    requires i < |jobs|
    ensures Total(jobs[i := j], f) == Total(jobs, f) - f(jobs[i]) + f(j)
  {
    var n := |jobs| - 1;
    if i < n {
      TotalChange(jobs[..n], i, j, f);
      assert jobs[i := j][..n] == jobs[..n][i := j];
    } else {
      assert jobs[i := j][..n] == jobs[..n];
    }
  }

  /** What a job holds in escrow. */
  ghost function Held(j: Job): int {
    if Active(j) then j.bounty else 0
  }

  ghost function Awarded(j: Job): int {
    if j.status == Completed then j.bounty else 0
  }

  ghost function Done(j: Job): int {
    if j.status == Completed then 1 else 0
  }

  /** Whom a closed job paid. */
  ghost predicate Paid(j: Job, a: Address) {
    (j.status == Completed && j.winner == a) || (j.status == Expired && j.submitter == a)
  }

  /** What an address has gained from a job: the bounty if it was paid, less the bounty if it posted it. */
  ghost function Gain(a: Address): Job -> int {
    (j: Job) => (if Paid(j, a) then j.bounty else 0) - (if j.submitter == a then j.bounty else 0)
  }

  // ------------------------------------------------ the invariant

  /** A job's status fits its solutions, and its winner has the earliest of the best of them. */
  ghost predicate JobOk(j: Job) {
    j.status != Cancelled && j.bounty >= MIN_BOUNTY &&
    (j.status == Open || j.status == Expired ==> j.solutions == []) &&
    (j.status == Solving ==> j.solutions != []) &&
    (j.status == Completed ==> j.solutions != [] && j.winner == j.solutions[BestOf(j.solutions)].solver)
  }

  ghost predicate JobsOk(w: World) {
    w.nextId == (|w.jobs| + 1) % TWO_32 &&
    forall i :: 0 <= i < |w.jobs| ==> JobOk(w.jobs[i]) && w.jobs[i].id == (i + 1) % TWO_32
  }

  /** Every address has its rewards plus what its jobs and its solutions have brought, in 64-bit arithmetic. */
  ghost predicate BalancesOk(w: World) {
    forall a :: Get(w.chain.balances, a) == (RewardsOf(w.chain.blocks, a) + Total(w.jobs, Gain(a))) % TWO_64
  }

  /** Balances and escrow together are all the rewards, less a multiple of 2^64 lost to wrapped balances. */
  ghost predicate Conserved(w: World) {
    w.chain.totalSupply == RewardSum(w.chain.blocks) % TWO_64 &&
    var found := Sum(w.chain.balances) + Total(w.jobs, Held);
    found <= RewardSum(w.chain.blocks) && (RewardSum(w.chain.blocks) - found) % TWO_64 == 0
  }

  ghost predicate CountersOk(w: World) {
    w.bountiesPaid == Total(w.jobs, Awarded) % TWO_64 && w.jobsCompleted == Total(w.jobs, Done) % TWO_64
  }

  ghost predicate Good(w: World) {
    JobsOk(w) && BalancesOk(w) && Conserved(w) && CountersOk(w)
  }

  /** Adding to a balance adds to the sum, less a multiple of 2^64. */
  lemma CreditSum(m: map<Address, nat>, a: Address, x: nat)
    ensures var s := Sum(m[a := Add64(Get(m, a), x)]);
            s <= Sum(m) + x && (Sum(m) + x - s) % TWO_64 == 0
  {
    SumUpdate(m, a, Add64(Get(m, a), x));
  }

  /** A balance computed in 64-bit steps. */
  lemma CreditGet(m: map<Address, nat>, a: Address, x: nat, b: Address, was: int)
    requires Get(m, b) == was % TWO_64
    ensures Get(m[a := Add64(Get(m, a), x)], b) == (was + if a == b then x else 0) % TWO_64
  {
    ReduceFirst(was, x);
  }

  lemma MultipleAdds(a: int, b: int)
    requires a % TWO_64 == 0 && b % TWO_64 == 0
    ensures (a + b) % TWO_64 == 0
  {
  }

  // ------------------------------------------------ blocks

  lemma AppendGood(env: Env, w: World, b: Block)
    requires Good(w)
    ensures Good(w.(chain := Appended(env, w.chain, b)))
  {
    AppendBalances(env, w, b);
    AppendConserves(env, w, b);
    hide Total, Appended, JobOk, BalancesOk, Conserved;
  }

  lemma AppendBalances(env: Env, w: World, b: Block)
    requires BalancesOk(w)
    ensures BalancesOk(w.(chain := Appended(env, w.chain, b)))
  {
    hide RewardsOf, Total, Gain, Get;
    var w' := w.(chain := Appended(env, w.chain, b));
    RewardsAppend(w.chain.blocks, Hashed(env, b));
    forall a ensures Get(w'.chain.balances, a) == (RewardsOf(w'.chain.blocks, a) + Total(w'.jobs, Gain(a))) % TWO_64 {
      CreditGet(w.chain.balances, b.minerAddress, b.reward, a, RewardsOf(w.chain.blocks, a) + Total(w.jobs, Gain(a)));
    }
  }

  lemma AppendConserves(env: Env, w: World, b: Block)
    requires Conserved(w)
    ensures Conserved(w.(chain := Appended(env, w.chain, b)))
  {
    hide RewardSum, Total, Held, Sum, Get;
    var w' := w.(chain := Appended(env, w.chain, b));
    RewardsAppend(w.chain.blocks, Hashed(env, b));
    CreditSum(w.chain.balances, b.minerAddress, b.reward);
    ReduceFirst(RewardSum(w.chain.blocks), b.reward);
    var found, found' := Sum(w.chain.balances) + Total(w.jobs, Held), Sum(w'.chain.balances) + Total(w.jobs, Held);
    MultipleAdds(RewardSum(w.chain.blocks) - found, found + b.reward - found');
  }

  // ------------------------------------------------ jobs

  lemma SubmitGood(w: World, r: Request)
    requires Good(w)
    ensures Good(Submitted(w, r))
  {
    hide RewardsOf, RewardSum, Total, Sum;
    var balance := Get(w.chain.balances, r.submitter);
    if CanSubmit(r, balance) {
      var w' := Submitted(w, r);
      var j := NewJob(r, w.nextId, HeightOf(w.chain.blocks));
      TotalAppend(w.jobs, j, Held);
      TotalAppend(w.jobs, j, Awarded);
      TotalAppend(w.jobs, j, Done);
      SumUpdate(w.chain.balances, r.submitter, balance - r.bounty);
      forall a ensures Get(w'.chain.balances, a) == (RewardsOf(w'.chain.blocks, a) + Total(w'.jobs, Gain(a))) % TWO_64 {
        TotalAppend(w.jobs, j, Gain(a));
        Withdraw(balance, RewardsOf(w.chain.blocks, a) + Total(w.jobs, Gain(a)), r.bounty);
      }
    }
  }

  lemma Withdraw(balance: nat, was: int, bounty: nat)
    ensures balance == was % TWO_64 && bounty <= balance ==> balance - bounty == (was - bounty) % TWO_64
  {
  }

  /** A job changes but keeps its bounty where it is. */
  lemma SolveGood(env: Env, w: World, o: Offer)
    requires Good(w)
    ensures Good(Solved(env, w, o))
  {
    hide RewardsOf, RewardSum, Total, Sum, Get;
    var i, height := FindActive(w.jobs, o.jobId), HeightOf(w.chain.blocks);
    if i < |w.jobs| && height <= w.jobs[i].deadline {
      var j := WithSolution(env, w.jobs[i], o, height);
      TotalChange(w.jobs, i, j, Held);
      TotalChange(w.jobs, i, j, Awarded);
      TotalChange(w.jobs, i, j, Done);
      forall a ensures Total(w.jobs[i := j], Gain(a)) == Total(w.jobs, Gain(a)) {
        TotalChange(w.jobs, i, j, Gain(a));
      }
    }
  }

  lemma ClosedFacts(j: Job)
    requires JobOk(j) && Active(j)
    ensures JobOk(Closed(j)) && Closed(j).id == j.id
    ensures Held(j) == j.bounty && Held(Closed(j)) == 0 && Awarded(j) == 0 && Done(j) == 0
    ensures Awarded(Closed(j)) == if j.solutions == [] then 0 else j.bounty
    ensures Done(Closed(j)) == if j.solutions == [] then 0 else 1
    ensures forall a :: Gain(a)(Closed(j)) == Gain(a)(j) + if Recipient(j) == a then j.bounty else 0
  {
  }

  lemma SettleGood(w: World, i: nat, height: U64)
    requires Good(w) && i < |w.jobs|
    ensures Good(SettledAt(w, i, height))
  {
    hide JobsOk, BalancesOk, Conserved, CountersOk, Due, SettledAt;
    if Due(w.jobs[i], height) {
      SettleJobs(w, i, height);
      SettleBalances(w, i, height);
      SettleConserves(w, i, height);
      SettleCounts(w, i, height);
    } else {
      NotDue(w, i, height);
    }
  }

  lemma NotDue(w: World, i: nat, height: U64)
    requires i < |w.jobs| && !Due(w.jobs[i], height)
    ensures SettledAt(w, i, height) == w
  {
  }

  lemma SettleJobs(w: World, i: nat, height: U64)
    requires JobsOk(w) && i < |w.jobs| && Due(w.jobs[i], height)
    ensures JobsOk(SettledAt(w, i, height))
  {
    ClosedFacts(w.jobs[i]);
    hide JobOk, Closed, Credit, Recipient;
  }

  lemma SettleBalances(w: World, i: nat, height: U64)
    requires JobsOk(w) && BalancesOk(w) && i < |w.jobs| && Due(w.jobs[i], height)
    ensures BalancesOk(SettledAt(w, i, height))
  {
    var j, w' := w.jobs[i], SettledAt(w, i, height);
    ClosedFacts(j);
    SettledParts(w, i, height);
    hide RewardsOf, Total, Get, JobOk, Closed, Gain, Recipient, SettledAt, Due, Credit;
    forall a ensures Get(w'.chain.balances, a) == (RewardsOf(w'.chain.blocks, a) + Total(w'.jobs, Gain(a))) % TWO_64 {
      TotalChange(w.jobs, i, Closed(j), Gain(a));
      CreditGet(w.chain.balances, Recipient(j), j.bounty, a, RewardsOf(w.chain.blocks, a) + Total(w.jobs, Gain(a)));
    }
  }

  lemma SettledParts(w: World, i: nat, height: U64)
    requires i < |w.jobs| && Due(w.jobs[i], height)
    ensures var j, w' := w.jobs[i], SettledAt(w, i, height);
            w'.jobs == w.jobs[i := Closed(j)] && w'.chain.blocks == w.chain.blocks &&
            w'.chain.totalSupply == w.chain.totalSupply &&
            w'.chain.balances == w.chain.balances[Recipient(j) := Add64(Get(w.chain.balances, Recipient(j)), j.bounty)]
  {
    hide Closed, Recipient;
  }

  lemma SettleConserves(w: World, i: nat, height: U64)
    requires JobsOk(w) && Conserved(w) && i < |w.jobs| && Due(w.jobs[i], height)
    ensures Conserved(SettledAt(w, i, height))
  {
    var j, w' := w.jobs[i], SettledAt(w, i, height);
    ClosedFacts(j);
    SettledParts(w, i, height);
    hide RewardSum, Total, Sum, Get, JobOk, Closed, Held, Recipient, SettledAt, Due;
    TotalChange(w.jobs, i, Closed(j), Held);
    CreditSum(w.chain.balances, Recipient(j), j.bounty);
    var found, found' := Sum(w.chain.balances) + Total(w.jobs, Held), Sum(w'.chain.balances) + Total(w'.jobs, Held);
    MultipleAdds(RewardSum(w.chain.blocks) - found, found - found');
  }

  lemma SettleCounts(w: World, i: nat, height: U64)
    requires JobsOk(w) && CountersOk(w) && i < |w.jobs| && Due(w.jobs[i], height)
    ensures CountersOk(SettledAt(w, i, height))
  {
    var j := w.jobs[i];
    ClosedFacts(j);
    hide Total, JobOk, Closed, Awarded, Done, Recipient, Credit;
    TotalChange(w.jobs, i, Closed(j), Awarded);
    TotalChange(w.jobs, i, Closed(j), Done);
    ReduceFirst(Total(w.jobs, Awarded), j.bounty);
    ReduceFirst(Total(w.jobs, Done), 1);
  }

  lemma {:induction false} ProcessGood(w: World, n: nat, height: U64)
    requires Good(w) && n <= |w.jobs|
    ensures Good(SettledUpTo(w, n, height))
  {
    if n > 0 {
      hide Good, SettledAt;
      ProcessGood(w, n - 1, height);
      SettleGood(SettledUpTo(w, n - 1, height), n - 1, height);
    }
  }

  // ------------------------------------------------ over whole runs

  /** An empty marketplace beside a chain. */
  function Opening(c: Chain): World {
    World(c, [], 1, 0, 0)
  }

  lemma {:induction false} ReplayedIsGood(env: Env, blocks: seq<Block>)
    ensures Good(Opening(Replayed(env, blocks)))
  {
    if blocks != [] {
      hide Good;
      ReplayedIsGood(env, blocks[..|blocks| - 1]);
      AppendGood(env, Opening(Replayed(env, blocks[..|blocks| - 1])), blocks[|blocks| - 1]);
    }
  }

  /** A good start is any linked chain with right accounts, for example one just loaded, or an empty one. */
  lemma OpeningIsGood(env: Env, c: Chain)
    requires Linked(env, c.blocks) && AccountsOk(c)
    ensures Good(Opening(c))
  {
    hide Good;
    LinkedIsHashed(env, c.blocks, |c.blocks|);
    ReplayedIs(env, c.blocks);
    AccountsUnique(c, Replayed(env, c.blocks));
    ReplayedIsGood(env, c.blocks);
  }

  lemma {:induction false} RunGood(env: Env, w: World, actions: seq<Action>)
    requires Good(w)
    ensures Good(Run(env, w, actions))
  {
    if actions != [] {
      hide Good, Submitted, Solved, SettledUpTo, Appended;
      var front, last := Run(env, w, actions[..|actions| - 1]), actions[|actions| - 1];
      RunGood(env, w, actions[..|actions| - 1]);
      match last
      case Append(b) => AppendGood(env, front, b);
      case Submit(r) => SubmitGood(front, r);
      case Solve(o) => SolveGood(env, front, o);
      case Process => ProcessGood(front, |front.jobs|, HeightOf(front.chain.blocks));
    }
  }

  /** All that balances and escrow hold. */
  ghost function Found(w: World): int {
    Sum(w.chain.balances) + Total(w.jobs, Held)
  }

  /**
   Conservation. After any run, all balances and all bounties in escrow add up to total_supply exactly as
   long as their sum fits into 64 bits, and to total_supply modulo 2^64 always. In particular they add up
   to it while the rewards fit.
   */
  lemma CertsAreConserved(env: Env, c: Chain, actions: seq<Action>)
    requires Linked(env, c.blocks) && AccountsOk(c)
    ensures var w := Run(env, Opening(c), actions);
            (Found(w) == w.chain.totalSupply <==> Found(w) < TWO_64) && Found(w) % TWO_64 == w.chain.totalSupply &&
            (RewardSum(w.chain.blocks) < TWO_64 ==> Found(w) == w.chain.totalSupply == RewardSum(w.chain.blocks))
  {
    hide Run, Sum, Total, RewardSum, Held, JobsOk, BalancesOk, CountersOk;
    OpeningIsGood(env, c);
    RunGood(env, Opening(c), actions);
    var w := Run(env, Opening(c), actions);
    HeldIsNatural(w.jobs);
    FoundIs(RewardSum(w.chain.blocks), Found(w));
  }

  // ------------------------------------------------ rewards that do not fit

  const HALF := TWO_64 / 2

  /** Two blocks whose rewards add up to 2^64, which no check on blocks forbids. */
  function FirstHalf(miner: Address): Block {
    Block(1, 0, ZeroHash(), ZeroHash(), 0, 1, 0, 0, [], ZeroHash(), HALF, miner, ZeroHash())
  }

  function SecondHalf(env: Env, first: Block, miner: Address): Block {
    FirstHalf(miner).(height := 1, prevHash := ComputeHash(env, first))
  }

  ghost function TwoHalves(env: Env, a: Address, b: Address): World {
    Run(env, Opening(EMPTY_CHAIN), [Append(FirstHalf(a)), Append(SecondHalf(env, FirstHalf(a), b))])
  }

  /**
   With two miners the balances keep both halves while total_supply wraps to zero; with one miner the
   balance wraps too and nothing is noticed.
   */
  lemma HalvesWrapApart(env: Env, a: Address, b: Address)
    ensures var w := TwoHalves(env, a, b);
            RewardSum(w.chain.blocks) == TWO_64 && w.chain.totalSupply == 0 && Found(w) == if a == b then 0 else TWO_64
  {
    HalvesAppended(env, a, b);
    HalvesSum(env, a, b);
    hide TwoHalves, HalfChain, RewardSum, Sum;
    assert Total([], Held) == 0;
  }

  /** The chain of the two blocks. */
  ghost function HalfChain(env: Env, a: Address, b: Address): Chain {
    var first := FirstHalf(a);
    Appended(env, Appended(env, EMPTY_CHAIN, first), SecondHalf(env, first, b))
  }

  lemma HalvesAppended(env: Env, a: Address, b: Address)
    ensures TwoHalves(env, a, b) == Opening(HalfChain(env, a, b))
  {
    hide ComputeHash;
    var b0, b1 := FirstHalf(a), SecondHalf(env, FirstHalf(a), b);
    RunOfTwo(env, Opening(EMPTY_CHAIN), Append(b0), Append(b1));
  }

  lemma HalvesSum(env: Env, a: Address, b: Address)
    ensures var c := HalfChain(env, a, b);
            RewardSum(c.blocks) == TWO_64 && c.totalSupply == 0 && Sum(c.balances) == if a == b then 0 else TWO_64
  {
    hide ComputeHash, Sum, RewardSum;
    var b0, b1 := FirstHalf(a), SecondHalf(env, FirstHalf(a), b);
    var c0 := Appended(env, EMPTY_CHAIN, b0);
    assert c0.blocks == [] + [Hashed(env, b0)];
    RewardsAppend([], Hashed(env, b0));
    RewardsAppend(c0.blocks, Hashed(env, b1));
    SumUpdate(map[], a, HALF);
    SumUpdate(c0.balances, b, Add64(Get(c0.balances, b), HALF));
    NothingSums();
  }

  lemma NothingSums()
    ensures RewardSum([]) == 0 && Sum<Address>(map[]) == 0
  {
  }

  lemma RunOfTwo(env: Env, w: World, x: Action, y: Action)
    ensures Run(env, w, [x, y]) == Act(env, Act(env, w, x), y)
  {
    hide Act;
    assert [x, y][..1] == [x] && [x][..0] == [];
    assert Run(env, w, [x]) == Act(env, w, x);
  }

  lemma {:induction false} HeldIsNatural(jobs: seq<Job>)
    ensures Total(jobs, Held) >= 0
  {
    if jobs != [] { HeldIsNatural(jobs[..|jobs| - 1]); }
  }

  lemma FoundIs(all: nat, found: int)
    requires found <= all && (all - found) % TWO_64 == 0
    ensures found % TWO_64 == all % TWO_64
    ensures all < TWO_64 && found >= 0 ==> found == all
  {
  }

  /**
   Each bounty is released exactly once: whatever an address has, beside its rewards, is what closed jobs
   have paid it less what it has posted; total_bounties_paid is the bounties of the completed jobs; and
   each of those went to the earliest of its best solutions.
   */
  lemma BountiesArePaidOnce(env: Env, c: Chain, actions: seq<Action>)
    requires Linked(env, c.blocks) && AccountsOk(c)
    ensures var w := Run(env, Opening(c), actions);
            w.bountiesPaid == Total(w.jobs, Awarded) % TWO_64 && w.jobsCompleted == Total(w.jobs, Done) % TWO_64 &&
            BalancesOk(w) &&
            forall i :: 0 <= i < |w.jobs| && w.jobs[i].status == Completed ==> WonByBest(w.jobs[i])
  {
    hide Run, Sum, Total, RewardSum, RewardsOf, Gain, Conserved, BestOf;
    OpeningIsGood(env, c);
    RunGood(env, Opening(c), actions);
    var w := Run(env, Opening(c), actions);
    forall i | 0 <= i < |w.jobs| && w.jobs[i].status == Completed ensures WonByBest(w.jobs[i]) {
      assert JobOk(w.jobs[i]);
      BestIsEarliestMinimal(w.jobs[i].solutions, BestOf(w.jobs[i].solutions));
    }
  }

  ghost predicate WonByBest(j: Job) {
    exists k: nat :: EarliestMinimal(j.solutions, k) && j.winner == j.solutions[k].solver
  }

  // ------------------------------------------------ the life of a job

  ghost function Rank(s: Status): nat {
    match s
    case Open => 0
    case Solving => 1
    case _ => 2
  }

  /** What may become of a job: its terms stay, solutions are only added, and a closed job never changes. */
  ghost predicate Becomes(j: Job, k: Job) {
    k.id == j.id && k.title == j.title && k.submitter == j.submitter && k.bounty == j.bounty &&
    k.submitHeight == j.submitHeight && k.deadline == j.deadline &&
    j.solutions <= k.solutions && Rank(j.status) <= Rank(k.status) && (!Active(j) ==> k == j)
  }

  ghost predicate JobsBecome(jobs: seq<Job>, later: seq<Job>) {
    |jobs| <= |later| && forall i :: 0 <= i < |jobs| ==> Becomes(jobs[i], later[i])
  }

  lemma ActBecomes(env: Env, w: World, action: Action)
    ensures JobsBecome(w.jobs, Act(env, w, action).jobs)
  {
    if action == Process {
      var height := HeightOf(w.chain.blocks);
      forall i | 0 <= i < |w.jobs| ensures Becomes(w.jobs[i], Act(env, w, action).jobs[i]) {
        ProcessedJobs(w, |w.jobs|, height, i);
      }
    }
    hide SettledUpTo, Recipient, Appended;
  }

  lemma {:induction false} RunBecomes(env: Env, w: World, actions: seq<Action>)
    ensures JobsBecome(w.jobs, Run(env, w, actions).jobs)
  {
    if actions != [] {
      hide Act;
      var front := Run(env, w, actions[..|actions| - 1]);
      RunBecomes(env, w, actions[..|actions| - 1]);
      ActBecomes(env, front, actions[|actions| - 1]);
      BecomeTwice(w.jobs, front.jobs, Run(env, w, actions).jobs);
    }
  }

  lemma BecomeTwice(a: seq<Job>, b: seq<Job>, c: seq<Job>)
    requires JobsBecome(a, b) && JobsBecome(b, c)
    ensures JobsBecome(a, c)
  {
    forall i | 0 <= i < |a| ensures Becomes(a[i], c[i]) {
      assert Becomes(a[i], b[i]) && Becomes(b[i], c[i]);
    }
  }
}
