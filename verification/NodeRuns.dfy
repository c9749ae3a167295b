/**
 Every interleaving of peer blocks with the mining loop of src/testnet_node.cpp. The loop checks the
 limit on its own blocks, reads the height and the tip, mines, and commits under the lock; all but the
 commit happen without it, so peer blocks may arrive in between.
 */
module NodeRuns {
  import opened Words
  import opened Bytes
  import opened SatInstances
  import opened Blocks
  import opened Ledger

  /** Where the mining loop is. */
  datatype Phase = Idle | Checked | HeightRead(height: nat) | Mined(block: Block)

  datatype Node = Node(chain: Chain, phase: Phase)

  datatype Event =
    | PeerBlock(b: Block)      // the callback runs
    | CheckLimit               // check_consecutive for the node's own address
    | ReadHeight               // mine_block starts: the next height is read
    | ReadTipAndMine(b: Block) // the tip is read; b is what mining makes of it, height 0 if it fails
    | TryCommit                // witness check, then the locked re-check and append

  ghost function Step(env: Env, own: Address, n: Node, e: Event): Node {
    match e
    case PeerBlock(b) => if PeerAccepts(env, n.chain.blocks, b) then n.(chain := Appended(env, n.chain, b)) else n
    case CheckLimit =>
      if n.phase == Idle && TrailingRun(n.chain.blocks, own) < MAX_CONSECUTIVE_BLOCKS then n.(phase := Checked) else n
    case ReadHeight => if n.phase == Checked then n.(phase := HeightRead(Add64(HeightOf(n.chain.blocks), 1))) else n
    case ReadTipAndMine(b) =>
      if n.phase.HeightRead? && b.minerAddress == own && b.prevHash == TipHash(n.chain.blocks) &&
          (b.height == n.phase.height || b.height == 0)
      then n.(phase := Mined(b)) else n
    case TryCommit =>
      if n.phase.Mined? then
        if WitnessOk(env, n.phase.block) && CommitAccepts(n.chain.blocks, n.phase.block)
        then Node(Appended(env, n.chain, n.phase.block), Idle)
        else n.(phase := Idle)
      else n
  }

  ghost function Run(env: Env, own: Address, n: Node, events: seq<Event>): Node {
    if events == [] then n else Step(env, own, Run(env, own, n, events[..|events| - 1]), events[|events| - 1])
  }

  /** One step through the methods of the chain. */
  method Perform(env: Env, own: Address, chain: ChainState, phase: Phase, e: Event) returns (next: Phase)
    modifies chain
    ensures Node(chain.Value(), next) == Step(env, own, old(Node(chain.Value(), phase)), e)
  {
    hide TrailingRun, Appended, Accepted;
    next := phase;
    match e {
      case PeerBlock(b) =>
        var _ := chain.OnPeerBlock(env, b);
      case CheckLimit =>
        var free := CheckConsecutive(chain.blocks, own);
        if phase == Idle && free { next := Checked; }
      case ReadHeight =>
        if phase == Checked { next := HeightRead(Add64(HeightOf(chain.blocks), 1)); }
      case ReadTipAndMine(b) =>
        if phase.HeightRead? && b.minerAddress == own && b.prevHash == TipHash(chain.blocks) &&
            (b.height == phase.height || b.height == 0) {
          next := Mined(b);
        }
      case TryCommit =>
        if phase.Mined? {
          var b := phase.block;
          next := Idle;
          var good := Verify(env.instanceOf(b.prevHash, b.difficulty), b.witnessBits);
          if good {
            var _ := chain.Commit(env, b);
          }
        }
    }
  }

  /** A whole run through the methods. */
  method Replay(env: Env, own: Address, chain: ChainState, events: seq<Event>) returns (phase: Phase)
    modifies chain
    ensures Node(chain.Value(), phase) == Run(env, own, old(Node(chain.Value(), Idle)), events)
  {
    hide Step;
    phase := Idle;
    for i := 0 to |events|
      invariant Node(chain.Value(), phase) == Run(env, own, old(Node(chain.Value(), Idle)), events[..i])
    {
      assert events[..i + 1][..i] == events[..i];
      phase := Perform(env, own, chain, phase, events[i]);
    }
    assert events[..|events|] == events;
  }

  // ------------------------------------------------ safety

  /** A good chain; the node's own address may once exceed the limit by one. */
  ghost predicate Safe(env: Env, own: Address, n: Node) {
    n.chain.blocks != [] && Linked(env, n.chain.blocks) && AccountsOk(n.chain) &&
    (forall m :: m != own ==> RunsWithin(n.chain.blocks, m, MAX_CONSECUTIVE_BLOCKS)) &&
    RunsWithin(n.chain.blocks, own, MAX_CONSECUTIVE_BLOCKS + 1) &&
    (n.phase != Idle ==> TrailingRun(n.chain.blocks, own) <= MAX_CONSECUTIVE_BLOCKS) &&
    PhaseOk(own, n)
  }

  /** What the loop remembers was true of the chain or of a prefix of it. */
  ghost predicate PhaseOk(own: Address, n: Node) {
    (n.phase.HeightRead? ==> n.phase.height <= |n.chain.blocks|) &&
    (n.phase.Mined? ==> n.phase.block.height <= |n.chain.blocks| && n.phase.block.minerAddress == own)
  }

  lemma NextHeightIs(env: Env, blocks: seq<Block>)
    requires Linked(env, blocks) && blocks != [] && |blocks| < TWO_64
    ensures Add64(HeightOf(blocks), 1) == |blocks|
  {
    assert LinkedAt(env, blocks, |blocks| - 1);
  }

  lemma AppendKeepsRuns(env: Env, c: Chain, b: Block, limit: nat, m: Address)
    requires RunsWithin(c.blocks, m, limit)
    ensures RunsWithin(Appended(env, c, b).blocks, m, limit) <==>
            (b.minerAddress == m ==> TrailingRun(c.blocks, m) < limit)
    ensures TrailingRun(Appended(env, c, b).blocks, m) ==
            if b.minerAddress == m then 1 + TrailingRun(c.blocks, m) else 0
  {
    AppendRuns(c.blocks, Hashed(env, b), m, limit);
    RunAfter(c.blocks, Hashed(env, b), m);
  }

  /** Appending at the tip keeps everything but the bound on the appending miner's run. */
  lemma AppendSafe(env: Env, own: Address, n: Node, b: Block, phase: Phase)
    requires Safe(env, own, n) && |n.chain.blocks| < TWO_64
    requires b.height == |n.chain.blocks| && b.prevHash == TipHash(n.chain.blocks) && WitnessOk(env, b)
    requires TrailingRun(n.chain.blocks, b.minerAddress) < MAX_CONSECUTIVE_BLOCKS +
             (if b.minerAddress == own && phase == Idle then 1 else 0)
    requires phase == Idle || phase == n.phase
    ensures Safe(env, own, Node(Appended(env, n.chain, b), phase))
  {
    hide Linked, AccountsOk, RunsWithin, TrailingRun, Appended;
    AppendKeepsLinked(env, n.chain, b);
    AppendKeepsAccounts(env, n.chain, b);
    AppendedIs(env, n.chain, b);
    AppendKeepsRuns(env, n.chain, b, MAX_CONSECUTIVE_BLOCKS + 1, own);
    forall m | m != own ensures RunsWithin(Appended(env, n.chain, b).blocks, m, MAX_CONSECUTIVE_BLOCKS) {
      AppendKeepsRuns(env, n.chain, b, MAX_CONSECUTIVE_BLOCKS, m);
    }
  }

  lemma AppendedIs(env: Env, c: Chain, b: Block)
    ensures Appended(env, c, b).blocks == c.blocks + [Hashed(env, b)]
  {
  }

  lemma StepSafe(env: Env, own: Address, n: Node, e: Event)
    requires Safe(env, own, n) && |n.chain.blocks| < TWO_64
    ensures Safe(env, own, Step(env, own, n, e))
    ensures n.chain.blocks <= Step(env, own, n, e).chain.blocks
    ensures |Step(env, own, n, e).chain.blocks| <= |n.chain.blocks| + 1
  {
    hide Linked, AccountsOk, RunsWithin, TrailingRun, Appended, WitnessOk;
    NextHeightIs(env, n.chain.blocks);
    match e
    case PeerBlock(b) =>
      AppendedIs(env, n.chain, b);
      if PeerAccepts(env, n.chain.blocks, b) { AppendSafe(env, own, n, b, n.phase); }
    case TryCommit =>
      if n.phase.Mined? && WitnessOk(env, n.phase.block) && CommitAccepts(n.chain.blocks, n.phase.block) {
        AppendedIs(env, n.chain, n.phase.block);
        AppendSafe(env, own, n, n.phase.block, Idle);
      }
    case _ =>
  }

  /**
   In every interleaving from a good chain with a genesis block: the chain only grows at its end, stays
   linked, its accounts stay right, no other miner gets more than 50 blocks in a row and the node itself
   no more than 51. (Heights are 64-bit, so the run must not fill them.)
   */
  lemma {:induction false} RunSafe(env: Env, own: Address, n: Node, events: seq<Event>)
    requires Safe(env, own, n) && |n.chain.blocks| + |events| <= TWO_64
    ensures Safe(env, own, Run(env, own, n, events))
    ensures n.chain.blocks <= Run(env, own, n, events).chain.blocks
    ensures |Run(env, own, n, events).chain.blocks| <= |n.chain.blocks| + |events|
  {
    if events != [] {
      hide Safe;
      var front := events[..|events| - 1];
      RunSafe(env, own, n, front);
      StepSafe(env, own, Run(env, own, n, front), events[|events| - 1]);
    }
  }

  // ------------------------------------------------ the limit of 50 for the node itself

  /**
   The commit re-check compares height and tip but not the limit, so it keeps the limit of 50 exactly
   when check_consecutive would still pass at that moment.
   */
  lemma CommitKeepsLimitExactly(env: Env, own: Address, c: Chain, b: Block)
    requires RunsWithin(c.blocks, own, MAX_CONSECUTIVE_BLOCKS) && b.minerAddress == own && CommitAccepts(c.blocks, b)
    ensures RunsWithin(Appended(env, c, b).blocks, own, MAX_CONSECUTIVE_BLOCKS) <==>
            TrailingRun(c.blocks, own) < MAX_CONSECUTIVE_BLOCKS
  {
    AppendKeepsRuns(env, c, b, MAX_CONSECUTIVE_BLOCKS, own);
  }

  /** If this event commits a block, the limit check would pass at that moment. */
  ghost predicate CommitFree(env: Env, own: Address, n: Node, e: Event) {
    e.TryCommit? && n.phase.Mined? && WitnessOk(env, n.phase.block) && CommitAccepts(n.chain.blocks, n.phase.block)
    ==> TrailingRun(n.chain.blocks, own) < MAX_CONSECUTIVE_BLOCKS
  }

  ghost predicate CommitFreeAt(env: Env, own: Address, n: Node, events: seq<Event>, k: nat)
    requires k < |events|
  {
    CommitFree(env, own, Run(env, own, n, events[..k]), events[k])
  }

  lemma StepKeepsLimitExactly(env: Env, own: Address, n: Node, e: Event)
    requires Safe(env, own, n) && |n.chain.blocks| < TWO_64
    ensures RunsWithin(Step(env, own, n, e).chain.blocks, own, MAX_CONSECUTIVE_BLOCKS) <==>
            RunsWithin(n.chain.blocks, own, MAX_CONSECUTIVE_BLOCKS) && CommitFree(env, own, n, e)
  {
    hide Linked, AccountsOk, TrailingRun, Appended, WitnessOk, CommitAccepts, PeerAccepts;
    StepSafe(env, own, n, e);
    ShorterRuns(n.chain.blocks, Step(env, own, n, e).chain.blocks, own, MAX_CONSECUTIVE_BLOCKS);
    hide Safe, RunsWithin;
    if RunsWithin(n.chain.blocks, own, MAX_CONSECUTIVE_BLOCKS) {
      match e
      case PeerBlock(b) =>
        AppendKeepsRuns(env, n.chain, b, MAX_CONSECUTIVE_BLOCKS, own);
        AcceptedIsFree(env, n.chain.blocks, b);
      case TryCommit =>
        OwnBlock(env, own, n);
        if n.phase.Mined? {
          AppendKeepsRuns(env, n.chain, n.phase.block, MAX_CONSECUTIVE_BLOCKS, own);
        }
      case _ =>
    }
  }

  lemma OwnBlock(env: Env, own: Address, n: Node)
    requires Safe(env, own, n)
    ensures n.phase.Mined? ==> n.phase.block.minerAddress == own
  {
    hide Linked, AccountsOk, RunsWithin, TrailingRun;
  }

  /** A longer peer block than genesis passes the limit check; genesis comes when there is no run. */
  lemma AcceptedIsFree(env: Env, blocks: seq<Block>, b: Block)
    ensures PeerAccepts(env, blocks, b) ==> TrailingRun(blocks, b.minerAddress) < MAX_CONSECUTIVE_BLOCKS
  {
  }

  lemma ShorterRuns(blocks: seq<Block>, longer: seq<Block>, miner: Address, limit: nat)
    requires blocks <= longer
    ensures RunsWithin(longer, miner, limit) ==> RunsWithin(blocks, miner, limit)
  {
    hide TrailingRun;
    forall k | 0 <= k <= |blocks| ensures blocks[..k] == longer[..k] {}
  }

  /**
   Over a whole run the node stays within 50 in a row exactly when each of its commits happens while the
   limit check would pass.
   */
  lemma {:induction false} RunKeepsLimitExactly(env: Env, own: Address, n: Node, events: seq<Event>)
    requires Safe(env, own, n) && |n.chain.blocks| + |events| <= TWO_64
    requires RunsWithin(n.chain.blocks, own, MAX_CONSECUTIVE_BLOCKS)
    ensures RunsWithin(Run(env, own, n, events).chain.blocks, own, MAX_CONSECUTIVE_BLOCKS) <==>
            forall k :: 0 <= k < |events| ==> CommitFreeAt(env, own, n, events, k)
  {
    hide Safe, RunsWithin, Step, CommitFree;
    if events != [] {
      var front, last := events[..|events| - 1], events[|events| - 1];
      RunSafe(env, own, n, front);
      RunKeepsLimitExactly(env, own, n, front);
      StepKeepsLimitExactly(env, own, Run(env, own, n, front), last);
      forall k | 0 <= k < |front|
        ensures CommitFreeAt(env, own, n, events, k) <==> CommitFreeAt(env, own, n, front, k)
      {
        assert events[..k] == front[..k];
      }
      assert CommitFreeAt(env, own, n, events, |front|) <==> CommitFree(env, own, Run(env, own, n, front), last);
    }
  }

  /** No peer block with the node's own address gets in between the check and the reading of the height. */
  ghost predicate Undisturbed(env: Env, own: Address, n: Node, e: Event) {
    e.PeerBlock? && n.phase == Checked && PeerAccepts(env, n.chain.blocks, e.b) ==> e.b.minerAddress != own
  }

  ghost predicate RunUndisturbed(env: Env, own: Address, n: Node, events: seq<Event>) {
    forall k :: 0 <= k < |events| ==> Undisturbed(env, own, Run(env, own, n, events[..k]), events[k])
  }

  /** The check, stale as it is, still holds whenever the commit can succeed. */
  ghost predicate CheckStillHolds(own: Address, n: Node) {
    RunsWithin(n.chain.blocks, own, MAX_CONSECUTIVE_BLOCKS) &&
    (n.phase == Checked ==> TrailingRun(n.chain.blocks, own) < MAX_CONSECUTIVE_BLOCKS) &&
    (n.phase.HeightRead? && n.phase.height == |n.chain.blocks| ==>
     TrailingRun(n.chain.blocks, own) < MAX_CONSECUTIVE_BLOCKS) &&
    (n.phase.Mined? && n.phase.block.height == |n.chain.blocks| ==>
     TrailingRun(n.chain.blocks, own) < MAX_CONSECUTIVE_BLOCKS)
  }

  lemma StepKeepsCheck(env: Env, own: Address, n: Node, e: Event)
    requires Safe(env, own, n) && |n.chain.blocks| < TWO_64 && CheckStillHolds(own, n) && Undisturbed(env, own, n, e)
    ensures CheckStillHolds(own, Step(env, own, n, e))
  {
    hide Linked, AccountsOk, RunsWithin, TrailingRun, Appended, WitnessOk;
    NextHeightIs(env, n.chain.blocks);
    match e
    case PeerBlock(b) =>
      AppendedIs(env, n.chain, b);
      AppendKeepsRuns(env, n.chain, b, MAX_CONSECUTIVE_BLOCKS, own);
    case TryCommit =>
      if n.phase.Mined? {
        AppendedIs(env, n.chain, n.phase.block);
        AppendKeepsRuns(env, n.chain, n.phase.block, MAX_CONSECUTIVE_BLOCKS, own);
      }
    case _ =>
  }

  /** Without such a disturbance no miner at all gets more than 50 blocks in a row. */
  lemma {:induction false} UndisturbedRunKeepsLimit(env: Env, own: Address, n: Node, events: seq<Event>)
    requires Safe(env, own, n) && |n.chain.blocks| + |events| <= TWO_64
    requires CheckStillHolds(own, n) && RunUndisturbed(env, own, n, events)
    ensures CheckStillHolds(own, Run(env, own, n, events))
    ensures forall m :: RunsWithin(Run(env, own, n, events).chain.blocks, m, MAX_CONSECUTIVE_BLOCKS)
  {
    RunSafe(env, own, n, events);
    if events != [] {
      hide RunsWithin, Linked;
      var front := events[..|events| - 1];
      assert forall k :: 0 <= k < |front| ==> front[..k] == events[..k];
      RunSafe(env, own, n, front);
      UndisturbedRunKeepsLimit(env, own, n, front);
      assert Undisturbed(env, own, Run(env, own, n, events[..|events| - 1]), events[|events| - 1]);
      StepKeepsCheck(env, own, Run(env, own, n, front), events[|events| - 1]);
    }
  }

  // ------------------------------------------------ a run that breaks the limit

  /** Instances without clauses, and a hash that is always zero. */
  function TrivialEnv(): Env {
    Env(_ => ZeroHash(), (_, _) => SatInstance(0, []))
  }

  /** The shortest address whose size is zero in 16 bits; the node takes any that starts with cert1. */
  function LongAddress(): (a: Address)
    ensures |a| == TWO_16
  {
    [99, 101, 114, 116, 49] + seq(TWO_16 - 5, _ => 120)
  }

  function TrivialBlock(own: Address, height: U64): Block {
    Block(1, height, ZeroHash(), ZeroHash(), 0, 1, 0, 0, [], ZeroHash(), 0, own, ZeroHash())
  }

  /** A chain of n blocks of one miner. */
  function OwnChain(own: Address, n: nat): Chain
    requires n < TWO_64
  {
    Chain(seq(n, i requires 0 <= i < n => TrivialBlock(own, i)), 0, if n == 0 then map[] else map[own := 0])
  }

  lemma {:induction false} OwnChainRun(own: Address, n: nat)
    requires n < TWO_64
    ensures TrailingRun(OwnChain(own, n).blocks, own) == n
  {
    if n > 0 {
      OwnChainRun(own, n - 1);
      assert OwnChain(own, n).blocks[..n - 1] == OwnChain(own, n - 1).blocks;
    }
  }

  lemma TrivialHashed(own: Address, h: U64)
    ensures Hashed(TrivialEnv(), TrivialBlock(own, h)) == TrivialBlock(own, h)
  {
    hide Serialize;
  }

  lemma OwnBlocksGrow(own: Address, n: nat)
    requires n < TWO_64 - 1
    ensures OwnChain(own, n + 1).blocks == OwnChain(own, n).blocks + [TrivialBlock(own, n)]
  {
    hide TrivialBlock;
  }

  lemma TrivialMiner(own: Address, n: U64)
    ensures TrivialBlock(own, n).minerAddress == own && TrivialBlock(own, n).reward == 0
  {
  }

  lemma OwnChainGrows(own: Address, n: nat)
    requires 0 < n < TWO_64 - 1
    ensures Appended(TrivialEnv(), OwnChain(own, n), TrivialBlock(own, n)) == OwnChain(own, n + 1)
  {
    TrivialHashed(own, n);
    OwnBlocksGrow(own, n);
    hide Hashed, TrivialEnv, TrivialBlock;
    TrivialMiner(own, n);
    var grown := Appended(TrivialEnv(), OwnChain(own, n), TrivialBlock(own, n));
    assert grown.blocks == OwnChain(own, n + 1).blocks;
    assert grown.balances == map[own := 0];
  }

  /** OwnChain is a state that the checks allow, as long as the run is within the limit. */
  lemma OwnChainSafe(own: Address, n: nat)
    requires 0 < n <= MAX_CONSECUTIVE_BLOCKS
    ensures var node := Node(OwnChain(own, n), Idle); Safe(TrivialEnv(), own, node) && CheckStillHolds(own, node)
    decreases n
  {
    var env := TrivialEnv();
    TrivialWitness(own, n - 1);
    if n == 1 {
      TrivialHashed(own, 0);
      GenesisIsSafe(env, own, TrivialBlock(own, 0));
      OneOwnBlock(own);
    } else {
      OwnChainSafe(own, n - 1);
      OwnChainRun(own, n - 1);
      OwnChainGrows(own, n - 1);
      OwnChainTip(own, n - 1);
      hide Safe, TrivialEnv, OwnChain, TrivialBlock, PeerAccepts, HeightOf, TipHash, CheckStillHolds, Undisturbed;
      var before, b := Node(OwnChain(own, n - 1), Idle), TrivialBlock(own, n - 1);
      OwnBlockAccepted(own, n - 1);
      StepSafe(env, own, before, PeerBlock(b));
      NotDisturbed(env, own, before, PeerBlock(b));
      StepKeepsCheck(env, own, before, PeerBlock(b));
    }
  }

  // ------------------------------------------------ the race

  /** The block is the node's own and the next one. */
  ghost predicate OwnNext(env: Env, own: Address, c: Chain, b: Block) {
    b.minerAddress == own && b.height == |c.blocks| && b.prevHash == TipHash(c.blocks) && WitnessOk(env, b)
  }

  /** The events of the race: check, peer block with the node's own address, height, tip, commit. */
  function RaceEvents(b: Block, b': Block): seq<Event> {
    [CheckLimit, PeerBlock(b), ReadHeight, ReadTipAndMine(b'), TryCommit]
  }

  /** From any safe state in which the check passes, the race lets two blocks of the node through. */
  lemma RaceAddsTwo(env: Env, own: Address, n: Node, b: Block, b': Block)
    requires Safe(env, own, n) && n.phase == Idle && |n.chain.blocks| + 1 < TWO_64
    requires TrailingRun(n.chain.blocks, own) < MAX_CONSECUTIVE_BLOCKS
    requires OwnNext(env, own, n.chain, b) && OwnNext(env, own, Appended(env, n.chain, b), b')
    ensures var end := Run(env, own, n, RaceEvents(b, b'));
            end.chain == Appended(env, Appended(env, n.chain, b), b') &&
            TrailingRun(end.chain.blocks, own) == TrailingRun(n.chain.blocks, own) + 2
  {
    var c, c1, c2 := n.chain, Appended(env, n.chain, b), Appended(env, Appended(env, n.chain, b), b');
    NextTwo(env, own, n, b, b');
    hide Safe, Appended, WitnessOk, HeightOf, TipHash, TrailingRun, PeerAccepts, CommitAccepts, Run, OwnNext;
    assert Step(env, own, n, CheckLimit) == Node(c, Checked);
    assert Step(env, own, Node(c, Checked), PeerBlock(b)) == Node(c1, Checked);
    var height := Add64(HeightOf(c1.blocks), 1);
    assert Step(env, own, Node(c1, Checked), ReadHeight) == Node(c1, HeightRead(height));
    assert Step(env, own, Node(c1, HeightRead(height)), ReadTipAndMine(b')) == Node(c1, Phase.Mined(b'));
    assert Step(env, own, Node(c1, Phase.Mined(b')), TryCommit) == Node(c2, Idle);
    RunOfFive(env, own, n, CheckLimit, PeerBlock(b), ReadHeight, ReadTipAndMine(b'), TryCommit);
  }

  /** Both blocks are accepted, each on the way it takes, and lengthen the run. */
  lemma NextTwo(env: Env, own: Address, n: Node, b: Block, b': Block)
    requires Safe(env, own, n) && |n.chain.blocks| + 1 < TWO_64
    requires TrailingRun(n.chain.blocks, own) < MAX_CONSECUTIVE_BLOCKS
    requires OwnNext(env, own, n.chain, b) && OwnNext(env, own, Appended(env, n.chain, b), b')
    ensures var c, c1 := n.chain, Appended(env, n.chain, b);
            PeerAccepts(env, c.blocks, b) && b'.height == Add64(HeightOf(c1.blocks), 1) &&
            b'.prevHash == TipHash(c1.blocks) &&
            b'.minerAddress == own && WitnessOk(env, b') && CommitAccepts(c1.blocks, b') &&
            TrailingRun(Appended(env, c1, b').blocks, own) == TrailingRun(c.blocks, own) + 2
  {
    var c, c1 := n.chain, Appended(env, n.chain, b);
    AppendedIs(env, c, b);
    AppendedIs(env, c1, b');
    RunAfter(c.blocks, Hashed(env, b), own);
    RunAfter(c1.blocks, Hashed(env, b'), own);
    hide RunsWithin, TrailingRun, WitnessOk, ComputeHash;
    AppendKeepsLinked(env, c, b);
    hide Linked, AccountsOk, Appended;
    NextHeightIs(env, c.blocks);
    NextHeightIs(env, c1.blocks);
  }

  /** So wherever the node already has 49 blocks in a row, the race makes it 51. */
  lemma RaceReachesFiftyOne(env: Env, own: Address, n: Node, b: Block, b': Block)
    requires Safe(env, own, n) && n.phase == Idle && |n.chain.blocks| + 1 < TWO_64
    requires TrailingRun(n.chain.blocks, own) == 49
    requires OwnNext(env, own, n.chain, b) && OwnNext(env, own, Appended(env, n.chain, b), b')
    ensures !RunsWithin(Run(env, own, n, RaceEvents(b, b')).chain.blocks, own, MAX_CONSECUTIVE_BLOCKS)
    ensures TrailingRun(Run(env, own, n, RaceEvents(b, b')).chain.blocks, own) == 51
  {
    RaceAddsTwo(env, own, n, b, b');
    var blocks := Run(env, own, n, RaceEvents(b, b')).chain.blocks;
    hide TrailingRun, Run;
    assert blocks[..|blocks|] == blocks;
  }

  /** Such a start exists: 49 blocks of the node on a safe chain. */
  lemma RaceHappens(own: Address)
    ensures var env, n := TrivialEnv(), Node(OwnChain(own, 49), Idle);
            Safe(env, own, n) && CheckStillHolds(own, n) && TrailingRun(n.chain.blocks, own) == 49 &&
            TrailingRun(Run(env, own, n, RaceEvents(TrivialBlock(own, 49), TrivialBlock(own, 50))).chain.blocks, own) ==
            51
  {
    var env, n := TrivialEnv(), Node(OwnChain(own, 49), Idle);
    OwnChainSafe(own, 49);
    OwnChainRun(own, 49);
    OwnChainGrows(own, 49);
    OwnChainTip(own, 49);
    OwnChainTip(own, 50);
    TrivialWitness(own, 49);
    TrivialWitness(own, 50);
    hide Safe, CheckStillHolds, TrailingRun, WitnessOk, TrivialEnv, TrivialBlock, TipHash, Run;
    RaceReachesFiftyOne(env, own, n, TrivialBlock(own, 49), TrivialBlock(own, 50));
  }

  lemma OneOwnBlock(own: Address)
    ensures Appended(TrivialEnv(), EMPTY_CHAIN, TrivialBlock(own, 0)) == OwnChain(own, 1)
  {
    TrivialHashed(own, 0);
    hide Hashed, TrivialEnv;
  }

  lemma OwnBlockAccepted(own: Address, n: nat)
    requires 0 < n < MAX_CONSECUTIVE_BLOCKS
    ensures PeerAccepts(TrivialEnv(), OwnChain(own, n).blocks, TrivialBlock(own, n))
  {
    OwnChainRun(own, n);
    OwnChainTip(own, n);
    TrivialWitness(own, n);
    hide TrailingRun, WitnessOk, TrivialEnv, HeightOf, TipHash;
  }

  lemma NotDisturbed(env: Env, own: Address, n: Node, e: Event)
    requires n.phase == Idle
    ensures Undisturbed(env, own, n, e)
  {
  }

  lemma TrivialWitness(own: Address, h: U64)
    ensures var b := TrivialBlock(own, h);
            WitnessOk(TrivialEnv(), b) && b.height == h && b.minerAddress == own && b.prevHash == ZeroHash()
  {
  }

  lemma OwnChainTip(own: Address, n: nat)
    requires 0 < n < TWO_64 - 1
    ensures var blocks := OwnChain(own, n).blocks;
            blocks != [] && Add64(HeightOf(blocks), 1) == n && TipHash(blocks) == ZeroHash()
  {
  }

  lemma RunOfFive(env: Env, own: Address, n: Node, e1: Event, e2: Event, e3: Event, e4: Event, e5: Event)
    ensures Run(env, own, n, [e1, e2, e3, e4, e5]) ==
            Step(env, own, Step(env, own, Step(env, own, Step(env, own, Step(env, own, n, e1), e2), e3), e4), e5)
  {
    hide Step;
    assert [e1, e2, e3, e4, e5][..4] == [e1, e2, e3, e4] && [e1, e2, e3, e4][..3] == [e1, e2, e3];
    assert [e1, e2, e3][..2] == [e1, e2] && [e1, e2][..1] == [e1] && [e1][..0] == [];
    assert Run(env, own, n, [e1]) == Step(env, own, n, e1);
    assert Run(env, own, n, [e1, e2]) == Step(env, own, Run(env, own, n, [e1]), e2);
    assert Run(env, own, n, [e1, e2, e3]) == Step(env, own, Run(env, own, n, [e1, e2]), e3);
    assert Run(env, own, n, [e1, e2, e3, e4]) == Step(env, own, Run(env, own, n, [e1, e2, e3]), e4);
  }

  // ------------------------------------------------ where runs start

  /** A genesis block on an empty chain is a good start. */
  lemma GenesisIsSafe(env: Env, own: Address, b: Block)
    requires b.height == 0 && PeerAccepts(env, [], b)
    ensures Safe(env, own, Node(Appended(env, EMPTY_CHAIN, b), Idle)) &&
            CheckStillHolds(own, Node(Appended(env, EMPTY_CHAIN, b), Idle))
  {
    AppendKeepsLinked(env, EMPTY_CHAIN, b);
    AppendKeepsAccounts(env, EMPTY_CHAIN, b);
    forall m ensures RunsWithin(Appended(env, EMPTY_CHAIN, b).blocks, m, 1) {
      assert RunsWithin([], m, 1);
      AppendKeepsRuns(env, EMPTY_CHAIN, b, 1, m);
    }
  }

  /**
   Without a genesis block the callback takes a first block of height 1 as well as one of height 0, so
   heights match positions from an empty chain exactly when the first block has height 0.
   */
  lemma FirstBlockDecidesHeights(env: Env, b: Block)
    requires PeerAccepts(env, [], b)
    ensures b.height == 0 || b.height == 1
    ensures Linked(env, Appended(env, EMPTY_CHAIN, b).blocks) <==> b.height == 0
  {
    var c := Appended(env, EMPTY_CHAIN, b);
    if b.height == 0 {
      AppendKeepsLinked(env, EMPTY_CHAIN, b);
    } else {
      assert !LinkedAt(env, c.blocks, 0);
    }
  }

  /** Such a block of height 1 exists. */
  lemma HeightOneOnEmpty(own: Address)
    ensures PeerAccepts(TrivialEnv(), [], TrivialBlock(own, 1))
  {
  }
}
