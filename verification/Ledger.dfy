/**
 The in-memory chain of src/testnet_node.cpp: appending blocks, the limit on consecutive blocks of one
 miner, the check of blocks from peers and the commit of mined blocks.
 */
module Ledger {
  import opened Words
  import opened Bytes
  import opened SatInstances
  import opened Blocks

  const MAX_CONSECUTIVE_BLOCKS := 50

  datatype Chain = Chain(blocks: seq<Block>, totalSupply: U64, balances: map<Address, nat>)

  const EMPTY_CHAIN := Chain([], 0, map[])

  function HeightOf(blocks: seq<Block>): U64 {
    if blocks == [] then 0 else blocks[|blocks| - 1].height
  }

  function TipHash(blocks: seq<Block>): Hash {
    if blocks == [] then ZeroHash() else blocks[|blocks| - 1].hash
  }

  // ------------------------------------------------ what a good chain is

  ghost predicate WitnessOk(env: Env, b: Block) {
    Accepted(env.instanceOf(b.prevHash, b.difficulty), b.witnessBits)
  }

  /** Block i has height i, points to its parent, carries its own hash and a witness for its instance. */
  ghost predicate LinkedAt(env: Env, blocks: seq<Block>, i: nat)
    requires i < |blocks|
  {
    blocks[i].height == i && blocks[i].prevHash == (if i == 0 then ZeroHash() else blocks[i - 1].hash) &&
    blocks[i].hash == ComputeHash(env, blocks[i]) && WitnessOk(env, blocks[i])
  }

  ghost predicate Linked(env: Env, blocks: seq<Block>) {
    forall i :: 0 <= i < |blocks| ==> LinkedAt(env, blocks, i)
  }

  ghost function RewardSum(blocks: seq<Block>): nat {
    if blocks == [] then 0 else RewardSum(blocks[..|blocks| - 1]) + blocks[|blocks| - 1].reward
  }

  ghost function RewardsOf(blocks: seq<Block>, miner: Address): nat {
    if blocks == [] then 0 else
      var last := blocks[|blocks| - 1];
      RewardsOf(blocks[..|blocks| - 1], miner) + (if last.minerAddress == miner then last.reward else 0)
  }

  /** Supply and balances are what the rewards add up to, in 64-bit arithmetic. */
  ghost predicate AccountsOk(c: Chain) {
    c.totalSupply == RewardSum(c.blocks) % TWO_64 &&
    (forall a :: Get(c.balances, a) == RewardsOf(c.blocks, a) % TWO_64) &&
    (forall a :: a in c.balances <==> Mined(c.blocks, a))
  }

  // ------------------------------------------------ appending

  predicate AcceptsBlock(blocks: seq<Block>, b: Block) {
    (b.height == Add64(HeightOf(blocks), 1) || b.height == 0) && (b.height > 0 ==> b.prevHash == TipHash(blocks))
  }

  function Hashed(env: Env, b: Block): Block {
    b.(hash := ComputeHash(env, b))
  }

  function Appended(env: Env, c: Chain, b: Block): Chain {
    Chain(c.blocks + [Hashed(env, b)], Add64(c.totalSupply, b.reward),
          c.balances[b.minerAddress := Add64(Get(c.balances, b.minerAddress), b.reward)])
  }

  lemma AppendKeepsAccounts(env: Env, c: Chain, b: Block)
    requires AccountsOk(c)
    ensures AccountsOk(Appended(env, c, b))
  {
    var c', h := Appended(env, c, b), Hashed(env, b);
    ReduceFirst(RewardSum(c.blocks), b.reward);
    RewardsAppend(c.blocks, h);
    MinersAppend(c.blocks, h);
    hide RewardSum, RewardsOf, Mined, ComputeHash;
    forall a ensures Get(c'.balances, a) == RewardsOf(c'.blocks, a) % TWO_64 {
      ReduceFirst(RewardsOf(c.blocks, a), b.reward);
      assert Get(c.balances, a) == RewardsOf(c.blocks, a) % TWO_64;
    }
  }

  lemma RewardsAppend(blocks: seq<Block>, b: Block)
    ensures RewardSum(blocks + [b]) == RewardSum(blocks) + b.reward
    ensures forall a :: RewardsOf(blocks + [b], a) == RewardsOf(blocks, a) + if b.minerAddress == a then b.reward else 0
  {
    assert (blocks + [b])[..|blocks|] == blocks;
  }

  ghost predicate Mined(blocks: seq<Block>, a: Address) {
    exists i :: 0 <= i < |blocks| && blocks[i].minerAddress == a
  }

  lemma MinersAppend(blocks: seq<Block>, b: Block)
    ensures forall a :: Mined(blocks + [b], a) <==> Mined(blocks, a) || a == b.minerAddress
  {
    var after := blocks + [b];
    assert after[|blocks|] == b;
    forall a ensures Mined(after, a) <==> Mined(blocks, a) || a == b.minerAddress {
      if Mined(blocks, a) {
        var i :| 0 <= i < |blocks| && blocks[i].minerAddress == a;
        assert after[i] == blocks[i];
      }
    }
  }

  lemma HashIgnoresHash(env: Env, b: Block)
    ensures ComputeHash(env, Hashed(env, b)) == ComputeHash(env, b)
  {
    assert HeaderFields(Hashed(env, b))[..10] == HeaderFields(b)[..10];
  }

  /** A block that names the next height, the tip and a good witness extends a linked chain. */
  lemma AppendKeepsLinked(env: Env, c: Chain, b: Block)
    requires Linked(env, c.blocks) && b.height == |c.blocks| && WitnessOk(env, b)
    requires b.prevHash == TipHash(c.blocks)
    ensures Linked(env, Appended(env, c, b).blocks)
  {
    var blocks := Appended(env, c, b).blocks;
    HashIgnoresHash(env, b);
    forall i | 0 <= i < |blocks| ensures LinkedAt(env, blocks, i) {
      if i < |c.blocks| { assert LinkedAt(env, c.blocks, i); }
    }
  }

  // ------------------------------------------------ consecutive blocks

  /** How many blocks at the end of the chain are the miner's. */
  function TrailingRun(blocks: seq<Block>, miner: Address): (n: nat)
    ensures n <= |blocks|
  {
    if blocks == [] || blocks[|blocks| - 1].minerAddress != miner then 0
    else 1 + TrailingRun(blocks[..|blocks| - 1], miner)
  }

  lemma {:induction false} TrailingRunIs(blocks: seq<Block>, miner: Address)
    ensures var n := TrailingRun(blocks, miner);
            (forall i :: |blocks| - n <= i < |blocks| ==> blocks[i].minerAddress == miner) &&
            (n < |blocks| ==> blocks[|blocks| - n - 1].minerAddress != miner)
  {
    if blocks != [] && blocks[|blocks| - 1].minerAddress == miner {
      TrailingRunIs(blocks[..|blocks| - 1], miner);
    }
  }

  /** No miner owns more than limit blocks in a row, anywhere in the chain. */
  ghost predicate RunsWithin(blocks: seq<Block>, miner: Address, limit: nat) {
    forall k :: 0 <= k <= |blocks| ==> TrailingRun(blocks[..k], miner) <= limit
  }

  /** One of the limit + 1 blocks from k on is somebody else's. */
  ghost predicate Interrupted(blocks: seq<Block>, miner: Address, k: nat, limit: nat)
    requires k + limit < |blocks|
  {
    exists i :: k <= i <= k + limit && blocks[i].minerAddress != miner
  }

  /** In other words: any limit + 1 blocks in a row are interrupted. */
  lemma RunsWithinMeans(blocks: seq<Block>, miner: Address, limit: nat)
    ensures RunsWithin(blocks, miner, limit) <==>
            forall k: nat :: k + limit < |blocks| ==> Interrupted(blocks, miner, k, limit)
  {
    if RunsWithin(blocks, miner, limit) {
      forall k: nat | k + limit < |blocks| ensures Interrupted(blocks, miner, k, limit) {
        var part := blocks[..k + limit + 1];
        TrailingRunIs(part, miner);
        var i := |part| - TrailingRun(part, miner) - 1;
        assert blocks[i] == part[i];
      }
    }
    if forall k: nat :: k + limit < |blocks| ==> Interrupted(blocks, miner, k, limit) {
      forall k | 0 <= k <= |blocks| ensures TrailingRun(blocks[..k], miner) <= limit {
        var part := blocks[..k];
        TrailingRunIs(part, miner);
        if k > limit {
          assert Interrupted(blocks, miner, k - limit - 1, limit);
          var i :| k - limit - 1 <= i <= k - 1 && blocks[i].minerAddress != miner;
          assert part[i] == blocks[i];
        }
      }
    }
  }

  lemma AppendRuns(blocks: seq<Block>, b: Block, miner: Address, limit: nat)
    requires RunsWithin(blocks, miner, limit)
    ensures RunsWithin(blocks + [b], miner, limit) <==> (b.minerAddress == miner ==> TrailingRun(blocks, miner) < limit)
  {
    var after := blocks + [b];
    RunAfter(blocks, b, miner);
    assert after[..|after|] == after;
    forall k | 0 <= k <= |blocks| ensures after[..k] == blocks[..k] {}
    hide TrailingRun;
    if b.minerAddress == miner && TrailingRun(blocks, miner) >= limit {
      assert TrailingRun(after[..|after|], miner) > limit;
    }
    assert blocks[..|blocks|] == blocks && TrailingRun(blocks[..|blocks|], miner) <= limit;
  }

  lemma RunAfter(blocks: seq<Block>, b: Block, miner: Address)
    ensures TrailingRun(blocks + [b], miner) == if b.minerAddress == miner then 1 + TrailingRun(blocks, miner) else 0
  {
    assert (blocks + [b])[..|blocks|] == blocks;
  }

  /** The loop of check_consecutive stops counting at the limit. */
  method CheckConsecutive(blocks: seq<Block>, miner: Address) returns (ok: bool)
    ensures ok <==> TrailingRun(blocks, miner) < MAX_CONSECUTIVE_BLOCKS
  {
    if |blocks| < MAX_CONSECUTIVE_BLOCKS { return true; }
    var consecutive, i := 0, |blocks|;
    assert blocks[..i] == blocks;
    while i > 0 && consecutive < MAX_CONSECUTIVE_BLOCKS
      invariant 0 <= i <= |blocks| && consecutive <= MAX_CONSECUTIVE_BLOCKS
      invariant TrailingRun(blocks, miner) == consecutive + TrailingRun(blocks[..i], miner)
    {
      assert blocks[..i][..i - 1] == blocks[..i - 1];
      if blocks[i - 1].minerAddress == miner {
        consecutive := consecutive + 1;
      } else {
        break;
      }
      i := i - 1;
    }
    return consecutive < MAX_CONSECUTIVE_BLOCKS;
  }

  // ------------------------------------------------ the two ways in

  /** The peer callback lets the block in. */
  ghost predicate PeerAccepts(env: Env, blocks: seq<Block>, b: Block) {
    if b.height == 0 && blocks == [] then b.prevHash == ZeroHash() && WitnessOk(env, b)
    else b.height == Add64(HeightOf(blocks), 1) && b.prevHash == TipHash(blocks) &&
         TrailingRun(blocks, b.minerAddress) < MAX_CONSECUTIVE_BLOCKS && WitnessOk(env, b)
  }

  /** The mining loop's commit lets the block in. */
  predicate CommitAccepts(blocks: seq<Block>, b: Block) {
    b.height == Add64(HeightOf(blocks), 1) && b.prevHash == TipHash(blocks)
  }

  class ChainState {
    var blocks: seq<Block>
    var totalSupply: U64
    var balances: map<Address, nat>

    constructor ()
      ensures Value() == EMPTY_CHAIN
    {
      blocks, totalSupply, balances := [], 0, map[];
    }

    ghost function Value(): Chain
      reads this
    {
      Chain(blocks, totalSupply, balances)
    }

    method AddBlock(env: Env, b: Block) returns (ok: bool)
      modifies this
      ensures ok == AcceptsBlock(old(blocks), b)
      ensures Value() == if ok then Appended(env, old(Value()), b) else old(Value())
    {
      if b.height != Add64(HeightOf(blocks), 1) && b.height != 0 { return false; }
      if b.height > 0 && b.prevHash != TipHash(blocks) { return false; }
      var hashed := b.(hash := ComputeHash(env, b));
      totalSupply := Add64(totalSupply, b.reward);
      balances := balances[b.minerAddress := Add64(Get(balances, b.minerAddress), b.reward)];
      blocks := blocks + [hashed];
      return true;
    }

    /** The callback for a block from a peer. */
    method OnPeerBlock(env: Env, b: Block) returns (ok: bool)
      modifies this
      ensures ok <==> PeerAccepts(env, old(blocks), b)
      ensures Value() == if ok then Appended(env, old(Value()), b) else old(Value())
    {
      if b.height == 0 && blocks == [] {
        if b.prevHash != ZeroHash() { return false; }
        var good := Verify(env.instanceOf(b.prevHash, b.difficulty), b.witnessBits);
        if !good { return false; }
        ok := AddBlock(env, b);
        return;
      }
      if b.height != Add64(HeightOf(blocks), 1) { return false; }
      if b.prevHash != TipHash(blocks) { return false; }
      var free := CheckConsecutive(blocks, b.minerAddress);
      if !free { return false; }
      var good := Verify(env.instanceOf(b.prevHash, b.difficulty), b.witnessBits);
      if !good { return false; }
      ok := AddBlock(env, b);
    }

    /** The locked part of the mining loop: check again that the chain has not moved, then append. */
    method Commit(env: Env, b: Block) returns (ok: bool)
      modifies this
      ensures ok <==> CommitAccepts(old(blocks), b)
      ensures Value() == if ok then Appended(env, old(Value()), b) else old(Value())
    {
      if b.height != Add64(HeightOf(blocks), 1) || b.prevHash != TipHash(blocks) { return false; }
      ok := AddBlock(env, b);
    }
  }
}
