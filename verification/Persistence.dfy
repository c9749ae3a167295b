/**
 Saving the chain to disk and loading it with full re-validation (src/testnet_node.cpp). A file is a
 byte string; what it claims is checked again on load.
 */
module Persistence {
  import opened Words
  import opened Bytes
  import opened SatInstances
  import opened Blocks
  import opened Ledger
  import opened NodeRuns

  const MAGIC: seq<Byte> := [78, 80, 67, 66]  // "NPCB"
  const FILE_VERSION := 1
  const MAX_DISK_BITS := TWO_32 - 8
  const MAX_DISK_ADDRESS := TWO_16 - 1

  /** A block with its address cut to its 16-bit size. */
  function Saved(b: Block): Block {
    b.(minerAddress := b.minerAddress[..|b.minerAddress| % TWO_16])
  }

  /** One block on disk: sizes are cast to 32 and 16 bits, and that much is written. */
  function DiskOf(b: Block): seq<Byte> {
    Encode(Saved(b), b.witnessBits[..|b.witnessBits| % TWO_32])
  }

  function DiskItems(blocks: seq<Block>): seq<Byte> {
    if blocks == [] then [] else DiskOf(blocks[0]) + DiskItems(blocks[1..])
  }

  function FileOf(blocks: seq<Block>): seq<Byte> {
    MAGIC + (ToLE(FILE_VERSION, 4) + (ToLE(|blocks|, 8) + DiskItems(blocks)))
  }

  /** Blocks whose sizes survive the casts. */
  predicate FitsDisk(b: Block) {
    |b.witnessBits| <= MAX_DISK_BITS && |b.minerAddress| <= MAX_DISK_ADDRESS
  }

  // ------------------------------------------------ loading

  /** The checks that load_from_disk makes on one block. */
  ghost predicate LoadAccepts(env: Env, blocks: seq<Block>, b: Block) {
    b.hash == ComputeHash(env, b) &&
    (if b.height == 0 then b.prevHash == ZeroHash() else blocks != [] && b.prevHash == TipHash(blocks)) &&
    b.height == |blocks| && WitnessOk(env, b)
  }

  /** Loading count blocks on top of a chain. */
  ghost function LoadItems(env: Env, data: seq<Byte>, count: nat, c: Chain): Option<Chain>
    decreases count
  {
    if count == 0 then Some(c) else
      match LoadItem(env, data, c)
      case None => None
      case Some((rest, c')) => LoadItems(env, rest, count - 1, c')
  }

  /** Loading one block: the bytes after it and the longer chain. */
  ghost function LoadItem(env: Env, data: seq<Byte>, c: Chain): Option<(seq<Byte>, Chain)> {
    hide ParseBlock, LoadAccepts, Appended;
    match ParseBlock(data, MAX_DISK_BITS, MAX_DISK_ADDRESS)
    case None => None
    case Some((b, n)) => if LoadAccepts(env, c.blocks, b) then Some((data[n..], Appended(env, c, b))) else None
  }

  ghost function LoadFile(env: Env, file: seq<Byte>): Option<Chain> {
    if |file| < 16 || file[..4] != MAGIC || FromLE(file[4..8]) != FILE_VERSION then None
    else LoadItems(env, file[16..], FromLE(file[8..16]), EMPTY_CHAIN)
  }

  method SaveToDisk(chain: ChainState) returns (file: seq<Byte>)
    ensures file == FileOf(chain.blocks)
  {
    file := MAGIC;
    file := file + ToLE(FILE_VERSION, 4);
    file := file + ToLE(|chain.blocks|, 8);
    var blocks := chain.blocks;
    HeaderPart(file, |blocks|, DiskItems(blocks));
    assert blocks[0..] == blocks;
    for i := 0 to |blocks|
      invariant file + DiskItems(blocks[i..]) == FileOf(blocks)
    {
      hide ToLE, Flatten, HeaderFields, Packed, FileOf;
      var b := blocks[i];
      assert blocks[i..][0] == b && blocks[i..][1..] == blocks[i + 1..];
      var part := WriteBlock(b);
      assert file + (part + DiskItems(blocks[i + 1..])) == file + part + DiskItems(blocks[i + 1..]);
      file := file + part;
    }
    assert file + [] == file;
  }

  lemma HeaderPart(head: seq<Byte>, n: nat, items: seq<Byte>)
    requires head == MAGIC + ToLE(FILE_VERSION, 4) + ToLE(n, 8)
    ensures head + items == MAGIC + (ToLE(FILE_VERSION, 4) + (ToLE(n, 8) + items))
  {
    hide ToLE;
  }

  method WriteBlock(b: Block) returns (part: seq<Byte>)
    ensures part == DiskOf(b)
  {
    hide ToLE, Flatten, HeaderFields, Packed;
    var fields := Flatten(HeaderFields(b));
    var bits, address := b.witnessBits[..|b.witnessBits| % TWO_32], b.minerAddress[..|b.minerAddress| % TWO_16];
    var packed := PackBits(bits);
    SameHeader(b, address);
    part := fields + (ToLE(|bits|, 4) + (packed + (ToLE(|address|, 2) + address)));
  }

  lemma SameHeader(b: Block, address: Address)
    ensures HeaderFields(b.(minerAddress := address)) == HeaderFields(b)
  {
  }

  /** Read and check one block; nothing is appended unless all checks pass. */
  method LoadBlock(chain: ChainState, env: Env, data: seq<Byte>) returns (r: Option<nat>)
    modifies chain
    ensures match ParseBlock(data, MAX_DISK_BITS, MAX_DISK_ADDRESS) {
              case None => r == None
              case Some((b, n)) =>
                if LoadAccepts(env, old(chain.blocks), b)
                then r == Some(n) && chain.Value() == Appended(env, old(chain.Value()), b)
                else r == None
            }
  {
    hide ParseBlock, Accepted;
    match ParseBlock(data, MAX_DISK_BITS, MAX_DISK_ADDRESS) {
      case None => return None;
      case Some((b, n)) =>
        if ComputeHash(env, b) != b.hash { return None; }
        if b.height == 0 {
          if b.prevHash != ZeroHash() { return None; }
        } else {
          if chain.blocks == [] || b.prevHash != chain.blocks[|chain.blocks| - 1].hash { return None; }
        }
        if b.height != |chain.blocks| { return None; }
        var good := Verify(env.instanceOf(b.prevHash, b.difficulty), b.witnessBits);
        if !good { return None; }
        chain.totalSupply := Add64(chain.totalSupply, b.reward);
        chain.balances := chain.balances[b.minerAddress := Add64(Get(chain.balances, b.minerAddress), b.reward)];
        chain.blocks := chain.blocks + [b];
        assert Hashed(env, b) == b;
        return Some(n);
    }
  }

  method LoadFromDisk(chain: ChainState, env: Env, file: seq<Byte>) returns (ok: bool)
    modifies chain
    ensures ok <==> LoadFile(env, file).Some?
    ensures ok ==> LoadFile(env, file) == Some(chain.Value())
    // whatever the file says, a successful load leaves a linked chain with matching accounts
    ensures ok ==> Linked(env, chain.blocks) && AccountsOk(chain.Value())
  {
    hide FromLE, ParseBlock, LoadAccepts, Appended;
    if |file| < 16 || file[..4] != MAGIC { return false; }
    if FromLE(file[4..8]) != FILE_VERSION { return false; }
    var count := FromLE(file[8..16]);
    chain.blocks, chain.totalSupply, chain.balances := [], 0, map[];
    assert chain.Value() == EMPTY_CHAIN;
    EmptyIsGood(env);
    var data := file[16..];
    LoadedIsGood(env, data, count, chain.Value());
    for i := 0 to count
      invariant LoadItems(env, data, count - i, chain.Value()) == LoadFile(env, file)
    {
      var read := LoadBlock(chain, env, data);
      if read.None? { return false; }
      data := data[read.value..];
    }
    return true;
  }

  lemma EmptyIsGood(env: Env)
    ensures Linked(env, []) && AccountsOk(EMPTY_CHAIN)
  {
  }

  // ------------------------------------------------ what a successful load means

  lemma AcceptedExtends(env: Env, c: Chain, b: Block)
    requires Linked(env, c.blocks) && AccountsOk(c) && LoadAccepts(env, c.blocks, b)
    ensures Linked(env, Appended(env, c, b).blocks) && AccountsOk(Appended(env, c, b))
  {
    AppendKeepsLinked(env, c, b);
    AppendKeepsAccounts(env, c, b);
  }

  lemma LoadItemKeepsGood(env: Env, data: seq<Byte>, c: Chain)
    requires Linked(env, c.blocks) && AccountsOk(c) && LoadItem(env, data, c).Some?
    ensures var c' := LoadItem(env, data, c).value.1;
            Linked(env, c'.blocks) && AccountsOk(c') && |c'.blocks| == |c.blocks| + 1
  {
    hide ParseBlock, Linked, AccountsOk, LoadAccepts;
    AcceptedExtends(env, c, ParseBlock(data, MAX_DISK_BITS, MAX_DISK_ADDRESS).value.0);
  }

  lemma {:induction false} LoadedIsGood(env: Env, data: seq<Byte>, count: nat, c: Chain)
    requires Linked(env, c.blocks) && AccountsOk(c)
    ensures LoadItems(env, data, count, c).Some? ==>
              var end := LoadItems(env, data, count, c).value;
              Linked(env, end.blocks) && AccountsOk(end) && |end.blocks| == |c.blocks| + count
    decreases count
  {
    hide LoadItem, Linked, AccountsOk;
    var item := LoadItem(env, data, c);
    if count > 0 && item.Some? {
      LoadItemKeepsGood(env, data, c);
      LoadedIsGood(env, item.value.0, count - 1, item.value.1);
    }
  }

  // ------------------------------------------------ round trip

  lemma DiskRoundTrip(b: Block, rest: seq<Byte>)
    requires FitsDisk(b)
    ensures ParseBlock(DiskOf(b) + rest, MAX_DISK_BITS, MAX_DISK_ADDRESS) == Some((b, |DiskOf(b)|))
  {
    hide ParseBlock, Encode;
    assert b.witnessBits[..|b.witnessBits| % TWO_32] == b.witnessBits;
    assert b.(minerAddress := b.minerAddress[..|b.minerAddress| % TWO_16]) == b;
    ParseEncoded(b, rest, MAX_DISK_BITS, MAX_DISK_ADDRESS);
  }

  /** The state that results from appending blocks to nothing. */
  ghost function Replayed(env: Env, blocks: seq<Block>): Chain {
    if blocks == [] then EMPTY_CHAIN else Appended(env, Replayed(env, blocks[..|blocks| - 1]), blocks[|blocks| - 1])
  }

  /** Every block carries its own hash. */
  ghost predicate AllHashed(env: Env, blocks: seq<Block>) {
    forall i :: 0 <= i < |blocks| ==> blocks[i].hash == ComputeHash(env, blocks[i])
  }

  lemma LinkedIsHashed(env: Env, blocks: seq<Block>, n: nat)
    requires Linked(env, blocks) && n <= |blocks|
    ensures AllHashed(env, blocks[..n]) && (n == |blocks| ==> AllHashed(env, blocks))
  {
    forall i | 0 <= i < |blocks| ensures blocks[i].hash == ComputeHash(env, blocks[i]) {
      assert LinkedAt(env, blocks, i);
    }
    hide ComputeHash;
  }

  lemma {:induction false} ReplayedIs(env: Env, blocks: seq<Block>)
    requires AllHashed(env, blocks)
    ensures Replayed(env, blocks).blocks == blocks && AccountsOk(Replayed(env, blocks))
  {
    if blocks == [] {
      EmptyIsGood(env);
    } else {
      hide AccountsOk, Appended, ComputeHash;
      var front, last := blocks[..|blocks| - 1], blocks[|blocks| - 1];
      assert AllHashed(env, front) && last.hash == ComputeHash(env, last);
      hide AllHashed;
      ReplayedIs(env, front);
      ReplayOneMore(env, Replayed(env, front), last);
    }
  }

  lemma ReplayOneMore(env: Env, c: Chain, b: Block)
    requires AccountsOk(c) && b.hash == ComputeHash(env, b)
    ensures Appended(env, c, b).blocks == c.blocks + [b] && AccountsOk(Appended(env, c, b))
  {
    hide AccountsOk, ComputeHash;
    AppendKeepsAccounts(env, c, b);
    assert Hashed(env, b) == b;
  }

  /** Accounts are determined by the blocks. */
  lemma AccountsUnique(c: Chain, c': Chain)
    requires c.blocks == c'.blocks && AccountsOk(c) && AccountsOk(c')
    ensures c == c'
  {
    assert c.balances.Keys == c'.balances.Keys;
    forall a | a in c.balances ensures c.balances[a] == c'.balances[a] {
      assert Get(c.balances, a) == Get(c'.balances, a);
    }
    assert c.balances == c'.balances;
  }

  lemma ItemLoads(env: Env, b: Block, rest: seq<Byte>, c: Chain)
    requires FitsDisk(b) && LoadAccepts(env, c.blocks, b)
    ensures LoadItem(env, DiskOf(b) + rest, c) == Some((rest, Appended(env, c, b)))
  {
    hide ParseBlock, DiskOf, LoadAccepts, Appended;
    DiskRoundTrip(b, rest);
    assert (DiskOf(b) + rest)[|DiskOf(b)|..] == rest;
  }

  lemma {:induction false} ItemsLoad(env: Env, blocks: seq<Block>, k: nat)
    requires Linked(env, blocks) && k <= |blocks| && forall i :: 0 <= i < |blocks| ==> FitsDisk(blocks[i])
    ensures LoadItems(env, DiskItems(blocks[k..]), |blocks| - k, Replayed(env, blocks[..k])) ==
            Some(Replayed(env, blocks))
    decreases |blocks| - k
  {
    hide LoadItem, DiskOf, LoadAccepts, Appended, Linked;
    if k == |blocks| {
      assert blocks[..k] == blocks;
    } else {
      ItemsLoad(env, blocks, k + 1);
      LinkedLoads(env, blocks, k);
      assert blocks[k..][0] == blocks[k] && blocks[k..][1..] == blocks[k + 1..];
      assert blocks[..k + 1][..k] == blocks[..k];
      ItemLoads(env, blocks[k], DiskItems(blocks[k + 1..]), Replayed(env, blocks[..k]));
    }
  }

  lemma LinkedLoads(env: Env, blocks: seq<Block>, k: nat)
    requires Linked(env, blocks) && k < |blocks|
    ensures LoadAccepts(env, Replayed(env, blocks[..k]).blocks, blocks[k])
  {
    assert LinkedAt(env, blocks, k);
    LinkedIsHashed(env, blocks, k);
    ReplayedIs(env, blocks[..k]);
  }

  lemma {:induction false} FittingItemsLoad(env: Env, blocks: seq<Block>)
    requires Linked(env, blocks) && |blocks| < TWO_64 && forall i :: 0 <= i < |blocks| ==> FitsDisk(blocks[i])
    ensures LoadFile(env, FileOf(blocks)) == Some(Replayed(env, blocks))
  {
    hide Linked, FitsDisk, LoadItems;
    ItemsLoad(env, blocks, 0);
    assert blocks[0..] == blocks && blocks[..0] == [];
    FileHeader(blocks);
  }

  // ------------------------------------------------ addresses that are cut

  /** The chain that a file holds: every address cut to its 16-bit size. */
  function AllSaved(blocks: seq<Block>): (r: seq<Block>)
    ensures |r| == |blocks|
  {
    seq(|blocks|, i requires 0 <= i < |blocks| => Saved(blocks[i]))
  }

  /** The witnesses keep their size on disk; they always do for 32-bit sizes that leave room for rounding. */
  ghost predicate WitnessesFit(blocks: seq<Block>) {
    forall i :: 0 <= i < |blocks| ==> |blocks[i].witnessBits| <= MAX_DISK_BITS
  }

  predicate AddressesFit(blocks: seq<Block>) {
    forall i :: 0 <= i < |blocks| ==> |blocks[i].minerAddress| < TWO_16
  }

  lemma SavedExactly(b: Block)
    ensures Saved(b) == b <==> |b.minerAddress| < TWO_16
    ensures Saved(Saved(b)) == Saved(b)
  {
    assert Saved(b) == b <==> Saved(b).minerAddress == b.minerAddress;
  }

  lemma AllSavedExactly(blocks: seq<Block>)
    ensures AllSaved(blocks) == blocks <==> AddressesFit(blocks)
  {
    hide Saved;
    forall i | 0 <= i < |blocks| ensures Saved(blocks[i]) == blocks[i] <==> |blocks[i].minerAddress| < TWO_16 {
      SavedExactly(blocks[i]);
    }
    if AllSaved(blocks) == blocks {
      forall i | 0 <= i < |blocks| ensures |blocks[i].minerAddress| < TWO_16 {
        assert AllSaved(blocks)[i] == blocks[i];
      }
    }
  }

  /** Neither the hash nor the witness covers the address. */
  lemma SavedKeepsLinked(env: Env, blocks: seq<Block>)
    requires Linked(env, blocks)
    ensures Linked(env, AllSaved(blocks))
  {
    var saved := AllSaved(blocks);
    forall i | 0 <= i < |saved| ensures LinkedAt(env, saved, i) {
      assert LinkedAt(env, blocks, i);
      assert HeaderFields(saved[i]) == HeaderFields(blocks[i]);
    }
  }

  /** A chain and its cut form are the same file. */
  lemma {:induction false} SameItems(blocks: seq<Block>)
    ensures DiskItems(AllSaved(blocks)) == DiskItems(blocks)
  {
    if blocks != [] {
      hide Saved, Encode;
      SavedExactly(blocks[0]);
      SavedBits(blocks[0]);
      SameItems(blocks[1..]);
      assert AllSaved(blocks)[1..] == AllSaved(blocks[1..]);
    }
  }

  lemma SavedBits(b: Block)
    ensures Saved(b).witnessBits == b.witnessBits && Saved(b).reward == b.reward
  {
  }

  lemma {:induction false} SavedRewards(blocks: seq<Block>)
    ensures RewardSum(AllSaved(blocks)) == RewardSum(blocks)
  {
    if blocks != [] {
      var n := |blocks| - 1;
      SavedRewards(blocks[..n]);
      assert AllSaved(blocks)[..n] == AllSaved(blocks[..n]);
    }
  }

  lemma SavedFits(blocks: seq<Block>)
    requires WitnessesFit(blocks)
    ensures forall i :: 0 <= i < |blocks| ==> FitsDisk(AllSaved(blocks)[i])
  {
  }

  /**
   Saving a linked reward-only chain and loading the file always succeeds and gives the same chain with its
   addresses cut to 16-bit sizes, and the same supply. So it gives back the blocks, the supply and the balances
   exactly if every address is below 2^16 bytes.
   */
  lemma SaveLoadRoundTrip(env: Env, c: Chain)
    requires Linked(env, c.blocks) && AccountsOk(c) && |c.blocks| < TWO_64 && WitnessesFit(c.blocks)
    ensures var r := LoadFile(env, FileOf(c.blocks));
            r == Some(Replayed(env, AllSaved(c.blocks))) &&
            r.value.blocks == AllSaved(c.blocks) && r.value.totalSupply == c.totalSupply && AccountsOk(r.value)
    ensures LoadFile(env, FileOf(c.blocks)) == Some(c) <==> AddressesFit(c.blocks)
  {
    var saved := AllSaved(c.blocks);
    SavedFits(c.blocks);
    SavedKeepsLinked(env, c.blocks);
    hide Linked, FitsDisk, WitnessesFit, LoadFile, DiskItems, AllSaved, AddressesFit;
    SameItems(c.blocks);
    FittingItemsLoad(env, saved);
    LinkedIsHashed(env, saved, |saved|);
    ReplayedIs(env, saved);
    SavedRewards(c.blocks);
    AllSavedExactly(c.blocks);
    if saved == c.blocks { AccountsUnique(c, Replayed(env, saved)); }
  }

  /** A genesis with reward 5 whose address has 2^16 bytes. */
  function LongGenesis(): Block {
    TrivialBlock(LongAddress(), 0).(reward := 5)
  }

  /** Its chain is valid, is saved and loaded, and then the reward belongs to the empty address. */
  lemma RewardMoves()
    ensures var env, b := TrivialEnv(), LongGenesis();
            var c := Appended(env, EMPTY_CHAIN, b);
            var d := Replayed(env, [Saved(b)]);
            Linked(env, c.blocks) && AccountsOk(c) && c.blocks == [b] && Get(c.balances, LongAddress()) == 5 &&
            LoadFile(env, FileOf(c.blocks)) == Some(d) && d.blocks == [Saved(b)] && Saved(b).minerAddress == [] &&
            Get(d.balances, []) == 5 && Get(d.balances, LongAddress()) == 0
  {
    var env, b := TrivialEnv(), LongGenesis();
    LongGenesisSaved();
    LongGenesisGood();
    OneReward(env, b);
    OneReward(env, Saved(b));
    hide Linked, AccountsOk, LoadFile, FileOf, AllSaved, TrivialEnv, LongGenesis, LongAddress, Saved, Appended;
    hide WitnessesFit;
    SaveLoadRoundTrip(env, Appended(env, EMPTY_CHAIN, b));
    assert AllSaved([b]) == [Saved(b)] by { OnlySaved(b); }
    ReplayOne(env, Saved(b));
  }

  lemma OnlySaved(b: Block)
    ensures AllSaved([b]) == [Saved(b)]
  {
    hide Saved;
  }

  lemma ReplayOne(env: Env, b: Block)
    ensures Replayed(env, [b]) == Appended(env, EMPTY_CHAIN, b)
  {
    hide Appended;
    assert [b][..0] == [];
  }

  /** After one block its miner has the reward and nobody else anything. */
  lemma OneReward(env: Env, b: Block)
    ensures var c := Appended(env, EMPTY_CHAIN, b);
            forall a :: Get(c.balances, a) == if a == b.minerAddress then b.reward else 0
  {
    hide ComputeHash;
  }

  lemma LongGenesisSaved()
    ensures var b := LongGenesis();
            b.minerAddress == LongAddress() != [] && b.reward == Saved(b).reward == 5 && Saved(b).minerAddress == []
  {
    hide LongAddress;
    assert |LongAddress()| == TWO_16;
  }

  lemma LongGenesisGood()
    ensures var env, b := TrivialEnv(), LongGenesis();
            var c := Appended(env, EMPTY_CHAIN, b);
            c.blocks == [b] && Linked(env, c.blocks) && AccountsOk(c) && WitnessesFit(c.blocks)
  {
    hide Serialize, LongAddress;
    var env, b := TrivialEnv(), LongGenesis();
    AppendKeepsLinked(env, EMPTY_CHAIN, b);
    AppendKeepsAccounts(env, EMPTY_CHAIN, b);
  }

  lemma FileHeader(blocks: seq<Block>)
    requires |blocks| < TWO_64
    ensures var file := FileOf(blocks);
            |file| >= 16 && file[..4] == MAGIC && FromLE(file[4..8]) == FILE_VERSION &&
            FromLE(file[8..16]) == |blocks| &&
            file[16..] == DiskItems(blocks)
  {
    hide ToLE, FromLE, DiskItems;
    Widths();
    ReadBack(FILE_VERSION, 4);
    ReadBack(|blocks|, 8);
    var file := FileOf(blocks);
    assert file == MAGIC + ToLE(FILE_VERSION, 4) + ToLE(|blocks|, 8) + DiskItems(blocks);
    assert file[..4] == MAGIC && file[4..8] == ToLE(FILE_VERSION, 4) && file[8..16] == ToLE(|blocks|, 8);
  }

  /** The same through the methods. */
  method SaveThenLoad(env: Env, chain: ChainState) returns (copy: ChainState, ok: bool)
    requires Linked(env, chain.blocks) && AccountsOk(chain.Value()) && |chain.blocks| < TWO_64
    requires WitnessesFit(chain.blocks)
    ensures ok && fresh(copy) && copy.blocks == AllSaved(chain.blocks) && copy.totalSupply == chain.totalSupply
    ensures copy.Value() == chain.Value() <==> AddressesFit(chain.blocks)
  {
    hide Linked, AccountsOk, LoadFile, FileOf, AllSaved, AddressesFit, WitnessesFit;
    var file := SaveToDisk(chain);
    SaveLoadRoundTrip(env, chain.Value());
    copy := new ChainState();
    ok := LoadFromDisk(copy, env, file);
  }
}
