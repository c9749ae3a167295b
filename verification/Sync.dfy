/**
 The HELLO / GET_BLOCKS / BLOCKS exchange of src/p2p.hpp, with the callbacks of src/testnet_node.cpp: how
 a node that is behind copies blocks from a peer.
 */
module Sync {
  import opened Words
  import opened Bytes
  import opened Blocks
  import opened Wire
  import opened Ledger

  const MSG_HELLO: Byte := 1
  const MSG_GET_BLOCKS: Byte := 2
  const MSG_BLOCKS: Byte := 3
  const MSG_NEW_BLOCK: Byte := 4
  const MSG_PING: Byte := 5
  const MSG_PONG: Byte := 6

  const BLOCKS_PER_REPLY := 100
  const MAX_BACKOFF := 30
  const HELLO_BYTES := 44

  /** The chain and what the network layer remembers of it. */
  datatype View = View(chain: Chain, height: U64, tip: Hash)

  /** A block arrives: the callback decides, and a higher block moves the remembered height and tip. */
  ghost function Take(env: Env, v: View, b: Block): View {
    if !PeerAccepts(env, v.chain.blocks, b) then v
    else if b.height > v.height then View(Appended(env, v.chain, b), b.height, b.hash)
    else v.(chain := Appended(env, v.chain, b))
  }

  ghost function TakeAll(env: Env, v: View, blocks: seq<Block>): View {
    if blocks == [] then v else Take(env, TakeAll(env, v, blocks[..|blocks| - 1]), blocks[|blocks| - 1])
  }

  // ------------------------------------------------ what is asked and answered

  function StartOf(height: U64, tip: Hash): U64 {
    if height == 0 && tip == ZeroHash() then 0 else Add64(height, 1)
  }

  function Backoff(failures: U32): nat {
    var waits := [1, 2, 4, 8, 16, 32];
    var wait := waits[if failures < 5 then failures else 5];
    if wait < MAX_BACKOFF then wait else MAX_BACKOFF
  }

  /** A second after a success; every further failure doubles the wait, up to half a minute. */
  lemma BackoffDoubles(failures: U32)
    ensures Backoff(0) == 1
    ensures failures > 0 ==> Backoff(failures) == if failures >= 5 then 30 else 2 * Backoff(failures - 1)
  {
  }

  /** The failures of a peer after a batch from it; a batch that is not read changes nothing. */
  function FailuresAfter(failures: U32, payload: seq<Byte>, grew: bool): U32 {
    if |payload| < 4 || FromLE(payload[..4]) > MAX_BATCH then failures
    else if grew then 0
    else if FromLE(payload[..4]) > 0 then (failures + 1) % TWO_32
    else failures
  }

  function EndOf(blocks: seq<Block>, from: nat): (end: nat)
    ensures end <= |blocks| && end <= from + BLOCKS_PER_REPLY && (from <= |blocks| ==> from <= end)
  {
    if from + BLOCKS_PER_REPLY < |blocks| then from + BLOCKS_PER_REPLY else |blocks|
  }

  /** The blocks that answer a request. */
  function ReplyTo(blocks: seq<Block>, from: nat): seq<Block> {
    if from > |blocks| then [] else blocks[from..EndOf(blocks, from)]
  }

  /** The messages that answer a GET_BLOCKS: a batch, or none at all. */
  function Answer(blocks: seq<Block>, payload: seq<Byte>): seq<Message> {
    if |payload| < 8 || ReplyTo(blocks, FromLE(payload[..8])) == [] then []
    else [Message(MSG_BLOCKS, BatchOf(ReplyTo(blocks, FromLE(payload[..8]))))]
  }

  /** The payload of a HELLO; the length of the address is cast to 16 bits. */
  function HelloOf(height: U64, tip: Hash, port: U16, miner: Address): seq<Byte> {
    ToLE(height, 8) + (tip + (ToLE(port, 2) + (ToLE(|miner| % TWO_16, 2) + miner)))
  }

  /** Where the receiver finds what; of the address it gets as much as the 16-bit size says. */
  lemma HelloReadsBack(height: U64, tip: Hash, port: U16, miner: Address)
    ensures var hello, size := HelloOf(height, tip, port, miner), |miner| % 0x1_0000;
            |hello| == 44 + |miner| &&
            FromLE(hello[..8]) == height && hello[8..40] == tip &&
            FromLE(hello[40..42]) == port && FromLE(hello[42..44]) == size && hello[44..44 + size] == miner[..size]
  {
    hide ToLE, FromLE;
    Widths();
    ReadBack(height, 8);
    ReadBack(port, 2);
    ReadBack(|miner| % TWO_16, 2);
    var hello := HelloOf(height, tip, port, miner);
    assert hello[..8] == ToLE(height, 8) && hello[8..40] == tip;
    assert hello[40..42] == ToLE(port, 2) && hello[42..44] == ToLE(|miner| % TWO_16, 2);
    assert hello[44..] == miner;
  }

  /** A connection, as this side sees the other. */
  class Peer {
    var chainHeight: U64
    var bestHash: Hash
    var listenPort: U16
    var minerAddr: Address
    var helloSent: bool
    var syncFailures: U32
    var lastSyncAttempt: int  // seconds

    constructor ()
      ensures chainHeight == 0 && bestHash == ZeroHash() && listenPort == 0 && minerAddr == []
      ensures !helloSent && syncFailures == 0 && lastSyncAttempt == 0
    {
      chainHeight, bestHash, listenPort, minerAddr := 0, ZeroHash(), 0, [];
      helloSent, syncFailures, lastSyncAttempt := false, 0, 0;
    }
  }

  class P2PManager {
    const chain: ChainState
    const listenPort: U16
    const minerAddr: Address
    var localHeight: U64
    var localTip: Hash

    constructor (chain: ChainState, listenPort: U16, minerAddr: Address)
      ensures this.chain == chain && this.listenPort == listenPort && this.minerAddr == minerAddr
      ensures Seen() == View(chain.Value(), 0, ZeroHash())
    {
      this.chain, this.listenPort, this.minerAddr := chain, listenPort, minerAddr;
      localHeight, localTip := 0, ZeroHash();
    }

    ghost function Seen(): View
      reads this, chain
    {
      View(chain.Value(), localHeight, localTip)
    }

    /** What a node says of itself. */
    function Hello(): Message
      reads this
    {
      Message(MSG_HELLO, HelloOf(localHeight, localTip, listenPort, minerAddr))
    }

    /** What a HELLO of at least 44 bytes changes and what is sent then; a shorter one does nothing. */
    twostate predicate Heard(peer: Peer, now: int, payload: seq<Byte>, sent: seq<Message>)
      reads this, peer
    {
      if |payload| < HELLO_BYTES then sent == [] && unchanged(peer) else
        var n := FromLE(payload[42..44]);
        var asks := peer.chainHeight > localHeight && now - old(peer.lastSyncAttempt) >= Backoff(peer.syncFailures);
        peer.chainHeight == FromLE(payload[..8]) && peer.bestHash == payload[8..40] &&
        peer.listenPort == FromLE(payload[40..42]) &&
        peer.minerAddr == (if HELLO_BYTES + n <= |payload| then payload[HELLO_BYTES..HELLO_BYTES + n]
                           else old(peer.minerAddr)) &&
        peer.helloSent && peer.syncFailures == old(peer.syncFailures) &&
        peer.lastSyncAttempt == (if asks then now else old(peer.lastSyncAttempt)) &&
        sent == (if asks then [Message(MSG_GET_BLOCKS, ToLE(StartOf(localHeight, localTip), 8))] else []) +
                (if old(peer.helloSent) then [] else [Hello()])
    }

    /** Remember the peer's claims; ask for blocks if it claims more and the last attempt is long enough ago. */
    method HandleHello(peer: Peer, now: int, payload: seq<Byte>) returns (sent: seq<Message>)
      modifies peer
      ensures Heard(peer, now, payload, sent)
    {
      hide FromLE, ToLE;
      sent := [];
      if |payload| < HELLO_BYTES { return; }
      Widths();
      peer.chainHeight, peer.bestHash, peer.listenPort := FromLE(payload[..8]), payload[8..40], FromLE(payload[40..42]);
      var n := FromLE(payload[42..44]);
      if HELLO_BYTES + n <= |payload| { peer.minerAddr := payload[HELLO_BYTES..HELLO_BYTES + n]; }
      if peer.chainHeight > localHeight && now - peer.lastSyncAttempt >= Backoff(peer.syncFailures) {
        peer.lastSyncAttempt := now;
        sent := [Message(MSG_GET_BLOCKS, ToLE(StartOf(localHeight, localTip), 8))];
      }
      if !peer.helloSent {
        peer.helloSent := true;
        sent := sent + [Hello()];
      }
    }

    /** The callback that collects the blocks of a reply. */
    method GetChain(from: nat) returns (blocks: seq<Block>)
      ensures blocks == ReplyTo(chain.blocks, from)
    {
      blocks := [];
      var i := from;
      while i < |chain.blocks| && |blocks| < BLOCKS_PER_REPLY
        invariant from <= i && (from <= |chain.blocks| ==> i <= |chain.blocks|)
        invariant from > |chain.blocks| ==> blocks == []
        invariant from <= |chain.blocks| ==> blocks == chain.blocks[from..i] && i <= from + BLOCKS_PER_REPLY
      {
        blocks := blocks + [chain.blocks[i]];
        i := i + 1;
      }
    }

    method HandleGetBlocks(payload: seq<Byte>) returns (sent: seq<Message>)
      ensures sent == Answer(chain.blocks, payload)
    {
      if |payload| < 8 { return []; }
      var blocks := GetChain(FromLE(payload[..8]));
      if blocks == [] { return []; }
      var batch := BuildBatch(blocks);
      return [Message(MSG_BLOCKS, batch)];
    }

    /** One block goes to the callback. */
    method Offer(env: Env, b: Block) returns (ok: bool)
      modifies this, chain
      ensures ok <==> PeerAccepts(env, old(chain.blocks), b)
      ensures Seen() == Take(env, old(Seen()), b)
    {
      hide PeerAccepts, Appended;
      ok := chain.OnPeerBlock(env, b);
      if ok && b.height > localHeight {
        localHeight, localTip := b.height, b.hash;
      }
    }

    /** Every block of a batch goes to the callback, in order; any success clears the failures of the peer. */
    method HandleBlocks(env: Env, peer: Peer, payload: seq<Byte>)
      modifies this, chain, peer
      ensures Seen() == TakeAll(env, old(Seen()), DecodeBatch(payload))
      ensures unchanged(peer`chainHeight, peer`bestHash, peer`listenPort, peer`minerAddr, peer`helloSent,
                        peer`lastSyncAttempt)
      ensures peer.syncFailures == FailuresAfter(old(peer.syncFailures), payload, |chain.blocks| > |old(chain.blocks)|)
    {
      hide FromLE, Take, PeerAccepts, DecodeBatch;
      var blocks := ReadBatch(payload);
      var accepted := 0;
      for i := 0 to |blocks|
        invariant 0 <= accepted <= i && |chain.blocks| == |old(chain.blocks)| + accepted
        invariant Seen() == TakeAll(env, old(Seen()), blocks[..i])
        invariant unchanged(peer)
      {
        assert blocks[..i + 1][..i] == blocks[..i];
        ghost var before := Seen();
        var ok := Offer(env, blocks[i]);
        TakeGrows(env, before, blocks[i]);
        if ok { accepted := accepted + 1; }
      }
      assert blocks[..|blocks|] == blocks;
      if |payload| < 4 || FromLE(payload[..4]) > MAX_BATCH { return; }
      if accepted > 0 {
        peer.syncFailures := 0;
      } else if FromLE(payload[..4]) > 0 {
        peer.syncFailures := (peer.syncFailures + 1) % TWO_32;
      }
    }

    /** A single new block. */
    method HandleNewBlock(env: Env, payload: seq<Byte>)
      modifies this, chain
      ensures Seen() == match DecodeWire(payload)
                        case Some(b) => Take(env, old(Seen()), b)
                        case None => old(Seen())
    {
      hide Take;
      var r := WireToBlock(payload);
      if r.Some? {
        var _ := Offer(env, r.value);
      }
    }

    /**
     The dispatcher. Whatever a peer sends, the chain changes only by blocks that the callback accepts,
     and only a BLOCKS or NEW_BLOCK message changes it.
     */
    method HandleMessage(env: Env, peer: Peer, now: int, m: Message) returns (sent: seq<Message>)
      modifies this, chain, peer
      ensures Seen() == TakeAll(env, old(Seen()), Offered(m))
      ensures m.kind != MSG_HELLO ==> sent == if m.kind == MSG_GET_BLOCKS then Answer(chain.blocks, m.payload)
                                              else if m.kind == MSG_PING then [Message(MSG_PONG, [])] else []
      ensures m.kind == MSG_HELLO ==> Heard(peer, now, m.payload, sent)
      ensures m.kind != MSG_HELLO ==>
                unchanged(peer`chainHeight, peer`bestHash, peer`listenPort, peer`minerAddr, peer`helloSent,
                          peer`lastSyncAttempt) &&
                peer.syncFailures == if m.kind == MSG_BLOCKS
                                     then FailuresAfter(old(peer.syncFailures), m.payload,
                                                        |chain.blocks| > |old(chain.blocks)|)
                                     else old(peer.syncFailures)
    {
      sent := [];
      hide Take, DecodeBatch, DecodeWire, Answer;
      if m.kind == MSG_HELLO {
        sent := HandleHello(peer, now, m.payload);
      } else if m.kind == MSG_GET_BLOCKS {
        sent := HandleGetBlocks(m.payload);
      } else if m.kind == MSG_BLOCKS {
        HandleBlocks(env, peer, m.payload);
      } else if m.kind == MSG_NEW_BLOCK {
        HandleNewBlock(env, m.payload);
      } else if m.kind == MSG_PING {
        sent := [Message(MSG_PONG, [])];
      }
    }
  }

  /** The blocks that a message offers. */
  function Offered(m: Message): seq<Block> {
    if m.kind == MSG_BLOCKS then DecodeBatch(m.payload)
    else if m.kind == MSG_NEW_BLOCK then
      match DecodeWire(m.payload)
      case Some(b) => [b]
      case None => []
    else []
  }

  lemma TakeGrows(env: Env, v: View, b: Block)
    ensures |Take(env, v, b).chain.blocks| == |v.chain.blocks| + (if PeerAccepts(env, v.chain.blocks, b) then 1 else 0)
  {
    hide PeerAccepts;
  }
}
