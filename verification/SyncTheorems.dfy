/**
 What one HELLO / GET_BLOCKS / BLOCKS exchange does, with a peer that holds any valid chain. Blocks that do
 not fit the wire do not come through; this is where copying ends.
 */
module SyncTheorems {
  import opened Words
  import opened Bytes
  import opened SatInstances
  import opened Blocks
  import opened Wire
  import opened Ledger
  import opened NodeRuns
  import opened Sync

  // ------------------------------------------------ an honest peer

  /** A chain that an honest peer may hold. */
  ghost predicate Honest(env: Env, blocks: seq<Block>) {
    Linked(env, blocks) && |blocks| < TWO_64 && forall m :: RunsWithin(blocks, m, MAX_CONSECUTIVE_BLOCKS)
  }

  /** The remembered height is that of the chain. */
  ghost predicate InStep(v: View) {
    if v.chain.blocks == [] then v.height == 0 && v.tip == ZeroHash() else v.height == HeightOf(v.chain.blocks)
  }

  /**
   The remembered height is at most that of the chain. This holds of every node: it starts from zero, also on a
   loaded chain, and follows only blocks that are in the chain.
   */
  ghost predicate NotAhead(v: View) {
    if v.chain.blocks == [] then v.height == 0 && v.tip == ZeroHash() else v.height <= HeightOf(v.chain.blocks)
  }

  /** Either nothing has changed, or the chain has grown and the remembered height is right. */
  ghost predicate Learned(v: View, r: View) {
    r == v || (|r.chain.blocks| > |v.chain.blocks| && InStep(r))
  }

  lemma LearnedTwice(v: View, m: View, r: View)
    ensures Learned(v, m) && Learned(m, r) ==> Learned(v, r)
    ensures NotAhead(v) && Learned(v, r) ==> NotAhead(r)
    ensures InStep(v) ==> NotAhead(v)
    ensures InStep(v) && Learned(v, r) ==> InStep(r)
  {
  }

  /** A block of the peer's chain is taken exactly when it is the next one. */
  lemma TakeNext(env: Env, v: View, blocks: seq<Block>, a: nat, i: nat)
    requires Honest(env, blocks) && a <= |blocks| && i < |blocks| && i <= a && v.chain.blocks == blocks[..a]
    ensures Take(env, v, blocks[i]).chain.blocks == if i == a then blocks[..a + 1] else blocks[..a]
    ensures i < a ==> Take(env, v, blocks[i]) == v
    ensures NotAhead(v) ==> Learned(v, Take(env, v, blocks[i]))
  {
    var b := blocks[i];
    AcceptsNextOnly(env, blocks, a, i);
    assert Hashed(env, b) == b by { assert LinkedAt(env, blocks, i); }
    assert blocks[..i] + [b] == blocks[..i + 1];
    hide PeerAccepts, Honest, Hashed;
  }

  lemma AcceptsNextOnly(env: Env, blocks: seq<Block>, a: nat, i: nat)
    requires Honest(env, blocks) && a <= |blocks| && i < |blocks| && i <= a
    ensures PeerAccepts(env, blocks[..a], blocks[i]) <==> i == a
    ensures i == a && a > 0 ==> blocks[i].height > HeightOf(blocks[..a])
    ensures blocks[i].height == i
  {
    hide Honest, TrailingRun, WitnessOk;
    LinkFacts(env, blocks, i);
    if a > 0 { LinkFacts(env, blocks, a - 1); }
    if i == a { HonestIsFree(env, blocks, a); }
  }

  lemma LinkFacts(env: Env, blocks: seq<Block>, i: nat)
    requires Honest(env, blocks) && i < |blocks|
    ensures |blocks| < TWO_64 && blocks[i].height == i && WitnessOk(env, blocks[i])
    ensures blocks[i].prevHash == if i == 0 then ZeroHash() else blocks[i - 1].hash
  {
    hide RunsWithin;
    assert LinkedAt(env, blocks, i);
  }

  lemma HonestIsFree(env: Env, blocks: seq<Block>, a: nat)
    requires Honest(env, blocks) && a < |blocks|
    ensures TrailingRun(blocks[..a], blocks[a].minerAddress) < MAX_CONSECUTIVE_BLOCKS
  {
    hide Linked;
    NextIsFree(blocks, a);
  }

  lemma NextIsFree(blocks: seq<Block>, a: nat)
    requires a < |blocks| && forall m :: RunsWithin(blocks, m, MAX_CONSECUTIVE_BLOCKS)
    ensures TrailingRun(blocks[..a], blocks[a].minerAddress) < MAX_CONSECUTIVE_BLOCKS
  {
    var m := blocks[a].minerAddress;
    assert RunsWithin(blocks, m, MAX_CONSECUTIVE_BLOCKS);
    assert TrailingRun(blocks[..a + 1], m) <= MAX_CONSECUTIVE_BLOCKS;
    RunAfter(blocks[..a], blocks[a], m);
    assert blocks[..a] + [blocks[a]] == blocks[..a + 1];
  }

  lemma TakeLast(env: Env, v: View, blocks: seq<Block>, from: nat, end: nat)
    requires from < end <= |blocks|
    ensures TakeAll(env, v, blocks[from..end]) == Take(env, TakeAll(env, v, blocks[from..end - 1]), blocks[end - 1])
  {
    hide Take;
    assert blocks[from..end][..end - from - 1] == blocks[from..end - 1];
  }

  lemma TakeNone(env: Env, v: View, none: seq<Block>)
    requires none == []
    ensures TakeAll(env, v, none) == v
  {
  }

  lemma LearnedNothing(v: View)
    ensures Learned(v, v)
  {
  }

  /** Taking a stretch of the peer's chain copies what was missing and skips what was there. */
  lemma {:induction false} TakeStretch(env: Env, v: View, blocks: seq<Block>, a: nat, from: nat, end: nat)
    requires Honest(env, blocks) && a <= |blocks| && v.chain.blocks == blocks[..a]
    requires from <= a && from <= end <= |blocks|
    ensures TakeAll(env, v, blocks[from..end]).chain.blocks == blocks[..if end > a then end else a]
    ensures NotAhead(v) ==> Learned(v, TakeAll(env, v, blocks[from..end]))
    decreases end
  {
    hide Honest, Take, TakeAll, NotAhead, Learned;
    if from == end {
      TakeNone(env, v, blocks[from..end]);
      LearnedNothing(v);
    } else {
      TakeStretch(env, v, blocks, a, from, end - 1);
      TakeLast(env, v, blocks, from, end);
      TakeNext(env, TakeAll(env, v, blocks[from..end - 1]), blocks, if end - 1 > a then end - 1 else a, end - 1);
      LearnedTwice(v, TakeAll(env, v, blocks[from..end - 1]), TakeAll(env, v, blocks[from..end]));
      LearnedTwice(v, TakeAll(env, v, blocks[from..end - 1]), TakeAll(env, v, blocks[from..end - 1]));
    }
  }

  /** Block i ends what a reply can copy to a node that holds the first a blocks. */
  predicate Stops(blocks: seq<Block>, a: nat, i: nat)
    requires i < |blocks|
  {
    |WireOf(blocks[i])| > MAX_BLOCK_BYTES || (i >= a && !FitsWire(blocks[i]))
  }

  /** The first block from i on that ends the copying, or end. */
  function StopFrom(blocks: seq<Block>, a: nat, i: nat, end: nat): (s: nat)
    requires i <= end <= |blocks|
    ensures i <= s <= end && (s < end ==> Stops(blocks, a, s))
    ensures forall j :: i <= j < s ==> !Stops(blocks, a, j)
    decreases end - i
  {
    if i == end || Stops(blocks, a, i) then i else StopFrom(blocks, a, i + 1, end)
  }

  /** Block s does not fit the wire, but what the wire carries of it is read and accepted all the same. */
  ghost predicate AcceptedCut(env: Env, blocks: seq<Block>, s: nat)
    requires s < |blocks|
  {
    !FitsWire(blocks[s]) && |WireOf(blocks[s])| <= MAX_BLOCK_BYTES && Readable(blocks[s]) &&
    PeerAccepts(env, blocks[..s], Carried(blocks[s]))
  }

  /** That takes an address of 2^16 bytes or more, which arrives cut to its size field. */
  lemma AcceptedCutMeans(env: Env, blocks: seq<Block>, s: nat)
    requires Honest(env, blocks) && s < |blocks| && |WireOf(blocks[s])| <= MAX_BLOCK_BYTES
    ensures var b := blocks[s];
            AcceptedCut(env, blocks, s) <==>
            |b.witnessBits| == b.numVariables <= MAX_WITNESS_BITS && |b.minerAddress| >= TWO_16 &&
            |b.minerAddress| % TWO_16 <= MAX_ADDRESS_BYTES &&
            (s == 0 || TrailingRun(blocks[..s], Carried(b).minerAddress) < MAX_CONSECUTIVE_BLOCKS)
  {
    hide Honest, TrailingRun, WitnessOk, WireOf, Carried;
    var b := blocks[s];
    CarriedHeader(b);
    LinkFacts(env, blocks, s);
    if s > 0 { LinkFacts(env, blocks, s - 1); }
    CarriedWitness(env, b);
    assert |b.minerAddress| < TWO_16 ==> |b.minerAddress| % TWO_16 == |b.minerAddress|;
  }

  /** The wire keeps a good witness good exactly if it has num_variables bits. */
  lemma CarriedWitness(env: Env, b: Block)
    requires WitnessOk(env, b)
    ensures WitnessOk(env, Carried(b)) <==> |b.witnessBits| == b.numVariables
  {
    assert |b.witnessBits| == b.numVariables ==> WireBits(b) == b.witnessBits;
  }

  /** Of a valid chain, only block n can extend its first n blocks, whole or cut. */
  lemma OthersRefused(env: Env, v: View, blocks: seq<Block>, n: nat, j: nat)
    requires Honest(env, blocks) && n <= |blocks| && j < |blocks| && j != n && v.chain.blocks == blocks[..n]
    requires n == 0 && j == 1 ==> blocks[0].hash != ZeroHash()
    ensures Take(env, v, Carried(blocks[j])) == v
  {
    hide Honest, TrailingRun, WitnessOk, Carried;
    CarriedHeader(blocks[j]);
    LinkFacts(env, blocks, j);
    if j == 1 { LinkFacts(env, blocks, 0); }
    if n > 0 {
      LinkFacts(env, blocks, n - 1);
      assert HeightOf(v.chain.blocks) == n - 1;
    }
    assert !PeerAccepts(env, v.chain.blocks, Carried(blocks[j]));
  }

  // ------------------------------------------------ taking what arrives

  lemma TakeOneFirst(env: Env, v: View, b: Block, rest: seq<Block>)
    ensures TakeAll(env, v, [b] + rest) == TakeAll(env, Take(env, v, b), rest)
    decreases |rest|
  {
    hide Take;
    var all := [b] + rest;
    if rest == [] {
      assert all == [b] && [b][..0] == [];
      assert TakeAll(env, v, [b]) == Take(env, TakeAll(env, v, []), b);
    } else {
      var n := |rest| - 1;
      TakeOneFirst(env, v, b, rest[..n]);
      assert all[..n + 1] == [b] + rest[..n] && all[n + 1] == rest[n];
    }
  }

  /** The first block of what is left arrives or not; then comes the rest. */
  lemma TakeNextArrival(env: Env, v: View, blocks: seq<Block>, i: nat, end: nat)
    requires i < end <= |blocks| && |WireOf(blocks[i])| <= MAX_BLOCK_BYTES
    ensures TakeAll(env, v, Arriving(blocks[i..end])) ==
            var next := if Readable(blocks[i]) then Take(env, v, Carried(blocks[i])) else v;
            TakeAll(env, next, Arriving(blocks[i + 1..end]))
  {
    hide Take, TakeAll, WireOf, Carried, Readable;
    var rest := Arriving(blocks[i + 1..end]);
    assert blocks[i..end][0] == blocks[i] && blocks[i..end][1..] == blocks[i + 1..end];
    if Readable(blocks[i]) {
      TakeOneFirst(env, v, Carried(blocks[i]), rest);
    } else {
      assert [] + rest == rest;
    }
  }

  lemma NothingArrives(env: Env, v: View, blocks: seq<Block>, i: nat, end: nat)
    requires i <= end <= |blocks| && (i < end ==> |WireOf(blocks[i])| > MAX_BLOCK_BYTES)
    ensures TakeAll(env, v, Arriving(blocks[i..end])) == v
  {
    hide WireOf;
    assert Arriving(blocks[i..end]) == [];
  }

  /** Once block n has failed to come through, none of the later ones is taken. */
  lemma {:induction false} LaterRefused(env: Env, v: View, blocks: seq<Block>, n: nat, i: nat, end: nat)
    requires Honest(env, blocks) && n < i <= end <= |blocks| && v.chain.blocks == blocks[..n]
    requires n == 0 ==> blocks[0].hash != ZeroHash()
    ensures TakeAll(env, v, Arriving(blocks[i..end])) == v
    decreases end - i
  {
    hide Honest, Take, TakeAll, Arriving, WireOf, Carried, Readable;
    if i == end || |WireOf(blocks[i])| > MAX_BLOCK_BYTES {
      NothingArrives(env, v, blocks, i, end);
    } else {
      TakeNextArrival(env, v, blocks, i, end);
      OthersRefused(env, v, blocks, n, i);
      LaterRefused(env, v, blocks, n, i + 1, end);
    }
  }

  /** Whatever is taken comes after what was there. */
  lemma {:induction false} TakeAllGrows(env: Env, v: View, blocks: seq<Block>)
    ensures v.chain.blocks <= TakeAll(env, v, blocks).chain.blocks
    ensures NotAhead(v) && HeightOf(v.chain.blocks) + |blocks| < TWO_64 ==>
              Learned(v, TakeAll(env, v, blocks)) &&
              HeightOf(TakeAll(env, v, blocks).chain.blocks) <= HeightOf(v.chain.blocks) + |blocks|
  {
    if blocks != [] {
      hide Take, NotAhead, Learned;
      var front := TakeAll(env, v, blocks[..|blocks| - 1]);
      TakeAllGrows(env, v, blocks[..|blocks| - 1]);
      TakeKeepsStep(env, front, blocks[|blocks| - 1]);
      LearnedTwice(v, front, TakeAll(env, v, blocks));
      LearnedTwice(v, front, front);
    } else {
      LearnedNothing(v);
    }
  }

  lemma TakeKeepsStep(env: Env, v: View, b: Block)
    ensures v.chain.blocks <= Take(env, v, b).chain.blocks
    ensures NotAhead(v) && HeightOf(v.chain.blocks) + 1 < TWO_64 ==>
              Learned(v, Take(env, v, b)) && HeightOf(Take(env, v, b).chain.blocks) <= HeightOf(v.chain.blocks) + 1
  {
    hide TrailingRun, WitnessOk, ComputeHash;
  }

  /** What is taken of a stretch of a valid chain that is sent block by block. */
  ghost predicate CopiedUpTo(env: Env, v: View, blocks: seq<Block>, a: nat, s: nat, end: nat, r: View)
    requires a <= |blocks| && s <= end <= |blocks|
  {
    var reached := if s > a then s else a;
    (NotAhead(v) ==> Learned(v, r)) && blocks[..reached] <= r.chain.blocks &&
    (r.chain.blocks == blocks[..reached] <==> !(a <= s < end && AcceptedCut(env, blocks, s))) &&
    (a <= s < end && AcceptedCut(env, blocks, s) ==> blocks[..s] + [Carried(blocks[s])] <= r.chain.blocks)
  }

  lemma {:induction false} TakeArriving(env: Env, v: View, blocks: seq<Block>, a: nat, i: nat, end: nat)
    requires Honest(env, blocks) && a <= |blocks| && i <= end <= |blocks|
    requires v.chain.blocks == blocks[..if i > a then i else a]
    requires a == 0 < |blocks| && !FitsWire(blocks[0]) ==> blocks[0].hash != ZeroHash()
    ensures CopiedUpTo(env, v, blocks, a, StopFrom(blocks, a, i, end), end, TakeAll(env, v, Arriving(blocks[i..end])))
    decreases end - i
  {
    hide Honest, Take, TakeAll, Arriving, WireOf, Carried, Readable, FitsWire, AcceptedCut, CopiedUpTo;
    hide NotAhead, Learned;
    if i == end || |WireOf(blocks[i])| > MAX_BLOCK_BYTES {
      NothingArrives(env, v, blocks, i, end);
      StoppedAtOnce(env, v, blocks, a, i, end);
    } else if i < a {
      TakeNextArrival(env, v, blocks, i, end);
      OthersRefused(env, v, blocks, a, i);
      TakeArriving(env, v, blocks, a, i + 1, end);
    } else if FitsWire(blocks[i]) {
      TakeNextArrival(env, v, blocks, i, end);
      FittingWire(blocks[i]);
      TakeNext(env, v, blocks, i, i);
      var next := Take(env, v, blocks[i]);
      TakeArriving(env, next, blocks, a, i + 1, end);
      SameReach(env, v, next, blocks, a, i, end, TakeAll(env, v, Arriving(blocks[i..end])));
    } else {
      TakeUnfit(env, v, blocks, a, i, end);
    }
  }

  lemma StoppedAtOnce(env: Env, v: View, blocks: seq<Block>, a: nat, i: nat, end: nat)
    requires a <= |blocks| && i <= end <= |blocks| && v.chain.blocks == blocks[..if i > a then i else a]
    requires i < end ==> |WireOf(blocks[i])| > MAX_BLOCK_BYTES
    ensures CopiedUpTo(env, v, blocks, a, StopFrom(blocks, a, i, end), end, v)
  {
    hide WireOf, NotAhead, Carried;
  }

  lemma SameReach(env: Env, v: View, next: View, blocks: seq<Block>, a: nat, i: nat, end: nat, r: View)
    requires a <= i < end <= |blocks| && !Stops(blocks, a, i) && (NotAhead(v) ==> Learned(v, next))
    requires CopiedUpTo(env, next, blocks, a, StopFrom(blocks, a, i + 1, end), end, r)
    ensures CopiedUpTo(env, v, blocks, a, StopFrom(blocks, a, i, end), end, r)
  {
    LearnedTwice(v, next, r);
    LearnedTwice(v, next, next);
    hide AcceptedCut, NotAhead, Learned, Carried, Stops;
  }

  /** Copying ends at a block that does not fit, unless it is accepted cut. */
  lemma TakeUnfit(env: Env, v: View, blocks: seq<Block>, a: nat, i: nat, end: nat)
    requires Honest(env, blocks) && a <= i < end <= |blocks| && v.chain.blocks == blocks[..i]
    requires !FitsWire(blocks[i]) && |WireOf(blocks[i])| <= MAX_BLOCK_BYTES
    requires i == 0 ==> blocks[0].hash != ZeroHash()
    ensures CopiedUpTo(env, v, blocks, a, StopFrom(blocks, a, i, end), end, TakeAll(env, v, Arriving(blocks[i..end])))
  {
    hide Honest, TakeAll, Arriving, WireOf, Carried, Readable, FitsWire, NotAhead, Learned, PeerAccepts;
    var b := blocks[i];
    TakeNextArrival(env, v, blocks, i, end);
    if AcceptedCut(env, blocks, i) {
      var next, rest := Take(env, v, Carried(b)), Arriving(blocks[i + 1..end]);
      CutIsNext(env, v, blocks, i);
      TakeAllGrows(env, next, rest);
      LengthArriving(blocks[i + 1..end]);
      LearnedTwice(v, next, TakeAll(env, next, rest));
      LearnedTwice(v, next, next);
    } else {
      LearnedNothing(v);
      assert Readable(b) ==> Take(env, v, Carried(b)) == v;
      LaterRefused(env, v, blocks, i, i + 1, end);
    }
  }

  lemma LengthArriving(blocks: seq<Block>)
    ensures |Arriving(blocks)| <= |blocks|
  {
  }

  lemma CutIsNext(env: Env, v: View, blocks: seq<Block>, i: nat)
    requires Honest(env, blocks) && i < |blocks| && v.chain.blocks == blocks[..i] && AcceptedCut(env, blocks, i)
    ensures var next := Take(env, v, Carried(blocks[i]));
            next.chain.blocks == blocks[..i] + [Carried(blocks[i])] && HeightOf(next.chain.blocks) == i &&
            |blocks| < TWO_64 && (NotAhead(v) ==> Learned(v, next))
  {
    hide Honest, PeerAccepts, Readable, WireOf, FitsWire, Carried;
    var b := Carried(blocks[i]);
    LinkFacts(env, blocks, i);
    if i > 0 { LinkFacts(env, blocks, i - 1); }
    CarriedHeader(blocks[i]);
    CarriedHash(env, blocks, i);
  }

  /** The hash does not cover what the wire may cut. */
  lemma CarriedHash(env: Env, blocks: seq<Block>, i: nat)
    requires Honest(env, blocks) && i < |blocks|
    ensures Hashed(env, Carried(blocks[i])) == Carried(blocks[i])
  {
    hide RunsWithin;
    assert LinkedAt(env, blocks, i);
    SameFields(blocks[i]);
  }

  // ------------------------------------------------ one reply

  /**
   One exchange copies a prefix. The reply to a request from a point that we have reached leaves us with the
   first blocks of the peer's chain, up to the end of the reply or what we had, if that is more; it ends at
   the first block that stops it: one from |A| on that does not fit the wire, or one whose wire is too long.
   The only exception is a block that is accepted with its address cut.
   */
  lemma ReplyCopiesPrefix(env: Env, v: View, blocks: seq<Block>, from: nat)
    requires Honest(env, blocks) && v.chain.blocks <= blocks && from <= |v.chain.blocks|
    requires |BatchOf(ReplyTo(blocks, from))| < TWO_32
    requires v.chain.blocks == [] != blocks && !FitsWire(blocks[0]) ==> blocks[0].hash != ZeroHash()
    ensures var a, end := |v.chain.blocks|, EndOf(blocks, from);
            var s, r := StopFrom(blocks, a, from, end), TakeAll(env, v, DecodeBatch(BatchOf(ReplyTo(blocks, from))));
            CopiedUpTo(env, v, blocks, a, s, end, r) &&
            ((forall i :: 0 <= i < |blocks| ==> |blocks[i].minerAddress| < TWO_16) ==>
               r.chain.blocks == blocks[..if s > a then s else a])
  {
    hide Honest, NotAhead, Learned, TakeAll, DecodeBatch, BatchOf, CopiedUpTo, Arriving, WireOf, FitsWire;
    var a, end := |v.chain.blocks|, EndOf(blocks, from);
    var s := StopFrom(blocks, a, from, end);
    BatchArrives(ReplyTo(blocks, from));
    TakeArriving(env, v, blocks, a, from, end);
    NotCut(env, v, blocks, a, s, end, TakeAll(env, v, DecodeBatch(BatchOf(ReplyTo(blocks, from)))));
  }

  lemma NotCut(env: Env, v: View, blocks: seq<Block>, a: nat, s: nat, end: nat, r: View)
    requires Honest(env, blocks) && a <= |blocks| && s <= end <= |blocks| && CopiedUpTo(env, v, blocks, a, s, end, r)
    ensures (forall i :: 0 <= i < |blocks| ==> |blocks[i].minerAddress| < TWO_16) ==>
              r.chain.blocks == blocks[..if s > a then s else a]
  {
    hide Honest, NotAhead, Learned, WireOf, Carried, TrailingRun;
    if s < end && |WireOf(blocks[s])| <= MAX_BLOCK_BYTES {
      AcceptedCutMeans(env, blocks, s);
    }
  }

  /** If all blocks fit, nothing stops the reply. */
  lemma FittingReply(env: Env, v: View, blocks: seq<Block>, from: nat)
    requires AllFit(blocks) && from <= |v.chain.blocks| && v.chain.blocks <= blocks
    ensures StopFrom(blocks, |v.chain.blocks|, from, EndOf(blocks, from)) == EndOf(blocks, from)
    ensures |BatchOf(ReplyTo(blocks, from))| < MAX_MESSAGE_BYTES
  {
    hide WireOf, FitsWire, ItemsOf;
    forall i | 0 <= i < |blocks| ensures !Stops(blocks, |v.chain.blocks|, i) {
      FittingWire(blocks[i]);
    }
    var reply := ReplyTo(blocks, from);
    assert AllFit(reply);
    BatchLength(reply);
  }

  /**
   From where a node asks: never from beyond its chain; and if the remembered height is right, from the first
   block it lacks, or from a lone genesis.
   */
  lemma StartIsReached(env: Env, v: View)
    requires Linked(env, v.chain.blocks) && |v.chain.blocks| < TWO_64 && NotAhead(v)
    ensures StartOf(v.height, v.tip) <= |v.chain.blocks| && StartOf(v.height, v.tip) <= v.height + 1
    ensures InStep(v) ==>
              StartOf(v.height, v.tip) == |v.chain.blocks| || (StartOf(v.height, v.tip) == 0 && |v.chain.blocks| == 1)
  {
    if v.chain.blocks != [] { assert LinkedAt(env, v.chain.blocks, |v.chain.blocks| - 1); }
  }

  /** The HELLO of the exchange: what we learn of the peer, and whether and from where we ask it for blocks. */
  method Greet(ours: P2PManager, theirs: P2PManager, peer: Peer, now: int) returns (asked: bool, request: seq<Byte>)
    modifies peer
    ensures asked <==> theirs.localHeight > ours.localHeight &&
                       now - old(peer.lastSyncAttempt) >= Backoff(old(peer.syncFailures))
    ensures asked ==> |request| == 8 && FromLE(request) == StartOf(ours.localHeight, ours.localTip)
    ensures peer.chainHeight == theirs.localHeight && peer.bestHash == theirs.localTip
    ensures peer.listenPort == theirs.listenPort &&
            peer.minerAddr == theirs.minerAddr[..|theirs.minerAddr| % 0x1_0000]
    ensures peer.syncFailures == old(peer.syncFailures)
  {
    hide HelloOf, ToLE, FromLE, Backoff, StartOf;
    HelloReadsBack(theirs.localHeight, theirs.localTip, theirs.listenPort, theirs.minerAddr);
    Widths();
    ReadBack(StartOf(ours.localHeight, ours.localTip), 8);
    var asks := ours.HandleHello(peer, now, theirs.Hello().payload);
    asked := asks != [] && asks[0].kind == MSG_GET_BLOCKS;
    request := if asked then asks[0].payload else [];
  }

  /**
   The exchange from HELLO to BLOCKS with a peer whose chain extends ours. If its claim of more height makes
   us ask, and the reply is not above the size limit for messages, we end with what such a reply copies;
   otherwise our chain stays. If all its blocks fit the wire, that is the prefix of its chain up to the end of
   the reply, or what we had. It is longer than before exactly if the reply ends beyond our chain; so always if
   we remember our height, but not just after a restart with more blocks than a reply holds.
   */
  method Exchange(env: Env, ours: P2PManager, theirs: P2PManager, peer: Peer, now: int) returns (asked: bool)
    requires ours.chain != theirs.chain && ours != theirs
    requires Honest(env, theirs.chain.blocks) && ours.chain.blocks <= theirs.chain.blocks
    requires NotAhead(ours.Seen()) && NotAhead(theirs.Seen())
    requires 1 + |BatchOf(ReplyTo(theirs.chain.blocks, StartOf(ours.localHeight, ours.localTip)))| < TWO_32
    requires ours.chain.blocks == [] != theirs.chain.blocks && !FitsWire(theirs.chain.blocks[0]) ==>
               theirs.chain.blocks[0].hash != ZeroHash()
    modifies ours, ours.chain, peer
    ensures asked <==> theirs.localHeight > old(ours.localHeight) &&
                       now - old(peer.lastSyncAttempt) >= Backoff(old(peer.syncFailures))
    ensures peer.chainHeight == theirs.localHeight && peer.bestHash == theirs.localTip
    ensures peer.listenPort == theirs.listenPort &&
            peer.minerAddr == theirs.minerAddr[..|theirs.minerAddr| % 0x1_0000]
    ensures NotAhead(ours.Seen()) && Learned(old(ours.Seen()), ours.Seen())
    ensures old(InStep(ours.Seen())) ==> InStep(ours.Seen())
    ensures var all, from := theirs.chain.blocks, StartOf(old(ours.localHeight), old(ours.localTip));
            var a, end := |old(ours.chain.blocks)|, EndOf(all, from);
            if asked && 1 + |BatchOf(ReplyTo(all, from))| <= MAX_MESSAGE_BYTES
            then from <= a <= |all| &&
                 CopiedUpTo(env, old(ours.Seen()), all, a, StopFrom(all, a, from, end), end, ours.Seen())
            else ours.Seen() == old(ours.Seen())
    ensures asked && AllFit(theirs.chain.blocks) ==>
              var all, a := theirs.chain.blocks, |old(ours.chain.blocks)|;
              var end := EndOf(all, StartOf(old(ours.localHeight), old(ours.localTip)));
              ours.chain.blocks == all[..if end > a then end else a] && (old(InStep(ours.Seen())) ==> end > a) &&
              (if end > a then peer.syncFailures == 0
               else ours.Seen() == old(ours.Seen()) && peer.syncFailures == (old(peer.syncFailures) + 1) % TWO_32)
  {
    hide RunsWithin, Linked, HelloOf, DecodeBatch, BatchOf, TakeAll, ToLE, FromLE, FrameOf, Messages;
    hide CopiedUpTo, StopFrom, FitsWire, InStep, NotAhead, Learned, AllFit;
    ghost var had := ours.Seen();
    var all := theirs.chain.blocks;
    LinkedPrefix(env, all, |had.chain.blocks|);
    assert had.chain.blocks == all[..|had.chain.blocks|];
    LearnedNothing(had);
    var request;
    asked, request := Greet(ours, theirs, peer, now);
    if asked {
      ghost var from := StartOf(ours.localHeight, ours.localTip);
      assert request[..8] == request;
      StartIsReached(env, had);
      HeightMeansMore(env, had, theirs.Seen());
      var replies := theirs.HandleGetBlocks(request);
      var handled := Deliver(replies[0]);
      if handled != [] {
        ReplyCopiesPrefix(env, had, all, from);
        BatchCount(ReplyTo(all, from));
        ours.HandleBlocks(env, peer, handled[0].payload);
        CopiedFacts(env, had, all, from, ours.Seen());
      }
      if AllFit(all) { FittingReply(env, had, all, from); }
    }
  }

  /**
   What repeats for a restarted node: it remembers height zero, asks from the start, and if it holds as many
   blocks as a reply has, or more, the end of the reply is not beyond its chain.
   */
  lemma RestartedAsksAgain(v: View, blocks: seq<Block>)
    requires v.height == 0 && v.tip == ZeroHash() && v.chain.blocks <= blocks
    ensures NotAhead(v) && StartOf(v.height, v.tip) == 0
    ensures EndOf(blocks, 0) > |v.chain.blocks| <==>
            |v.chain.blocks| < BLOCKS_PER_REPLY && |v.chain.blocks| < |blocks|
  {
  }

  /** A message on its way through the stream, in one piece: it gets through whole or not at all. */
  method Deliver(m: Message) returns (handled: seq<Message>)
    requires 1 + |m.payload| < TWO_32
    ensures handled == if 1 + |m.payload| <= MAX_MESSAGE_BYTES then [m] else []
  {
    hide ToLE, Messages;
    FrameArrivesExactly(m);
    assert [FrameOf(m)][1..] == [] && Flatten([FrameOf(m)]) == FrameOf(m) + [] == FrameOf(m);
    var socket := new Socket([FrameOf(m)]);
    handled := PeerRecvLoop(socket);
  }

  /** What copying means for the height that is remembered and for a chain that fits the wire. */
  lemma CopiedFacts(env: Env, v: View, blocks: seq<Block>, from: nat, r: View)
    requires v.chain.blocks <= blocks && from <= |v.chain.blocks| && NotAhead(v)
    requires var a, end := |v.chain.blocks|, EndOf(blocks, from);
             CopiedUpTo(env, v, blocks, a, StopFrom(blocks, a, from, end), end, r)
    ensures Learned(v, r) && NotAhead(r) && (InStep(v) ==> InStep(r))
    ensures AllFit(blocks) ==>
              var a, end := |v.chain.blocks|, EndOf(blocks, from);
              r.chain.blocks == blocks[..if end > a then end else a] && (end <= a ==> r == v)
  {
    LearnedTwice(v, v, r);
    hide InStep, NotAhead, WireOf, AcceptedCut, FitsWire;
    if AllFit(blocks) { FittingReply(env, v, blocks, from); }
  }

  lemma BatchCount(blocks: seq<Block>)
    requires |blocks| <= MAX_BATCH
    ensures |BatchOf(blocks)| >= 4 && FromLE(BatchOf(blocks)[..4]) == |blocks|
  {
    hide ToLE, FromLE, ItemsOf;
    Widths();
    ReadBack(|blocks|, 4);
    assert BatchOf(blocks)[..4] == ToLE(|blocks|, 4);
  }

  lemma LinkedPrefix(env: Env, blocks: seq<Block>, n: nat)
    requires Linked(env, blocks) && n <= |blocks|
    ensures Linked(env, blocks[..n])
  {
    forall i | 0 <= i < n ensures LinkedAt(env, blocks[..n], i) {
      assert LinkedAt(env, blocks, i);
    }
  }

  /** A peer that claims more height than we remember has what we ask for. */
  lemma HeightMeansMore(env: Env, v: View, w: View)
    requires Linked(env, v.chain.blocks) && Linked(env, w.chain.blocks) && |v.chain.blocks| < TWO_64
    requires NotAhead(v) && NotAhead(w) && w.height > v.height
    ensures StartOf(v.height, v.tip) < |w.chain.blocks|
    ensures InStep(v) ==> EndOf(w.chain.blocks, StartOf(v.height, v.tip)) > |v.chain.blocks|
  {
    TipHeight(env, w.chain.blocks);
    TipHeight(env, v.chain.blocks);
    hide Linked, HeightOf;
  }

  lemma TipHeight(env: Env, blocks: seq<Block>)
    requires Linked(env, blocks)
    ensures HeightOf(blocks) == if blocks == [] then 0 else |blocks| - 1
  {
    if blocks != [] { assert LinkedAt(env, blocks, |blocks| - 1); }
  }

  // ------------------------------------------------ blocks that do not come through

  /**
   The callback never compares num_variables with the witness. A good block with another num_variables is
   accepted, but what its holder sends on is accepted by nobody, whatever they hold.
   */
  lemma MismatchIsRefused(env: Env, b: Block, blocks: seq<Block>)
    requires WitnessOk(env, b) && |b.witnessBits| != b.numVariables
    ensures match DecodeWire(WireOf(b))
            case None => true
            case Some(b') => !PeerAccepts(env, blocks, b')
  {
    WireYields(b);
    CarriedWitness(env, b);
    CarriedHeader(b);
    hide WireOf, DecodeWire, WitnessOk, Carried, TrailingRun;
  }

  /** Such a block: a genesis without witness that claims one variable. */
  function Mismatched(own: Address): Block {
    TrivialBlock(own, 0).(numVariables := 1)
  }

  /** It arrives, is accepted and makes a valid chain; sent on, it is refused. */
  lemma MismatchHappens(own: Address, blocks: seq<Block>)
    requires |own| <= MAX_ADDRESS_BYTES
    ensures var env, b := TrivialEnv(), Mismatched(own);
            DecodeWire(Encode(b, b.witnessBits)) == Some(b) && PeerAccepts(env, [], b) && Honest(env, [b]) &&
            DecodeWire(WireOf(b)) == Some(b.(witnessBits := [false])) &&
            !PeerAccepts(env, blocks, b.(witnessBits := [false]))
  {
    hide WireOf, DecodeWire, Encode, PeerAccepts, Honest, ParseBlock, TrivialEnv, Carried, WitnessOk;
    var env, b := TrivialEnv(), Mismatched(own);
    MismatchArrives(own);
    MismatchAccepted(own);
    MismatchIsRefused(env, b, blocks);
  }

  lemma MismatchArrives(own: Address)
    requires |own| <= MAX_ADDRESS_BYTES
    ensures var b := Mismatched(own);
            b.witnessBits == [] && b.numVariables == 1 && DecodeWire(Encode(b, b.witnessBits)) == Some(b) &&
            DecodeWire(WireOf(b)) == Some(b.(witnessBits := [false]))
  {
    hide WireOf, Encode, ParseBlock;
    var b := Mismatched(own);
    ParseEncoded(b, [], MAX_WITNESS_BITS, MAX_ADDRESS_BYTES);
    assert Encode(b, []) + [] == Encode(b, []);
    WireYields(b);
    assert WireBits(b) == [false] && b.minerAddress[..|own|] == own;
  }

  lemma MismatchAccepted(own: Address)
    ensures var env, b := TrivialEnv(), Mismatched(own);
            WitnessOk(env, b) && PeerAccepts(env, [], b) && Honest(env, [b])
  {
    LoneGenesis(own, Mismatched(own));
  }

  lemma LoneGenesis(own: Address, b: Block)
    requires b == TrivialBlock(own, 0).(numVariables := b.numVariables)
    ensures var env := TrivialEnv(); WitnessOk(env, b) && PeerAccepts(env, [], b) && Honest(env, [b])
  {
    var env := TrivialEnv();
    assert Hashed(env, b) == b by { hide Serialize; }
    assert PeerAccepts(env, [], b);
    assert Appended(env, EMPTY_CHAIN, b).blocks == [b];
    FirstBlockDecidesHeights(env, b);
    hide Linked, AccountsOk, TrailingRun, PeerAccepts, Serialize;
    forall m ensures RunsWithin([b], m, MAX_CONSECUTIVE_BLOCKS) {
      OneBlockRuns(b, m);
    }
  }

  lemma OneBlockRuns(b: Block, m: Address)
    ensures RunsWithin([b], m, MAX_CONSECUTIVE_BLOCKS)
  {
  }

  /** An address of exactly 2^16 bytes arrives empty, and the block is accepted with it. */
  lemma CutHappens()
    ensures var env, b := TrivialEnv(), TrivialBlock(LongAddress(), 0);
            Honest(env, [b]) && AcceptedCut(env, [b], 0) && Carried(b).minerAddress == []
  {
    hide LongAddress;
    var env, b := TrivialEnv(), TrivialBlock(LongAddress(), 0);
    LoneGenesis(b.minerAddress, b);
    WireIsCarried(b);
    EncodedPieces(Carried(b), WireBits(b), []);
    assert |WireOf(b)| == 174 + TWO_16;
    hide WireOf, Encode, TrivialEnv, Honest;
    AcceptedCutMeans(env, [b], 0);
  }
}
