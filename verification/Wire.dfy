/**
 The wire protocol of src/p2p.hpp: blocks, batches of blocks, and length-prefixed messages on a
 stream that the socket may hand over in pieces of any size.
 */
module Wire {
  import opened Words
  import opened Bytes
  import opened Blocks

  const MAX_WITNESS_BITS := 10000
  const MAX_ADDRESS_BYTES := 200
  const MAX_BATCH := 1000
  const MAX_BLOCK_BYTES := 100_000
  const MAX_MESSAGE_BYTES := 10_000_000

  // ------------------------------------------------ one block

  /** The wire carries num_variables bits, whatever the length of the witness. */
  function WireBits(b: Block): (bits: seq<bool>)
    ensures |bits| == b.numVariables
    // the witness, cut or filled up with zeros
    ensures |b.witnessBits| >= b.numVariables ==> bits == b.witnessBits[..b.numVariables]
    ensures |b.witnessBits| <= b.numVariables ==>
              b.witnessBits <= bits && forall i :: |b.witnessBits| <= i < |bits| ==> !bits[i]
  {
    seq(b.numVariables, i requires 0 <= i < b.numVariables => i < |b.witnessBits| && b.witnessBits[i])
  }

  function WireOf(b: Block): seq<Byte> {
    Encode(b, WireBits(b))
  }

  function DecodeWire(data: seq<Byte>): Option<Block> {
    match ParseBlock(data, MAX_WITNESS_BITS, MAX_ADDRESS_BYTES)
    case Some((b, _)) => Some(b)
    case None => None
  }

  /** The blocks the wire format is made for. */
  predicate FitsWire(b: Block) {
    |b.witnessBits| == b.numVariables <= MAX_WITNESS_BITS && |b.minerAddress| <= MAX_ADDRESS_BYTES
  }

  lemma {:induction false} FlattenSnoc(fields: seq<seq<Byte>>, f: seq<Byte>)
    ensures Flatten(fields + [f]) == Flatten(fields) + f
  {
    if fields == [] {
      assert [f][1..] == [];
    } else {
      FlattenSnoc(fields[1..], f);
      assert (fields + [f])[1..] == fields[1..] + [f];
      assert fields[0] + (Flatten(fields[1..]) + f) == fields[0] + Flatten(fields[1..]) + f;
    }
  }

  method BlockToWire(b: Block) returns (w: seq<Byte>)
    ensures w == WireOf(b)
  {
    hide HeaderFields, Packed, ToLE;
    w := [];
    var fields := HeaderFields(b);
    for i := 0 to |fields|
      invariant w == Flatten(fields[..i])
    {
      FlattenSnoc(fields[..i], fields[i]);
      assert fields[..i + 1] == fields[..i] + [fields[i]];
      w := w + fields[i];
    }
    assert fields[..|fields|] == fields;
    var bits := WireBits(b);
    var packed := PackBits(bits);
    assert w + ToLE(|bits|, 4) + packed + ToLE(|b.minerAddress|, 2) + b.minerAddress == WireOf(b);
    w := w + ToLE(|bits|, 4);
    w := w + packed;
    w := w + ToLE(|b.minerAddress|, 2);
    w := w + b.minerAddress;
  }

  lemma {:induction false} ChopSnoc(data: seq<Byte>, widths: seq<nat>, w: nat)
    requires |data| >= Total(widths) + w
    ensures Total(widths + [w]) == Total(widths) + w
    ensures Chop(data, widths + [w]) == Chop(data, widths) + [data[Total(widths)..Total(widths) + w]]
    decreases |widths|
  {
    if widths == [] {
      assert [w][1..] == [] && Chop(data, [w]) == [data[..w]];
    } else {
      var v, rest := widths[0], widths[1..];
      ChopSnoc(data[v..], rest, w);
      assert (widths + [w])[0] == v && (widths + [w])[1..] == rest + [w];
      SliceOfRest(data, v, Total(rest), w);
      assert Chop(data, widths + [w]) == [data[..v]] + Chop(data[v..], rest + [w]);
    }
  }

  lemma SliceOfRest(data: seq<Byte>, v: nat, t: nat, w: nat)
    requires v + t + w <= |data|
    ensures data[v..][t..t + w] == data[v + t..v + t + w]
  {
  }

  /** Fixed-width fields, read one after the other; None when the data ends early. */
  method ReadFields(data: seq<Byte>, widths: seq<nat>) returns (r: Option<seq<seq<Byte>>>, pos: nat)
    ensures r.Some? <==> |data| >= Total(widths)
    ensures r.Some? ==> r.value == Chop(data, widths) && pos == Total(widths)
  {
    var fields: seq<seq<Byte>> := [];
    pos := 0;
    assert widths[..0] == [];
    for i := 0 to |widths|
      invariant pos == Total(widths[..i]) <= |data| && fields == Chop(data, widths[..i])
    {
      hide Total, Chop;
      var n := widths[i];
      assert widths[..i + 1] == widths[..i] + [n];
      if pos + n > |data| {
        TotalGrows(widths, i);
        return None, pos;
      }
      ChopSnoc(data, widths[..i], n);
      fields := fields + [data[pos..pos + n]];
      pos := pos + n;
    }
    assert widths[..|widths|] == widths;
    return Some(fields), pos;
  }

  lemma {:induction false} TotalGrows(widths: seq<nat>, i: nat)
    requires i < |widths|
    ensures Total(widths[..i]) + widths[i] <= Total(widths)
    decreases i
  {
    if i == 0 {
    } else {
      TotalGrows(widths[1..], i - 1);
      assert widths[..i][1..] == widths[1..][..i - 1];
    }
  }

  method WireToBlock(data: seq<Byte>) returns (r: Option<Block>)
    ensures r == DecodeWire(data)
  {
    hide FromLE, FromHeader, Unpacked, Chop, Total;
    if |data| < 174 { return None; }
    HeaderLength();
    var fields, pos := ReadFields(data, HEADER_WIDTHS);
    assert fields.value == HeaderOf(data);
    var wsize := FromLE(data[pos..pos + 4]);
    pos := pos + 4;
    if wsize > MAX_WITNESS_BITS { return None; }
    var wbytes := (wsize + 7) / 8;
    if pos + wbytes > |data| { return None; }
    var bits := UnpackBits(data[pos..pos + wbytes], wsize);
    pos := pos + wbytes;
    if pos + 2 > |data| { return None; }
    var alen := FromLE(data[pos..pos + 2]);
    pos := pos + 2;
    if alen > MAX_ADDRESS_BYTES || pos + alen > |data| { return None; }
    return Some(FromHeader(fields.value, bits, data[pos..pos + alen]));
  }

  /** What the wire carries of a block: num_variables bits, and the address as far as its 16-bit size says. */
  function Carried(b: Block): Block {
    b.(witnessBits := WireBits(b), minerAddress := b.minerAddress[..|b.minerAddress| % TWO_16])
  }

  /** The two size fields pass the reader's limits. */
  predicate Readable(b: Block) {
    b.numVariables <= MAX_WITNESS_BITS && |b.minerAddress| % TWO_16 <= MAX_ADDRESS_BYTES
  }

  lemma TwoByteSize(n: nat)
    ensures ToLE(n, 2) == ToLE(n % TWO_16, 2)
  {
    Widths();
    LowBytes(n % TWO_16, n / TWO_16, 2);
  }

  /** The wire of a block is the encoding of what it carries, and the rest of an oversized address. */
  lemma WireIsCarried(b: Block)
    ensures WireOf(b) == Encode(Carried(b), WireBits(b)) + b.minerAddress[|b.minerAddress| % TWO_16..]
  {
    hide HeaderFields, Packed, ToLE, Flatten;
    TwoByteSize(|b.minerAddress|);
    SameFields(b);
    var m := |b.minerAddress| % TWO_16;
    var f, n, p, l := Flatten(HeaderFields(b)), ToLE(b.numVariables, 4), Packed(WireBits(b)), ToLE(m, 2);
    var kept, cut := b.minerAddress[..m], b.minerAddress[m..];
    assert kept + cut == b.minerAddress;
    Regroup(f, n, p, l, kept, cut);
  }

  lemma SameFields(b: Block)
    ensures HeaderFields(Carried(b)) == HeaderFields(b)
  {
  }

  lemma Regroup(f: seq<Byte>, n: seq<Byte>, p: seq<Byte>, l: seq<Byte>, kept: seq<Byte>, cut: seq<Byte>)
    ensures f + (n + (p + (l + (kept + cut)))) == f + (n + (p + (l + kept))) + cut
  {
  }

  /** What a reader makes of the wire of any block: what it carries, or nothing. */
  lemma WireYields(b: Block)
    ensures DecodeWire(WireOf(b)) == if Readable(b) then Some(Carried(b)) else None
  {
    hide ParseBlock, Encode, WireBits;
    WireIsCarried(b);
    var rest := b.minerAddress[|b.minerAddress| % TWO_16..];
    if Readable(b) {
      assert Carried(b).witnessBits == WireBits(b);
      ParseEncoded(Carried(b), rest, MAX_WITNESS_BITS, MAX_ADDRESS_BYTES);
    } else {
      UnreadableSizes(b, rest);
    }
  }

  lemma UnreadableSizes(b: Block, rest: seq<Byte>)
    requires !Readable(b)
    ensures ParseBlock(Encode(Carried(b), WireBits(b)) + rest, MAX_WITNESS_BITS, MAX_ADDRESS_BYTES) == None
  {
    hide FromHeader, HeaderOf, Unpacked, FromLE, Encode;
    EncodedPieces(Carried(b), WireBits(b), rest);
  }

  /** A block comes back exactly if it is one the format is made for. */
  lemma WireReturnsExactly(b: Block)
    ensures DecodeWire(WireOf(b)) == Some(b) <==> FitsWire(b)
  {
    hide WireOf, DecodeWire, Carried;
    WireYields(b);
    CarriedWhole(b);
  }

  /** Decoding inverts encoding on every block the format is made for, whatever follows it. */
  lemma WireRoundTrip(b: Block, rest: seq<Byte>)
    requires FitsWire(b)
    ensures DecodeWire(WireOf(b) + rest) == Some(b) && |WireOf(b)| == 174 + (b.numVariables + 7) / 8 + |b.minerAddress|
  {
    assert WireBits(b) == b.witnessBits;
    ParseEncoded(b, rest, MAX_WITNESS_BITS, MAX_ADDRESS_BYTES);
    EncodedPieces(b, b.witnessBits, []);
  }

  /**
   Encoding a decoded wire gives back the consumed bytes exactly when the two size fields agree and
   the padding bits are zero.
   */
  lemma WireReencodes(data: seq<Byte>)
    requires ParseBlock(data, MAX_WITNESS_BITS, MAX_ADDRESS_BYTES).Some?
    ensures var (b, n) := ParseBlock(data, MAX_WITNESS_BITS, MAX_ADDRESS_BYTES).value;
            var wbytes := (|b.witnessBits| + 7) / 8;
            172 + wbytes <= |data| &&
            (WireOf(b) == data[..n] <==>
             b.numVariables == |b.witnessBits| && ZeroPadded(data[172..172 + wbytes], |b.witnessBits|))
  {
    hide ParseBlock, Encode, ZeroPadded;
    var (b, n) := ParseBlock(data, MAX_WITNESS_BITS, MAX_ADDRESS_BYTES).value;
    EncodeParsed(data, MAX_WITNESS_BITS, MAX_ADDRESS_BYTES, WireBits(b));
    assert WireBits(b) == b.witnessBits <==> b.numVariables == |b.witnessBits|;
  }

  // ------------------------------------------------ batches

  function ItemOf(b: Block): seq<Byte> {
    ToLE(|WireOf(b)|, 4) + WireOf(b)
  }

  function ItemsOf(blocks: seq<Block>): seq<Byte> {
    if blocks == [] then [] else ItemOf(blocks[0]) + ItemsOf(blocks[1..])
  }

  /** The payload of a BLOCKS message. */
  function BatchOf(blocks: seq<Block>): seq<Byte> {
    ToLE(|blocks|, 4) + ItemsOf(blocks)
  }

  /** The blocks that the handler gets out of at most count items. */
  function DecodeItems(data: seq<Byte>, count: nat): seq<Block> {
    if count == 0 || |data| < 4 then [] else
      var blen := FromLE(data[..4]);
      if 4 + blen > |data| || blen > MAX_BLOCK_BYTES then [] else
        var rest := DecodeItems(data[4 + blen..], count - 1);
        match DecodeWire(data[4..4 + blen])
        case Some(b) => [b] + rest
        case None => rest
  }

  function DecodeBatch(payload: seq<Byte>): seq<Block> {
    if |payload| < 4 || FromLE(payload[..4]) > MAX_BATCH then [] else DecodeItems(payload[4..], FromLE(payload[..4]))
  }

  method BuildBatch(blocks: seq<Block>) returns (payload: seq<Byte>)
    ensures payload == BatchOf(blocks)
  {
    payload := ToLE(|blocks|, 4);
    for i := 0 to |blocks|
      invariant payload + ItemsOf(blocks[i..]) == BatchOf(blocks)
    {
      var wire := BlockToWire(blocks[i]);
      assert blocks[i..][0] == blocks[i] && blocks[i..][1..] == blocks[i + 1..];
      AppendItem(payload, ToLE(|wire|, 4), wire, ItemsOf(blocks[i + 1..]));
      hide ToLE, WireOf, ItemsOf, BatchOf;
      payload := payload + ToLE(|wire|, 4);
      payload := payload + wire;
    }
    assert payload + [] == payload;
  }

  lemma AppendItem(payload: seq<Byte>, size: seq<Byte>, wire: seq<Byte>, tail: seq<Byte>)
    ensures payload + (size + wire + tail) == payload + size + wire + tail
  {
  }

  lemma SliceItem(size: seq<Byte>, wire: seq<Byte>, tail: seq<Byte>)
    requires |size| == 4
    ensures var d := size + wire + tail; d[..4] == size && d[4..4 + |wire|] == wire && d[4 + |wire|..] == tail
  {
  }

  /** What decoding finds at a position of the payload. */
  lemma DecodeAt(payload: seq<Byte>, pos: nat, count: nat)
    requires pos <= |payload|
    ensures if count == 0 || pos + 4 > |payload| then DecodeItems(payload[pos..], count) == []
            else
              var start, blen := pos + 4, FromLE(payload[pos..pos + 4]);
              if start + blen > |payload| || blen > MAX_BLOCK_BYTES then DecodeItems(payload[pos..], count) == []
              else
                var r := DecodeWire(payload[start..start + blen]);
                DecodeItems(payload[pos..], count) ==
                (if r.Some? then [r.value] else []) + DecodeItems(payload[start + blen..], count - 1)
  {
    hide FromLE, DecodeWire;
    if count > 0 && pos + 4 <= |payload| {
      var data := payload[pos..];
      assert data[..4] == payload[pos..pos + 4];
      var blen := FromLE(data[..4]);
      if pos + 4 + blen <= |payload| {
        assert data[4..4 + blen] == payload[pos + 4..pos + 4 + blen] && data[4 + blen..] == payload[pos + 4 + blen..];
      }
    }
  }

  /** The BLOCKS branch of handle_message: the blocks it offers to the callback, in order. */
  method ReadBatch(payload: seq<Byte>) returns (blocks: seq<Block>)
    ensures blocks == DecodeBatch(payload)
  {
    hide FromLE, DecodeWire, DecodeItems;
    blocks := [];
    if |payload| < 4 { return; }
    var count := FromLE(payload[..4]);
    if count > MAX_BATCH { return; }
    var pos, i := 4, 0;
    while i < count && pos < |payload|
      invariant 0 <= i <= count && 4 <= pos <= |payload|
      invariant blocks + DecodeItems(payload[pos..], count - i) == DecodeItems(payload[4..], count)
      decreases count - i
    {
      DecodeAt(payload, pos, count - i);
      if pos + 4 > |payload| { break; }
      var blen := FromLE(payload[pos..pos + 4]);
      pos := pos + 4;
      if pos + blen > |payload| || blen > MAX_BLOCK_BYTES { break; }
      var r := WireToBlock(payload[pos..pos + blen]);
      ghost var rest := DecodeItems(payload[pos + blen..], count - i - 1);
      assert blocks + ((if r.Some? then [r.value] else []) + rest) ==
             blocks + (if r.Some? then [r.value] else []) + rest;
      if r.Some? {
        blocks := blocks + [r.value];
      }
      pos := pos + blen;
      i := i + 1;
    }
    DecodeAt(payload, pos, count - i);
  }

  /** What the reader gets out of a batch; a wire that is too long ends it. */
  function Arriving(blocks: seq<Block>): (r: seq<Block>)
    ensures |r| <= |blocks|
  {
    if blocks == [] || |WireOf(blocks[0])| > MAX_BLOCK_BYTES then []
    else (if Readable(blocks[0]) then [Carried(blocks[0])] else []) + Arriving(blocks[1..])
  }

  lemma DecodeFirst(b: Block, tail: seq<Byte>, count: nat)
    requires |WireOf(b)| < TWO_32 && count > 0
    ensures DecodeItems(ItemOf(b) + tail, count) ==
            if |WireOf(b)| > MAX_BLOCK_BYTES then []
            else (if Readable(b) then [Carried(b)] else []) + DecodeItems(tail, count - 1)
  {
    hide ToLE, FromLE, WireOf, DecodeWire, Carried, Readable;
    var wire := WireOf(b);
    WireYields(b);
    Widths();
    ReadBack(|wire|, 4);
    SliceItem(ToLE(|wire|, 4), wire, tail);
    assert [] + DecodeItems(tail, count - 1) == DecodeItems(tail, count - 1);
  }

  lemma {:induction false} ItemsArrive(blocks: seq<Block>)
    requires |ItemsOf(blocks)| < TWO_32
    ensures DecodeItems(ItemsOf(blocks), |blocks|) == Arriving(blocks)
  {
    hide DecodeItems, WireOf, Carried, Readable, ItemOf, ItemsOf, Arriving;
    if blocks == [] {
      NoItems();
    } else {
      FirstItem(blocks);
      ItemsArrive(blocks[1..]);
      DecodeFirst(blocks[0], ItemsOf(blocks[1..]), |blocks|);
    }
  }

  lemma NoItems()
    ensures DecodeItems(ItemsOf([]), 0) == Arriving([])
  {
    hide WireOf;
  }

  lemma FirstItem(blocks: seq<Block>)
    requires blocks != []
    ensures var b, rest := blocks[0], blocks[1..];
            ItemsOf(blocks) == ItemOf(b) + ItemsOf(rest) && |ItemOf(b)| == 4 + |WireOf(b)| &&
            Arriving(blocks) == if |WireOf(b)| > MAX_BLOCK_BYTES then []
                                else (if Readable(b) then [Carried(b)] else []) + Arriving(rest)
  {
    hide WireOf, Carried, Readable;
  }

  /** What is decoded from the batch of any blocks, as long as its size fields do not wrap. */
  lemma BatchArrives(blocks: seq<Block>)
    requires |blocks| <= MAX_BATCH && |BatchOf(blocks)| < TWO_32
    ensures DecodeBatch(BatchOf(blocks)) == Arriving(blocks)
  {
    hide ToLE, FromLE, ItemsOf, Arriving;
    Widths();
    ReadBack(|blocks|, 4);
    assert BatchOf(blocks)[..4] == ToLE(|blocks|, 4) && BatchOf(blocks)[4..] == ItemsOf(blocks);
    ItemsArrive(blocks);
  }

  lemma FittingWire(b: Block)
    requires FitsWire(b)
    ensures |WireOf(b)| <= 1624 && Readable(b) && Carried(b) == b
  {
    hide WireOf, DecodeWire, Carried;
    WireRoundTrip(b, []);
    CarriedWhole(b);
  }

  /** The wire carries the whole block exactly if bits and address have the sizes it names. */
  lemma CarriedWhole(b: Block)
    ensures Carried(b) == b <==> |b.witnessBits| == b.numVariables && |b.minerAddress| < TWO_16
  {
    var c := Carried(b);
    assert c == b <==> c.witnessBits == b.witnessBits && c.minerAddress == b.minerAddress;
    assert |b.witnessBits| == b.numVariables ==> WireBits(b) == b.witnessBits;
  }

  /** What every transfer keeps of a block. */
  lemma CarriedHeader(b: Block)
    ensures Carried(b).height == b.height && Carried(b).prevHash == b.prevHash && Carried(b).difficulty == b.difficulty
    ensures Carried(b).hash == b.hash && Carried(b).witnessBits == WireBits(b)
  {
  }

  lemma {:induction false} BatchLength(blocks: seq<Block>)
    requires AllFit(blocks)
    ensures |ItemsOf(blocks)| <= |blocks| * 1628
  {
    if blocks != [] {
      hide WireOf;
      BatchLength(blocks[1..]);
      FittingWire(blocks[0]);
    }
  }

  ghost predicate AllFit(blocks: seq<Block>) {
    forall i :: 0 <= i < |blocks| ==> FitsWire(blocks[i])
  }

  lemma AllFitCons(b: Block, rest: seq<Block>)
    ensures AllFit([b] + rest) <==> FitsWire(b) && AllFit(rest)
  {
    hide FitsWire;
    var all := [b] + rest;
    assert all[0] == b && forall i :: 0 <= i < |rest| ==> all[i + 1] == rest[i];
  }

  /** All blocks arrive, unchanged, exactly if each fits the wire. */
  lemma {:induction false} AllArriveExactly(blocks: seq<Block>)
    ensures Arriving(blocks) == blocks <==> AllFit(blocks)
  {
    if blocks != [] {
      hide WireOf, Carried, Readable, FitsWire, AllFit;
      var b, rest := blocks[0], blocks[1..];
      assert blocks == [b] + rest;
      AllFitCons(b, rest);
      AllArriveExactly(rest);
      FirstArrivesExactly(b);
      if Arriving(blocks) == blocks {
        assert Arriving(blocks)[0] == b && Arriving(blocks)[1..] == rest;
      }
    }
  }

  lemma FirstArrivesExactly(b: Block)
    ensures FitsWire(b) <==> |WireOf(b)| <= MAX_BLOCK_BYTES && Readable(b) && Carried(b) == b
  {
    CarriedWhole(b);
    if FitsWire(b) { FittingWire(b); }
    hide WireOf, Carried;
  }

  /** A batch of wire-sized blocks is decoded to the same blocks. */
  lemma BatchRoundTrip(blocks: seq<Block>)
    requires |blocks| <= MAX_BATCH && AllFit(blocks)
    ensures DecodeBatch(BatchOf(blocks)) == blocks
  {
    hide ItemsOf, DecodeBatch, FitsWire;
    BatchLength(blocks);
    BatchArrives(blocks);
    AllArriveExactly(blocks);
  }

  // ------------------------------------------------ messages on a stream

  datatype Message = Message(kind: Byte, payload: seq<Byte>)

  function FrameOf(m: Message): seq<Byte> {
    ToLE(1 + |m.payload|, 4) + [m.kind] + m.payload
  }

  function FramesOf(messages: seq<Message>): seq<Byte> {
    if messages == [] then [] else FrameOf(messages[0]) + FramesOf(messages[1..])
  }

  /** The messages handled before the stream ends or breaks the framing. */
  function Messages(stream: seq<Byte>): seq<Message> {
    if |stream| < 4 then [] else
      var len := FromLE(stream[..4]);
      if len == 0 || len > MAX_MESSAGE_BYTES || 4 + len > |stream| then [] else
        [Message(stream[4], stream[5..4 + len])] + Messages(stream[4 + len..])
  }

  lemma {:induction false} StreamRoundTrip(messages: seq<Message>)
    requires forall i :: 0 <= i < |messages| ==> 1 + |messages[i].payload| <= MAX_MESSAGE_BYTES
    ensures Messages(FramesOf(messages)) == messages
  {
    if messages != [] {
      hide ToLE, FromLE;
      var m, tail, stream := messages[0], FramesOf(messages[1..]), FramesOf(messages);
      Widths();
      ReadBack(1 + |m.payload|, 4);
      assert stream == ToLE(1 + |m.payload|, 4) + [m.kind] + m.payload + tail;
      assert stream[..4] == ToLE(1 + |m.payload|, 4) && stream[4] == m.kind;
      assert stream[5..5 + |m.payload|] == m.payload && stream[5 + |m.payload|..] == tail;
      StreamRoundTrip(messages[1..]);
    }
  }

  lemma FourByteSize(n: nat)
    ensures FromLE(ToLE(n, 4)) == n % TWO_32
  {
    Widths();
    ReadBack(n % TWO_32, 4);
    LowBytes(n % TWO_32, n / TWO_32, 4);
  }

  /** A message gets through exactly if it is within the size limit; else it is lost and the stream with it. */
  lemma FrameArrivesExactly(m: Message)
    ensures Messages(FrameOf(m)) == [m] <==> 1 + |m.payload| <= MAX_MESSAGE_BYTES
    ensures MAX_MESSAGE_BYTES < 1 + |m.payload| < TWO_32 ==> Messages(FrameOf(m)) == []
  {
    hide ToLE, FromLE, Messages;
    var stream := FrameOf(m);
    FourByteSize(1 + |m.payload|);
    assert stream[..4] == ToLE(1 + |m.payload|, 4);
    if 1 + |m.payload| <= MAX_MESSAGE_BYTES {
      OneFrame(m);
      StreamRoundTrip([m]);
    } else {
      FirstMessage(stream);
    }
  }

  lemma OneFrame(m: Message)
    ensures FramesOf([m]) == FrameOf(m)
  {
    assert [m][1..] == [];
  }

  /** The first message is no longer than the limit and than its size field says. */
  lemma FirstMessage(stream: seq<Byte>)
    requires |stream| >= 4
    ensures Messages(stream) != [] ==>
              1 + |Messages(stream)[0].payload| == FromLE(stream[..4]) <= MAX_MESSAGE_BYTES
  {
    hide FromLE;
  }

  /** A connected socket: the pieces in which the remaining bytes will arrive, then end of stream. */
  class Socket {
    var pieces: seq<seq<Byte>>

    ghost function Pending(): seq<Byte>
      reads this
    {
      Flatten(pieces)
    }

    ghost predicate Valid()
      reads this
    {
      forall i :: 0 <= i < |pieces| ==> pieces[i] != []
    }

    constructor (arriving: seq<seq<Byte>>)
      requires forall i :: 0 <= i < |arriving| ==> arriving[i] != []
      ensures Valid() && Pending() == Flatten(arriving)
    {
      pieces := arriving;
    }

    /** recv: some bytes, at most len of them, or none at the end of the stream. */
    method Recv(len: nat) returns (got: seq<Byte>)
      requires Valid() && len > 0
      modifies this
      ensures Valid() && old(Pending()) == got + Pending()
      ensures |got| <= len && (got == [] <==> old(Pending()) == [])
    {
      if pieces == [] { return []; }
      var p := pieces[0];
      if |p| <= len {
        got, pieces := p, pieces[1..];
      } else {
        got, pieces := p[..len], [p[len..]] + pieces[1..];
        assert pieces[1..] == old(pieces)[1..];
        assert p == p[..len] + p[len..];
      }
    }

    method RecvExactly(len: nat) returns (r: Option<seq<Byte>>)
      requires Valid()
      modifies this
      ensures Valid() && (r.Some? <==> |old(Pending())| >= len)
      ensures r.Some? ==> r.value == old(Pending())[..len] && Pending() == old(Pending())[len..]
    {
      var buf: seq<Byte> := [];
      while |buf| < len
        invariant Valid() && |buf| <= len && old(Pending()) == buf + Pending()
        decreases len - |buf|
      {
        var got := Recv(len - |buf|);
        if got == [] { return None; }
        assert buf + (got + Pending()) == buf + got + Pending();
        buf := buf + got;
      }
      return Some(buf);
    }
  }

  /** However recv cuts the stream, the loop handles the messages of the whole byte sequence. */
  method PeerRecvLoop(socket: Socket) returns (handled: seq<Message>)
    requires socket.Valid()
    modifies socket
    ensures handled == Messages(old(socket.Pending()))
  {
    hide FromLE, Messages;
    handled := [];
    while true
      invariant socket.Valid()
      invariant handled + Messages(socket.Pending()) == Messages(old(socket.Pending()))
      decreases |socket.Pending()|
    {
      ghost var stream := socket.Pending();
      NextMessage(stream);
      var hdr := socket.RecvExactly(4);
      if hdr.None? { return; }
      var len := FromLE(hdr.value);
      if len == 0 || len > MAX_MESSAGE_BYTES { return; }
      var body := socket.RecvExactly(len);
      if body.None? { return; }
      assert body.value == stream[4..4 + len] && body.value[0] == stream[4] && body.value[1..] == stream[5..4 + len];
      assert socket.Pending() == stream[4 + len..];
      var m := Message(body.value[0], body.value[1..]);
      assert handled + ([m] + Messages(socket.Pending())) == handled + [m] + Messages(socket.Pending());
      handled := handled + [m];
    }
  }

  /** What the loop does with the bytes at the front of the stream. */
  lemma NextMessage(stream: seq<Byte>)
    ensures if |stream| < 4 then Messages(stream) == [] else
              var len := FromLE(stream[..4]);
              if len == 0 || len > MAX_MESSAGE_BYTES || 4 + len > |stream| then Messages(stream) == []
              else Messages(stream) == [Message(stream[4], stream[5..4 + len])] + Messages(stream[4 + len..])
  {
    hide FromLE;
  }
}
