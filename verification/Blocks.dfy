/**
 Blocks and their byte form. src/testnet_node.cpp stores them on disk and src/p2p.hpp sends them over
 the wire in the same layout: eleven fixed-width fields, the packed witness, the miner address.
 */
module Blocks {
  import opened Words
  import opened Bytes
  import opened SatInstances

  type Address = seq<Byte>

  datatype Block = Block(
    version: U32, height: U64, prevHash: Hash, merkleRoot: Hash, timestamp: U64, difficulty: U32,
    numVariables: U32, numClauses: U32, witnessBits: seq<bool>, witnessHash: Hash, reward: U64,
    minerAddress: Address, hash: Hash)

  /** The functions the node computes with but this model does not look into. */
  datatype Env = Env(sha3: seq<Byte> -> Hash, instanceOf: (Hash, nat) -> SatInstance)

  const HEADER_WIDTHS: seq<nat> := [4, 8, 32, 32, 8, 4, 4, 4, 32, 8, 32]
  const HEADER_BYTES := 168

  function HeaderFields(b: Block): (f: seq<seq<Byte>>)
    ensures HasWidths(f, HEADER_WIDTHS)
  {
    [ToLE(b.version, 4), ToLE(b.height, 8), b.prevHash, b.merkleRoot, ToLE(b.timestamp, 8), ToLE(b.difficulty, 4),
     ToLE(b.numVariables, 4), ToLE(b.numClauses, 4), b.witnessHash, ToLE(b.reward, 8), b.hash]
  }

  function Number32(f: seq<Byte>): U32
    requires |f| == 4
  {
    Widths();
    FromLE(f)
  }

  function Number64(f: seq<Byte>): U64
    requires |f| == 8
  {
    Widths();
    FromLE(f)
  }

  function FromHeader(f: seq<seq<Byte>>, bits: seq<bool>, address: Address): Block
    requires HasWidths(f, HEADER_WIDTHS)
  {
    Block(Number32(f[0]), Number64(f[1]), f[2], f[3], Number64(f[4]), Number32(f[5]),
          Number32(f[6]), Number32(f[7]), bits, f[8], Number64(f[9]), address, f[10])
  }

  /** What is hashed: all fields but the witness bits, the address and the hash itself. */
  function Serialize(b: Block): seq<Byte> {
    Flatten(HeaderFields(b)[..10])
  }

  function ComputeHash(env: Env, b: Block): Hash {
    env.sha3(Serialize(b))
  }

  lemma HeaderReadsBack(b: Block)
    ensures FromHeader(HeaderFields(b), b.witnessBits, b.minerAddress) == b
  {
    Widths();
    ReadBack(b.version, 4);
    ReadBack(b.height, 8);
    ReadBack(b.timestamp, 8);
    ReadBack(b.difficulty, 4);
    ReadBack(b.numVariables, 4);
    ReadBack(b.numClauses, 4);
    ReadBack(b.reward, 8);
  }

  lemma HeaderWritesBack(f: seq<seq<Byte>>, bits: seq<bool>, address: Address)
    requires HasWidths(f, HEADER_WIDTHS)
    ensures HeaderFields(FromHeader(f, bits, address)) == f
  {
    WriteBack(f[0]);
    WriteBack(f[1]);
    WriteBack(f[4]);
    WriteBack(f[5]);
    WriteBack(f[6]);
    WriteBack(f[7]);
    WriteBack(f[9]);
  }

  lemma HeaderLength()
    ensures Total(HEADER_WIDTHS) == HEADER_BYTES
  {
    var w := HEADER_WIDTHS;
    assert w[10..] == [32] && w[9..] == [8] + w[10..] && w[8..] == [32] + w[9..] && w[7..] == [4] + w[8..] &&
           w[6..] == [4] + w[7..];
    assert w[5..] == [4] + w[6..] && w[4..] == [8] + w[5..] && w[3..] == [32] + w[4..] && w[2..] == [32] + w[3..];
    assert w[1..] == [8] + w[2..] && w == [4] + w[1..];
    assert Total([32]) == 32 by { assert [32][1..] == []; }
    TotalCons(8, w[10..]);
    TotalCons(32, w[9..]);
    TotalCons(4, w[8..]);
    TotalCons(4, w[7..]);
    TotalCons(4, w[6..]);
    TotalCons(8, w[5..]);
    TotalCons(32, w[4..]);
    TotalCons(32, w[3..]);
    TotalCons(8, w[2..]);
    TotalCons(4, w[1..]);
  }

  lemma TotalCons(x: nat, w: seq<nat>)
    ensures Total([x] + w) == x + Total(w)
  {
    assert ([x] + w)[1..] == w;
  }

  // ------------------------------------------------ the whole block

  /** Header, number of witness bits, packed bits, address length modulo 2^16, address. */
  function Encode(b: Block, bits: seq<bool>): seq<Byte> {
    Flatten(HeaderFields(b)) + (ToLE(|bits|, 4) + (Packed(bits) + (ToLE(|b.minerAddress|, 2) + b.minerAddress)))
  }

  function HeaderOf(data: seq<Byte>): (f: seq<seq<Byte>>)
    requires |data| >= HEADER_BYTES
    ensures HasWidths(f, HEADER_WIDTHS)
  {
    HeaderLength();
    Chop(data, HEADER_WIDTHS)
  }

  /** The number of witness bits and of address bytes, if they are within the limits and the data holds them. */
  function ParseSizes(data: seq<Byte>, maxBits: nat, maxAddress: nat): (r: Option<(nat, nat)>)
    ensures r.Some? ==>
              r.value.0 <= maxBits && r.value.1 <= maxAddress && 174 + (r.value.0 + 7) / 8 + r.value.1 <= |data|
  {
    if |data| < HEADER_BYTES + 4 then None else
      var wsize := FromLE(data[168..172]);
      var wbytes := (wsize + 7) / 8;
      if wsize > maxBits || 174 + wbytes > |data| then None else
        var alen := FromLE(data[172 + wbytes..174 + wbytes]);
        if alen > maxAddress || 174 + wbytes + alen > |data| then None else Some((wsize, alen))
  }

  /** The block at the front of the data, given its sizes. */
  function BlockAt(data: seq<Byte>, wsize: nat, alen: nat): Block
    requires 174 + (wsize + 7) / 8 + alen <= |data|
  {
    hide FromHeader, Unpacked, HeaderOf;
    var start := 174 + (wsize + 7) / 8;
    FromHeader(HeaderOf(data), Unpacked(data[172..start - 2], wsize), data[start..start + alen])
  }

  /** The block at the front of the data and its length, if there is one within the limits. */
  function ParseBlock(data: seq<Byte>, maxBits: nat, maxAddress: nat): (r: Option<(Block, nat)>)
    ensures r.Some? ==> r.value.1 <= |data|
  {
    hide ParseSizes, BlockAt;
    match ParseSizes(data, maxBits, maxAddress)
    case None => None
    case Some((wsize, alen)) =>
      var size: nat := 174 + (wsize + 7) / 8 + alen;
      Some((BlockAt(data, wsize, alen), size))
  }

  /** Where the five pieces of an encoding lie. */
  lemma Slices(h: seq<Byte>, n: seq<Byte>, p: seq<Byte>, l: seq<Byte>, a: seq<Byte>, rest: seq<Byte>)
    requires |h| == 168 && |n| == 4 && |l| == 2
    ensures var d := h + (n + (p + (l + a))) + rest;
            |d| >= 174 + |p| + |a| && d == h + (n + (p + (l + a)) + rest) && d[168..172] == n &&
            d[172..172 + |p|] == p &&
            d[172 + |p|..174 + |p|] == l && d[174 + |p|..174 + |p| + |a|] == a
  {
    var d := h + (n + (p + (l + a))) + rest;
    assert d == h + n + p + l + a + rest;
  }

  /** The pieces of an encoded block, in place. */
  lemma EncodedPieces(b: Block, bits: seq<bool>, rest: seq<Byte>)
    requires |bits| < TWO_32 && |b.minerAddress| < TWO_16
    ensures var data, wbytes, alen := Encode(b, bits) + rest, (|bits| + 7) / 8, |b.minerAddress|;
            |Encode(b, bits)| == 174 + wbytes + alen && HeaderOf(data) == HeaderFields(b) &&
            FromLE(data[168..172]) == |bits| && data[172..172 + wbytes] == Packed(bits) &&
            FromLE(data[172 + wbytes..174 + wbytes]) == alen &&
            data[174 + wbytes..174 + wbytes + alen] == b.minerAddress
  {
    hide HeaderFields, Packed, Flatten, Chop, ToLE, FromLE;
    HeaderLength();
    var h, n, p, l := Flatten(HeaderFields(b)), ToLE(|bits|, 4), Packed(bits), ToLE(|b.minerAddress|, 2);
    ChopFlattened(HeaderFields(b), HEADER_WIDTHS, n + (p + (l + b.minerAddress)) + rest);
    Slices(h, n, p, l, b.minerAddress, rest);
    Widths();
    ReadBack(|bits|, 4);
    ReadBack(|b.minerAddress|, 2);
  }

  /** Reading what was written gives the block back, whatever follows it. */
  lemma ParseEncoded(b: Block, rest: seq<Byte>, maxBits: nat, maxAddress: nat)
    requires |b.witnessBits| <= maxBits < TWO_32 && |b.minerAddress| <= maxAddress < TWO_16
    ensures ParseBlock(Encode(b, b.witnessBits) + rest, maxBits, maxAddress) == Some((b, |Encode(b, b.witnessBits)|))
  {
    hide HeaderFields, Packed, HeaderOf, FromHeader, Encode, Unpacked, FromLE;
    EncodedPieces(b, b.witnessBits, rest);
    UnpackPacked(b.witnessBits);
    HeaderReadsBack(b);
  }

  /** A successful parse has read header, size, packed bits, length and address, in this order. */
  lemma ParsedPieces(data: seq<Byte>, maxBits: nat, maxAddress: nat) returns (b: Block, n: nat, packed: seq<Byte>)
    requires ParseBlock(data, maxBits, maxAddress).Some?
    ensures ParseBlock(data, maxBits, maxAddress) == Some((b, n))
    ensures |b.witnessBits| <= maxBits && |b.minerAddress| <= maxAddress
    ensures |packed| == (|b.witnessBits| + 7) / 8 && 172 + |packed| <= n <= |data| &&
            packed == data[172..172 + |packed|]
    ensures b.witnessBits == Unpacked(packed, |b.witnessBits|)
    ensures data[..n] == Flatten(HeaderFields(b)) +
            (ToLE(|b.witnessBits|, 4) + (packed + (ToLE(|b.minerAddress|, 2) + b.minerAddress)))
  {
    hide HeaderFields, HeaderOf, FromHeader, FromLE, ToLE, Flatten, Unpacked;
    var wsize := FromLE(data[168..172]);
    var wbytes := (wsize + 7) / 8;
    var alen := FromLE(data[172 + wbytes..174 + wbytes]);
    n := 174 + wbytes + alen;
    packed := data[172..172 + wbytes];
    var bits, address := Unpacked(packed, wsize), data[174 + wbytes..n];
    b := FromHeader(HeaderOf(data), bits, address);
    HeaderWritesBack(HeaderOf(data), bits, address);
    FieldsOf(HeaderOf(data), bits, address);
    WriteBack(data[168..172]);
    WriteBack(data[172 + wbytes..174 + wbytes]);
    ParsedWhole(data, wbytes, n);
  }

  lemma FieldsOf(f: seq<seq<Byte>>, bits: seq<bool>, address: Address)
    requires HasWidths(f, HEADER_WIDTHS)
    ensures FromHeader(f, bits, address).witnessBits == bits && FromHeader(f, bits, address).minerAddress == address
  {
  }

  lemma Rejoin(data: seq<Byte>, a: nat, b: nat, c: nat)
    requires a <= b <= c <= |data|
    ensures data[a..b] + data[b..c] == data[a..c]
  {
  }

  /** The parsed bytes, put together again. */
  lemma ParsedWhole(data: seq<Byte>, wbytes: nat, n: nat)
    requires HEADER_BYTES + 6 + wbytes <= n <= |data|
    ensures data[..n] == Flatten(HeaderOf(data)) +
            (data[168..172] + (data[172..172 + wbytes] + (data[172 + wbytes..174 + wbytes] + data[174 + wbytes..n])))
  {
    HeaderLength();
    FlattenChopped(data, HEADER_WIDTHS);
    hide Flatten, Chop, Total;
    Rejoin(data, 172 + wbytes, 174 + wbytes, n);
    Rejoin(data, 172, 172 + wbytes, n);
    Rejoin(data, 168, 172, n);
    Rejoin(data, 0, 168, n);
  }

  lemma SplitEqual(a: seq<Byte>, x: seq<Byte>, b: seq<Byte>, y: seq<Byte>)
    requires |a| == |b| && a + x == b + y
    ensures a == b && x == y
  {
    assert a == (a + x)[..|a|] && b == (b + y)[..|b|];
    assert x == (a + x)[|a|..] && y == (b + y)[|b|..];
  }

  /** Two layouts with the same header and tail agree only if size field and packed bits agree. */
  lemma SameLayout(h: seq<Byte>, bits: seq<bool>, tail: seq<Byte>, size: nat, packed: seq<Byte>)
    requires |bits| < TWO_32 && size < TWO_32 && |packed| == (size + 7) / 8
    requires h + (ToLE(|bits|, 4) + (Packed(bits) + tail)) == h + (ToLE(size, 4) + (packed + tail))
    ensures |bits| == size && Packed(bits) == packed
  {
    hide ToLE, Packed;
    SplitEqual(h, ToLE(|bits|, 4) + (Packed(bits) + tail), h, ToLE(size, 4) + (packed + tail));
    SplitEqual(ToLE(|bits|, 4), Packed(bits) + tail, ToLE(size, 4), packed + tail);
    Widths();
    ReadBack(|bits|, 4);
    ReadBack(size, 4);
    SplitEqual(Packed(bits), tail, packed, tail);
  }

  /**
   Writing what was read gives the same bytes exactly when the bits written are the bits read and the
   padding was zero.
   */
  lemma EncodeParsed(data: seq<Byte>, maxBits: nat, maxAddress: nat, bits: seq<bool>)
    requires maxBits < TWO_32 && maxAddress < TWO_16 && |bits| < TWO_32
    requires ParseBlock(data, maxBits, maxAddress).Some?
    ensures var (b, n) := ParseBlock(data, maxBits, maxAddress).value;
            var wbytes := (|b.witnessBits| + 7) / 8;
            172 + wbytes <= n <= |data| &&
            (Encode(b, bits) == data[..n] <==>
             bits == b.witnessBits && ZeroPadded(data[172..172 + wbytes], |b.witnessBits|))
  {
    hide ParseBlock, HeaderFields, Packed, Unpacked, ToLE, Flatten, ZeroPadded;
    var b, n, packed := ParsedPieces(data, maxBits, maxAddress);
    PackUnpacked(packed, |b.witnessBits|);
    if Encode(b, bits) == data[..n] {
      SameLayout(Flatten(HeaderFields(b)), bits, ToLE(|b.minerAddress|, 2) + b.minerAddress, |b.witnessBits|, packed);
      UnpackPacked(bits);
    }
  }
}
