/**
 Where each field of a block lies in the bytes that are hashed, stored and sent, and what the hash of a
 chain's last block therefore says about the chain (src/testnet_node.cpp, src/p2p.hpp).
 */
module BlockLayout {
  import opened Words
  import opened Bytes
  import opened SatInstances
  import opened Blocks
  import opened Ledger

  // ------------------------------------------------ numbers and bits

  function V(b: seq<Byte>, i: nat): int
    requires i < |b|
  {
    b[i]
  }

  /** The lowest byte comes first. */
  lemma LittleEndian(b: seq<Byte>)
    ensures |b| == 2 ==> FromLE(b) == V(b, 0) + 0x100 * V(b, 1)
    ensures |b| == 4 ==> FromLE(b) == V(b, 0) + 0x100 * V(b, 1) + 0x1_0000 * V(b, 2) + 0x100_0000 * V(b, 3)
    ensures |b| == 8 ==>
              FromLE(b) == V(b, 0) + 0x100 * V(b, 1) + 0x1_0000 * V(b, 2) + 0x100_0000 * V(b, 3) +
                           0x1_0000_0000 * (V(b, 4) + 0x100 * V(b, 5) + 0x1_0000 * V(b, 6) + 0x100_0000 * V(b, 7))
  {
    if |b| >= 2 { FirstTwo(b); }
    if |b| >= 4 { FirstTwo(b[2..]); }
    if |b| >= 6 { FirstTwo(b[4..]); }
    if |b| >= 8 { FirstTwo(b[6..]); }
    assert FromLE([]) == 0;
    hide FromLE;
    assert forall i, k :: 0 <= k && 0 <= i < |b| - k ==> b[k..][i] == b[i + k];
    if |b| == 2 { assert b[2..] == []; }
    if |b| == 4 { assert b[2..][2..] == []; }
    if |b| == 8 {
      assert b[2..][2..] == b[4..] && b[4..][2..] == b[6..] && b[6..][2..] == [];
    }
  }

  lemma FirstTwo(b: seq<Byte>)
    requires |b| >= 2
    ensures FromLE(b) == V(b, 0) + 0x100 * V(b, 1) + 0x1_0000 * FromLE(b[2..])
  {
    assert b[1..][1..] == b[2..];
  }

  /** What bit t of a byte is worth. */
  function Worth(x: Byte, t: nat, weight: nat): nat
    requires t < 8
  {
    if BitOf(x, t) then weight else 0
  }

  lemma WorthIs(x: Byte, t: nat, weight: nat)
    requires t < 8
    ensures Worth(x, t, weight) == weight * Digit(x, t) && Digit(x, t) <= 1
  {
  }

  /** The bits of a byte count 1, 2, 4, ... 128 in the order in which they are packed. */
  lemma BitWeights(x: Byte)
    ensures x == Worth(x, 0, 1) + Worth(x, 1, 2) + Worth(x, 2, 4) + Worth(x, 3, 8) +
                 Worth(x, 4, 16) + Worth(x, 5, 32) + Worth(x, 6, 64) + Worth(x, 7, 128)
  {
    DigitsOf(x);
    hide Digit, Worth;
    WorthIs(x, 0, 1);
    WorthIs(x, 1, 2);
    WorthIs(x, 2, 4);
    WorthIs(x, 3, 8);
    WorthIs(x, 4, 16);
    WorthIs(x, 5, 32);
    WorthIs(x, 6, 64);
    WorthIs(x, 7, 128);
    var d := seq(8, t requires 0 <= t < 8 => Digit(x, t));
    assert x == FromDigits(d);
  }

  // ------------------------------------------------ offsets

  /** A field of a flattened record lies behind the fields before it. */
  lemma {:induction false} FieldAt(fields: seq<seq<Byte>>, i: nat)
    requires i < |fields|
    ensures var off := |Flatten(fields[..i])|;
            off + |fields[i]| <= |Flatten(fields)| && Flatten(fields)[off..off + |fields[i]|] == fields[i]
    ensures |Flatten(fields[..i + 1])| == |Flatten(fields[..i])| + |fields[i]|
  {
    if i == 0 {
      assert fields[..1] == [fields[0]] && fields[..1][1..] == fields[..0] == [];
    } else {
      FieldAt(fields[1..], i - 1);
      assert fields[..i][1..] == fields[1..][..i - 1] && fields[..i + 1][1..] == fields[1..][..i];
      BehindFirst(fields[0], Flatten(fields[1..]), |Flatten(fields[1..][..i - 1])|, |fields[i]|);
    }
  }

  lemma BehindFirst(a: seq<Byte>, b: seq<Byte>, off: nat, n: nat)
    requires off + n <= |b|
    ensures (a + b)[|a| + off..|a| + off + n] == b[off..off + n]
  {
  }

  ghost predicate Holds(data: seq<Byte>, off: nat, field: seq<Byte>) {
    off + |field| <= |data| && data[off..off + |field|] == field
  }

  /** One field further. */
  lemma NextField(fields: seq<seq<Byte>>, i: nat, off: nat)
    requires i < |fields| && |Flatten(fields[..i])| == off
    ensures Holds(Flatten(fields), off, fields[i]) && |Flatten(fields[..i + 1])| == off + |fields[i]|
  {
    FieldAt(fields, i);
  }

  /** The 136 bytes that are hashed, by their offsets. */
  ghost predicate HeaderAt(data: seq<Byte>, b: Block) {
    |data| >= 136 &&
    FromLE(data[0..4]) == b.version && FromLE(data[4..12]) == b.height && data[12..44] == b.prevHash &&
    data[44..76] == b.merkleRoot && FromLE(data[76..84]) == b.timestamp && FromLE(data[84..88]) == b.difficulty &&
    FromLE(data[88..92]) == b.numVariables && FromLE(data[92..96]) == b.numClauses &&
    data[96..128] == b.witnessHash && FromLE(data[128..136]) == b.reward
  }

  lemma FieldLengths(b: Block)
    ensures var f := HeaderFields(b);
            |f| == 11 && |f[0]| == 4 && |f[1]| == 8 && |f[2]| == 32 && |f[3]| == 32 && |f[4]| == 8 && |f[5]| == 4 &&
            |f[6]| == 4 && |f[7]| == 4 && |f[8]| == 32 && |f[9]| == 8 && |f[10]| == 32
  {
  }

  /** The fields one behind the other, each at its literal offset. */
  lemma FieldOffsets(fields: seq<seq<Byte>>)
    requires 10 <= |fields| <= 11
    requires |fields[0]| == 4 && |fields[1]| == 8 && |fields[2]| == 32 && |fields[3]| == 32 && |fields[4]| == 8
    requires |fields[5]| == 4 && |fields[6]| == 4 && |fields[7]| == 4 && |fields[8]| == 32 && |fields[9]| == 8
    ensures var data := Flatten(fields);
            Holds(data, 0, fields[0]) && Holds(data, 4, fields[1]) && Holds(data, 12, fields[2]) &&
            Holds(data, 44, fields[3]) && Holds(data, 76, fields[4]) && Holds(data, 84, fields[5]) &&
            Holds(data, 88, fields[6]) && Holds(data, 92, fields[7]) && Holds(data, 96, fields[8]) &&
            Holds(data, 128, fields[9]) && (|fields| == 11 ==> Holds(data, 136, fields[10]))
    ensures |Flatten(fields)| == 136 + if |fields| == 11 then |fields[10]| else 0
  {
    assert Flatten(fields[..0]) == [];
    assert fields[..|fields|] == fields;
    hide Flatten, Holds;
    NextField(fields, 0, 0);
    NextField(fields, 1, 4);
    NextField(fields, 2, 12);
    NextField(fields, 3, 44);
    NextField(fields, 4, 76);
    NextField(fields, 5, 84);
    NextField(fields, 6, 88);
    NextField(fields, 7, 92);
    NextField(fields, 8, 96);
    NextField(fields, 9, 128);
    if |fields| == 11 { NextField(fields, 10, 136); }
  }

  /** The fields of a block in order, each with its number read back. */
  lemma FieldValues(b: Block)
    ensures var f := HeaderFields(b);
            |f| == 11 && FromLE(f[0]) == b.version && FromLE(f[1]) == b.height && f[2] == b.prevHash &&
            f[3] == b.merkleRoot && FromLE(f[4]) == b.timestamp && FromLE(f[5]) == b.difficulty &&
            FromLE(f[6]) == b.numVariables && FromLE(f[7]) == b.numClauses && f[8] == b.witnessHash &&
            FromLE(f[9]) == b.reward && f[10] == b.hash
  {
    HeaderReadsBack(b);
    Widths();
    ReadBack(b.version, 4);
    ReadBack(b.height, 8);
    ReadBack(b.timestamp, 8);
    ReadBack(b.difficulty, 4);
    ReadBack(b.numVariables, 4);
    ReadBack(b.numClauses, 4);
    ReadBack(b.reward, 8);
    hide ToLE, FromLE, FromHeader;
  }

  /** What is hashed: exactly these ten fields at these places. */
  lemma SerializedAt(b: Block)
    ensures |Serialize(b)| == 136 && HeaderAt(Serialize(b), b)
  {
    FieldLengths(b);
    FieldValues(b);
    hide HeaderFields, Flatten, FromLE;
    FieldOffsets(HeaderFields(b)[..10]);
  }

  /** What is stored and sent: the same 136 bytes, the hash, the number of bits, the bits, the size, the address. */
  lemma EncodedAt(b: Block, bits: seq<bool>)
    requires |bits| < TWO_32 && |b.minerAddress| < TWO_16
    ensures var data, n := Encode(b, bits), (|bits| + 7) / 8;
            |data| == 174 + n + |b.minerAddress| && HeaderAt(data, b) && data[..136] == Serialize(b) &&
            data[136..168] == b.hash && FromLE(data[168..172]) == |bits| && data[172..172 + n] == Packed(bits) &&
            FromLE(data[172 + n..174 + n]) == |b.minerAddress| && data[174 + n..] == b.minerAddress
  {
    FieldLengths(b);
    FieldValues(b);
    SerializedAt(b);
    WholeHeader(b);
    EncodedPieces(b, bits, []);
    hide HeaderFields, Flatten, FromLE, ToLE, Packed, HeaderAt, HeaderOf;
    var data, h := Encode(b, bits), Flatten(HeaderFields(b));
    assert data + [] == data;
    assert data[..168] == h;
    assert data[..136] == h[..136] && data[136..168] == h[136..168];
    SameHeaderAt(Serialize(b), data, b);
  }

  lemma WholeHeader(b: Block)
    ensures var h := Flatten(HeaderFields(b)); |h| == 168 && h[..136] == Serialize(b) && h[136..168] == b.hash
  {
    FieldLengths(b);
    FieldValues(b);
    hide HeaderFields, FromLE, ToLE;
    var f := HeaderFields(b);
    FlattenLast(f[..10], f[10]);
    assert f[..10] + [f[10]] == f;
    hide Flatten;
    FieldOffsets(f[..10]);
    var all := Flatten(f[..10]) + f[10];
    assert all[..136] == Flatten(f[..10]) && all[136..168] == f[10];
  }

  lemma {:induction false} FlattenLast(fields: seq<seq<Byte>>, f: seq<Byte>)
    ensures Flatten(fields + [f]) == Flatten(fields) + f
  {
    if fields == [] {
      assert [f][1..] == [];
    } else {
      FlattenLast(fields[1..], f);
      assert (fields + [f])[1..] == fields[1..] + [f];
      assert fields[0] + (Flatten(fields[1..]) + f) == fields[0] + Flatten(fields[1..]) + f;
    }
  }

  lemma SameHeaderAt(header: seq<Byte>, data: seq<Byte>, b: Block)
    requires |header| == 136 <= |data| && data[..136] == header && HeaderAt(header, b)
    ensures HeaderAt(data, b)
  {
    hide FromLE;
    SameSlice(data, 0, 4);
    SameSlice(data, 4, 12);
    SameSlice(data, 12, 44);
    SameSlice(data, 44, 76);
    SameSlice(data, 76, 84);
    SameSlice(data, 84, 88);
    SameSlice(data, 88, 92);
    SameSlice(data, 92, 96);
    SameSlice(data, 96, 128);
    SameSlice(data, 128, 136);
  }

  lemma SameSlice(data: seq<Byte>, from: nat, to: nat)
    requires from <= to <= 136 <= |data|
    ensures data[..136][from..to] == data[from..to]
  {
  }

  // ------------------------------------------------ what a hash covers

  /** Equal in all fields but the witness bits, the address and the stored hash. */
  ghost predicate SameHeader(b: Block, c: Block) {
    b.version == c.version && b.height == c.height && b.prevHash == c.prevHash && b.merkleRoot == c.merkleRoot &&
    b.timestamp == c.timestamp && b.difficulty == c.difficulty && b.numVariables == c.numVariables &&
    b.numClauses == c.numClauses && b.witnessHash == c.witnessHash && b.reward == c.reward
  }

  /** Two blocks are hashed from the same bytes exactly if they agree in the ten fields. */
  lemma SerializedExactly(b: Block, c: Block)
    ensures Serialize(b) == Serialize(c) <==> SameHeader(b, c)
  {
    SerializedAt(b);
    SerializedAt(c);
    hide FromLE;
    if SameHeader(b, c) {
      hide HeaderAt;
      SameTenFields(b, c);
    }
  }

  lemma SameTenFields(b: Block, c: Block)
    requires SameHeader(b, c)
    ensures Serialize(b) == Serialize(c)
  {
    hide ToLE, Flatten;
    assert HeaderFields(b)[..10] == HeaderFields(c)[..10];
  }

  /** Some block of the first chain and the one at its place in the other are hashed from colliding strings. */
  ghost predicate BlocksCollide(env: Env, a: seq<Block>, b: seq<Block>, i: nat)
    requires i < |a| == |b|
  {
    Serialize(a[i]) != Serialize(b[i]) && env.sha3(Serialize(a[i])) == env.sha3(Serialize(b[i]))
  }

  /**
   Two linked chains of one length with the same hash at the tip agree in the ten fields of every block, or
   else two different strings, hashed for blocks at the same place, have the same hash.
   */
  lemma {:induction false} TipBindsChain(env: Env, a: seq<Block>, b: seq<Block>)
    requires Linked(env, a) && Linked(env, b) && |a| == |b| && TipHash(a) == TipHash(b)
    ensures (forall i :: 0 <= i < |a| ==> SameHeader(a[i], b[i])) ||
            (exists i :: 0 <= i < |a| && BlocksCollide(env, a, b, i))
  {
    if a != [] {
      var n := |a| - 1;
      LastLinked(env, a);
      LastLinked(env, b);
      SerializedExactly(a[n], b[n]);
      if Serialize(a[n]) != Serialize(b[n]) {
        assert BlocksCollide(env, a, b, n);
      } else {
        hide Linked, Serialize;
        TipBindsChain(env, a[..n], b[..n]);
        if i: nat :| i < n && BlocksCollide(env, a[..n], b[..n], i) {
          assert BlocksCollide(env, a, b, i);
        } else {
          forall i | 0 <= i < |a| ensures SameHeader(a[i], b[i]) {
            if i < n { assert SameHeader(a[..n][i], b[..n][i]); }
          }
        }
      }
    }
  }

  lemma LastLinked(env: Env, blocks: seq<Block>)
    requires Linked(env, blocks) && blocks != []
    ensures var n := |blocks| - 1;
            Linked(env, blocks[..n]) && blocks[n].prevHash == TipHash(blocks[..n]) &&
            TipHash(blocks) == blocks[n].hash == env.sha3(Serialize(blocks[n]))
  {
    hide Serialize;
    var n := |blocks| - 1;
    assert LinkedAt(env, blocks, n);
    forall i | 0 <= i < n ensures LinkedAt(env, blocks[..n], i) {
      assert LinkedAt(env, blocks, i);
    }
  }
}
