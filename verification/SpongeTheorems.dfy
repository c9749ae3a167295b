/**
 The byte-wise sponge computes the construction of FIPS 202, for every message and output length,
 however the message is cut into absorb calls and the output into squeeze calls.
 */
module SpongeTheorems {
  import opened Arith
  import opened Sponge

  // ------------------------------------------------ absorbing

  lemma {:induction false} AbsorbInPieces(f: Permutation, rate: nat, c: Cursor, a: seq<bv8>, b: seq<bv8>)
    requires c.pos < rate <= STATE_BYTES
    ensures AbsorbBytes(f, rate, AbsorbBytes(f, rate, c, a), b) == AbsorbBytes(f, rate, c, a + b)
  {
    if b == [] {
      assert a + b == a;
    } else {
      var n := |b| - 1;
      AbsorbInPieces(f, rate, c, a, b[..n]);
      assert (a + b)[..|a + b| - 1] == a + b[..n];
    }
  }

  /** While the block is not full, absorbed bytes are just xored in. */
  lemma {:induction false} AbsorbPartial(f: Permutation, rate: nat, s: Lanes, data: seq<bv8>)
    requires |data| < rate <= STATE_BYTES
    ensures AbsorbBytes(f, rate, Cursor(s, 0), data) == Cursor(XorBlock(s, data), |data|)
  {
    if data == [] {
      assert XorBlock(s, data) == s;
    } else {
      var n := |data| - 1;
      AbsorbPartial(f, rate, s, data[..n]);
      assert Mixed(XorBlock(s, data[..n]), n, data[n]) == XorBlock(s, data);
    }
  }

  lemma AbsorbFullBlock(f: Permutation, rate: nat, s: Lanes, block: seq<bv8>)
    requires 0 < rate <= STATE_BYTES && |block| == rate
    ensures AbsorbBytes(f, rate, Cursor(s, 0), block) == Cursor(f(XorBlock(s, block)), 0)
  {
    var n := rate - 1;
    AbsorbPartial(f, rate, s, block[..n]);
    assert Mixed(XorBlock(s, block[..n]), n, block[n]) == XorBlock(s, block);
  }

  /** Dropping one whole block changes no remainder, and so no padding. */
  lemma PaddingAfterBlock(rate: nat, suffix: bv8, n: nat)
    requires 0 < rate <= n
    ensures Padding(rate, suffix, n - rate) == Padding(rate, suffix, n)
  {
    AddMultiple(n - rate, rate, 1);
  }

  /**
   Byte-wise absorption of a whole message and the final suffix gives the block-wise absorption of the
   padded message.
   */
  lemma {:induction false} FinalizeIsBlocks(f: Permutation, rate: nat, suffix: bv8, s: Lanes, message: seq<bv8>)
    requires 0 < rate <= STATE_BYTES
    ensures Finalized(f, rate, suffix, AbsorbBytes(f, rate, Cursor(s, 0), message))
         == AbsorbBlocks(f, rate, s, message + Padding(rate, suffix, |message|))
    decreases |message|
  {
    if |message| < rate {
      FinalizeShort(f, rate, suffix, s, message);
    } else {
      hide Padding, Finalized, XorBlock, AbsorbBytes, AbsorbBlocks;
      var block, rest := message[..rate], message[rate..];
      PaddingAfterBlock(rate, suffix, |message|);
      FinalizeIsBlocks(f, rate, suffix, f(XorBlock(s, block)), rest);
      AbsorbFullBlock(f, rate, s, block);
      AbsorbInPieces(f, rate, Cursor(s, 0), block, rest);
      assert block + rest == message;
      FirstBlock(f, rate, s, block, rest + Padding(rate, suffix, |rest|));
      Regroup(block, rest, Padding(rate, suffix, |rest|));
    }
  }

  lemma Regroup<T>(a: seq<T>, b: seq<T>, c: seq<T>)
    ensures a + (b + c) == a + b + c
  {
  }

  lemma FirstBlock(f: Permutation, rate: nat, s: Lanes, block: seq<bv8>, rest: seq<bv8>)
    requires 0 < rate <= STATE_BYTES && |block| == rate
    ensures AbsorbBlocks(f, rate, s, block + rest) == AbsorbBlocks(f, rate, f(XorBlock(s, block)), rest)
  {
    assert (block + rest)[..rate] == block && (block + rest)[rate..] == rest;
  }

  /** The message that leaves room for the suffix in its only block. */
  lemma FinalizeShort(f: Permutation, rate: nat, suffix: bv8, s: Lanes, message: seq<bv8>)
    requires |message| < rate <= STATE_BYTES
    ensures Finalized(f, rate, suffix, AbsorbBytes(f, rate, Cursor(s, 0), message))
         == AbsorbBlocks(f, rate, s, message + Padding(rate, suffix, |message|))
  {
    UniqueRemainder(|message|, rate, 0, |message|);
    AbsorbPartial(f, rate, s, message);
    LastBlock(rate, suffix, s, message);
    hide Padding, XorBlock, Mixed;
    var padded := message + Padding(rate, suffix, |message|);
    assert padded[..rate] == padded && padded[rate..] == [];
  }

  /** Entering suffix and final bit byte by byte is xoring in the padded last block. */
  lemma LastBlock(rate: nat, suffix: bv8, s: Lanes, message: seq<bv8>)
    requires |message| < rate <= STATE_BYTES && |message| % rate == |message|
    ensures |message + Padding(rate, suffix, |message|)| == rate
    ensures Mixed(Mixed(XorBlock(s, message), |message|, suffix), rate - 1, 0x80)
         == XorBlock(s, message + Padding(rate, suffix, |message|))
  {
    var n, last := |message|, message + Padding(rate, suffix, |message|);
    var l, r := Mixed(Mixed(XorBlock(s, message), n, suffix), rate - 1, 0x80), XorBlock(s, last);
    forall i | 0 <= i < STATE_BYTES ensures l[i] == r[i] {
      if n < i < rate - 1 {
        assert last[i] == 0;
        XorZero(s[i]);
      } else if i == n == rate - 1 {
        assert last[i] == suffix ^ 0x80;
        XorAssociates(s[i], suffix, 0x80);
      }
    }
  }

  lemma XorZero(a: bv8)
    ensures a ^ 0 == a
  {
  }

  lemma XorAssociates(a: bv8, b: bv8, c: bv8)
    ensures (a ^ b) ^ c == a ^ (b ^ c)
  {
  }

  // ------------------------------------------------ squeezing

  lemma {:induction false} SqueezeInPieces(f: Permutation, rate: nat, c: Cursor, a: nat, b: nat)
    requires c.pos <= rate && 0 < rate <= STATE_BYTES
    ensures var first := SqueezeBytes(f, rate, c, a); var second := SqueezeBytes(f, rate, first.1, b);
            SqueezeBytes(f, rate, c, a + b) == (first.0 + second.0, second.1)
    decreases a, c.pos
  {
    hide SqueezeBytes;
    if a == 0 {
      SqueezeNothing(f, rate, c);
      assert [] + SqueezeBytes(f, rate, c, b).0 == SqueezeBytes(f, rate, c, b).0;
    } else if c.pos == rate {
      SqueezeInPieces(f, rate, Cursor(f(c.s), 0), a, b);
      NextBlock(f, rate, c.s, a);
      NextBlock(f, rate, c.s, a + b);
    } else {
      var room := rate - c.pos;
      if a <= room {
        SqueezeWithinBlock(f, rate, c, a, b);
      } else {
        SqueezeInPieces(f, rate, Cursor(c.s, rate), a - room, b);
        EmptyBlock(f, rate, c, a);
        EmptyBlock(f, rate, c, a + b);
        var first := SqueezeBytes(f, rate, Cursor(c.s, rate), a - room);
        Regroup(c.s[c.pos..rate], first.0, SqueezeBytes(f, rate, first.1, b).0);
      }
    }
  }

  /** At the end of a block the state is permuted first. */
  lemma NextBlock(f: Permutation, rate: nat, s: Lanes, len: nat)
    requires 0 < rate <= STATE_BYTES && len > 0
    ensures SqueezeBytes(f, rate, Cursor(s, rate), len) == SqueezeBytes(f, rate, Cursor(f(s), 0), len)
  {
  }

  /** A squeeze beyond the current block empties it and goes on. */
  lemma EmptyBlock(f: Permutation, rate: nat, c: Cursor, len: nat)
    requires c.pos < rate <= STATE_BYTES && len >= rate - c.pos
    ensures var rest := SqueezeBytes(f, rate, Cursor(c.s, rate), len - (rate - c.pos));
            SqueezeBytes(f, rate, c, len) == (c.s[c.pos..rate] + rest.0, rest.1)
  {
  }

  lemma Rejoin(s: seq<bv8>, i: nat, j: nat, k: nat)
    requires i <= j <= k <= |s|
    ensures s[i..j] + s[j..k] == s[i..k]
  {
  }

  /** The first piece ends inside the current block. */
  lemma SqueezeWithinBlock(f: Permutation, rate: nat, c: Cursor, a: nat, b: nat)
    requires c.pos < rate <= STATE_BYTES && 0 < a <= rate - c.pos
    ensures SqueezeBytes(f, rate, c, a) == (c.s[c.pos..c.pos + a], Cursor(c.s, c.pos + a))
    ensures var second := SqueezeBytes(f, rate, Cursor(c.s, c.pos + a), b);
            SqueezeBytes(f, rate, c, a + b) == (c.s[c.pos..c.pos + a] + second.0, second.1)
  {
    var here, there := c.s[c.pos..c.pos + a], Cursor(c.s, c.pos + a);
    assert here + [] == here;
    if b == 0 {
    } else if a + b <= rate - c.pos {
      var more := c.s[c.pos + a..c.pos + a + b];
      Rejoin(c.s, c.pos, c.pos + a, c.pos + a + b);
      assert here + more + [] == here + more && more + [] == more;
      assert SqueezeBytes(f, rate, Cursor(c.s, c.pos + a + b), 0) == ([], Cursor(c.s, c.pos + a + b));
      assert SqueezeBytes(f, rate, there, b) == (more, Cursor(c.s, c.pos + a + b));
    } else if a < rate - c.pos {
      var tail := SqueezeBytes(f, rate, Cursor(c.s, rate), a + b - (rate - c.pos));
      Rejoin(c.s, c.pos, c.pos + a, rate);
      Regroup(here, c.s[c.pos + a..rate], tail.0);
    }
  }

  lemma {:induction false} SqueezeIsBlocks(f: Permutation, rate: nat, s: Lanes, d: nat)
    requires 0 < rate <= STATE_BYTES
    ensures SqueezeBytes(f, rate, Cursor(s, 0), d).0 == SqueezeBlocks(f, rate, s, d)
    decreases d
  {
    if d > rate {
      SqueezeIsBlocks(f, rate, f(s), d - rate);
    } else if d > 0 {
      assert s[0..d] + [] == s[..d];
    }
  }

  /** A shorter output is a prefix of a longer one. */
  lemma SpongePrefix(f: Permutation, rate: nat, suffix: bv8, message: seq<bv8>, d: nat, d': nat)
    requires 0 < rate <= STATE_BYTES && d <= d'
    ensures SpongeOf(f, rate, suffix, message, d) == SpongeOf(f, rate, suffix, message, d')[..d]
  {
    var s := AbsorbBlocks(f, rate, Zero(), message + Padding(rate, suffix, |message|));
    SqueezeIsBlocks(f, rate, s, d);
    SqueezeIsBlocks(f, rate, s, d');
    SqueezeInPieces(f, rate, Cursor(s, 0), d, d' - d);
  }

  /** What a fresh sponge gives after any message, in terms of FIPS 202. */
  lemma BytewiseIsSponge(f: Permutation, rate: nat, suffix: bv8, message: seq<bv8>, d: nat)
    requires 0 < rate <= STATE_BYTES
    ensures SqueezeBytes(f, rate,
                         Cursor(Finalized(f, rate, suffix, AbsorbBytes(f, rate, Cursor(Zero(), 0), message)), 0), d).0
         == SpongeOf(f, rate, suffix, message, d)
  {
    FinalizeIsBlocks(f, rate, suffix, Zero(), message);
    SqueezeIsBlocks(f, rate, AbsorbBlocks(f, rate, Zero(), message + Padding(rate, suffix, |message|)), d);
  }

  // ------------------------------------------------ the public functions

  method Sha3_256(f: Permutation, data: seq<bv8>) returns (h: seq<bv8>)
    ensures h == SpongeOf(f, SHA3_256_RATE, 0x06, data, 32)
  {
    var sponge := new KeccakSponge(f, SHA3_256_RATE, 0x06);
    sponge.Absorb(data);
    h := sponge.Squeeze(32);
    BytewiseIsSponge(f, SHA3_256_RATE, 0x06, data, 32);
  }

  method DoubleSha3(f: Permutation, data: seq<bv8>) returns (h: seq<bv8>)
    ensures h == SpongeOf(f, SHA3_256_RATE, 0x06, SpongeOf(f, SHA3_256_RATE, 0x06, data, 32), 32)
  {
    var first := Sha3_256(f, data);
    h := Sha3_256(f, first);
  }

  method Shake256(f: Permutation, seed: seq<bv8>, outputLen: nat) returns (out: seq<bv8>)
    ensures out == SpongeOf(f, SHA3_256_RATE, 0x1F, seed, outputLen)
  {
    var sponge := new KeccakSponge(f, SHA3_256_RATE, 0x1F);
    sponge.Absorb(seed);
    out := sponge.Squeeze(outputLen);
    BytewiseIsSponge(f, SHA3_256_RATE, 0x1F, seed, outputLen);
  }

  /** The stand-in for BLAKE3 absorbs its prefix byte and the data in two calls. */
  method Blake3(f: Permutation, data: seq<bv8>) returns (h: seq<bv8>)
    ensures h == SpongeOf(f, SHA3_256_RATE, 0x06, [0xB3] + data, 32)
  {
    var sponge := new KeccakSponge(f, SHA3_256_RATE, 0x06);
    sponge.Absorb([0xB3]);
    sponge.Absorb(data);
    h := sponge.Squeeze(32);
    AbsorbInPieces(f, SHA3_256_RATE, Cursor(Zero(), 0), [0xB3], data);
    BytewiseIsSponge(f, SHA3_256_RATE, 0x06, [0xB3] + data, 32);
  }

  // ------------------------------------------------ the padding in bits

  /** The bits of a byte, lowest first, as FIPS 202 orders them. */
  function ByteBits(b: bv8): (bits: seq<bool>)
    ensures |bits| == 8
  {
    [b & 0x01 != 0, b & 0x02 != 0, b & 0x04 != 0, b & 0x08 != 0,
     b & 0x10 != 0, b & 0x20 != 0, b & 0x40 != 0, b & 0x80 != 0]
  }

  function BitsOf(bytes: seq<bv8>): (bits: seq<bool>)
    ensures |bits| == 8 * |bytes|
  {
    if bytes == [] then [] else ByteBits(bytes[0]) + BitsOf(bytes[1..])
  }

  function Zeros(n: nat): seq<bool> {
    seq(n, _ => false)
  }

  /** pad10*1(x, m) of section 5.1 of FIPS 202. */
  function Pad101(x: nat, m: nat): seq<bool>
    requires x > 0
  {
    [true] + Zeros((-(m as int) - 2) % x) + [true]
  }

  /** The suffix byte holds the domain bits and the first bit of the padding. */
  predicate IsSuffix(suffix: bv8, domain: seq<bool>) {
    |domain| <= 6 && ByteBits(suffix) == domain + [true] + Zeros(7 - |domain|)
  }

  /** SHA3 and SHAKE: the domain bits 01 and 1111. */
  lemma Suffixes()
    ensures IsSuffix(0x06, [false, true]) && IsSuffix(0x1F, [true, true, true, true])
  {
    assert ByteBits(0x06) == [false, true, true, false, false, false, false, false];
    assert ByteBits(0x1F) == [true, true, true, true, true, false, false, false];
  }

  lemma HighBit(b: bv8)
    requires b & 0x80 == 0
    ensures ByteBits(b ^ 0x80) == ByteBits(b)[..7] + [true]
  {
    assert (b ^ 0x80) & 0x01 == b & 0x01 && (b ^ 0x80) & 0x02 == b & 0x02 && (b ^ 0x80) & 0x04 == b & 0x04;
    assert (b ^ 0x80) & 0x08 == b & 0x08 && (b ^ 0x80) & 0x10 == b & 0x10 && (b ^ 0x80) & 0x20 == b & 0x20;
    assert (b ^ 0x80) & 0x40 == b & 0x40 && (b ^ 0x80) & 0x80 == 0x80;
  }

  lemma {:induction false} ZeroBits(n: nat)
    ensures BitsOf(seq(n, _ => 0)) == Zeros(8 * n)
  {
    if n > 0 {
      ZeroBits(n - 1);
      assert seq(n, _ => 0 as bv8)[1..] == seq(n - 1, _ => 0 as bv8);
      assert ByteBits(0) == Zeros(8);
    }
  }

  lemma {:induction false} BitsAppend(a: seq<bv8>, b: seq<bv8>)
    ensures BitsOf(a + b) == BitsOf(a) + BitsOf(b)
  {
    hide ByteBits;
    if a == [] {
      assert a + b == b;
      assert [] + BitsOf(b) == BitsOf(b);
    } else {
      BitsAppend(a[1..], b);
      assert (a + b)[1..] == a[1..] + b;
      Regroup(ByteBits(a[0]), BitsOf(a[1..]), BitsOf(b));
    }
  }

  lemma OneByte(b: bv8)
    ensures BitsOf([b]) == ByteBits(b)
  {
    assert [b][1..] == [];
  }

  /** How many zeros the padding of a whole number of bytes has. */
  lemma ZeroCount(rate: nat, n: nat, d: nat)
    requires rate > 0 && d <= 6
    ensures 8 * (rate - n % rate) - d - 2 == (-((8 * n + d) as int) - 2) % (8 * rate)
  {
    var q, t := n / rate, n % rate;
    assert n == rate * q + t;
    var j := 8 * (rate - t) - d - 2;
    assert -((8 * n + d) as int) - 2 == (-q - 1) * (8 * rate) + j;
    UniqueRemainder(-((8 * n + d) as int) - 2, 8 * rate, -q - 1, j);
  }

  /**
   The bytes that the sponge appends are, bit by bit, the domain bits and pad10*1 for the message with
   them: also when suffix and last bit share a byte.
   */
  lemma PaddingIsPad101(rate: nat, suffix: bv8, domain: seq<bool>, n: nat)
    requires rate > 0 && IsSuffix(suffix, domain)
    ensures BitsOf(Padding(rate, suffix, n)) == domain + Pad101(8 * rate, 8 * n + |domain|)
  {
    var q, d := rate - n % rate, |domain|;
    ZeroCount(rate, n, d);
    PaddingBits(rate, suffix, domain, n);
    hide IsSuffix, BitsOf, ByteBits, Zeros, Padding;
    Regroup(domain, [true], Zeros(8 * q - d - 2));
    Regroup(domain, [true] + Zeros(8 * q - d - 2), [true]);
  }

  lemma PaddingBits(rate: nat, suffix: bv8, domain: seq<bool>, n: nat)
    requires rate > 0 && IsSuffix(suffix, domain)
    ensures BitsOf(Padding(rate, suffix, n)) ==
            domain + [true] + Zeros(8 * (rate - n % rate) - |domain| - 2) + [true]
  {
    hide IsSuffix, BitsOf, ByteBits, Zeros;
    var q := rate - n % rate;
    if q == 1 {
      SharedByte(suffix, domain);
    } else {
      SeparateBytes(suffix, domain, q);
    }
  }

  lemma SharedByte(suffix: bv8, domain: seq<bool>)
    requires IsSuffix(suffix, domain)
    ensures BitsOf([suffix ^ 0x80]) == domain + [true] + Zeros(6 - |domain|) + [true]
  {
    hide BitsOf;
    var d := |domain|;
    assert ByteBits(suffix)[7] == false;
    HighBit(suffix);
    OneByte(suffix ^ 0x80);
    hide ByteBits;
    assert Zeros(7 - d)[..6 - d] == Zeros(6 - d);
    assert (domain + [true] + Zeros(7 - d))[..7] == domain + [true] + Zeros(6 - d);
  }

  lemma SeparateBytes(suffix: bv8, domain: seq<bool>, q: nat)
    requires IsSuffix(suffix, domain) && q >= 2
    ensures BitsOf([suffix] + seq(q - 2, _ => 0) + [0x80]) == domain + [true] + Zeros(8 * q - |domain| - 2) + [true]
  {
    hide ByteBits, BitsOf, Zeros;
    var z: seq<bv8> := seq(q - 2, _ => 0);
    ZeroBits(q - 2);
    LastBit();
    OneByte(suffix);
    OneByte(0x80);
    BitsAppend([suffix], z);
    BitsAppend([suffix] + z, [0x80]);
    ManyZeros(domain + [true], 7 - |domain|, 8 * (q - 2), 7);
  }

  lemma ManyZeros(front: seq<bool>, a: nat, b: nat, c: nat)
    ensures front + Zeros(a) + Zeros(b) + (Zeros(c) + [true]) == front + Zeros(a + b + c) + [true]
  {
    assert Zeros(a) + Zeros(b) + Zeros(c) == Zeros(a + b + c);
  }

  lemma LastBit()
    ensures ByteBits(0x80) == Zeros(7) + [true]
  {
    assert ByteBits(0x80) == [false, false, false, false, false, false, false, true];
  }
}
