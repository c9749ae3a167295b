/**
 The Keccak sponge of src/crypto/hash.cpp, which works byte by byte on one state array, and the
 block-wise construction SPONGE[f, pad10*1, r] of sections 4 and 5.1 of FIPS 202.
 The permutation is a parameter: nothing here depends on what it computes.
 */
module Sponge {

  const STATE_BYTES := 200
  const SHA3_256_RATE := 136

  type Lanes = s: seq<bv8> | |s| == STATE_BYTES witness seq(STATE_BYTES, _ => 0)
  type Permutation = Lanes -> Lanes

  function Zero(): Lanes {
    seq(STATE_BYTES, _ => 0)
  }

  // ------------------------------------------------ the construction of FIPS 202

  /** The first bytes of the state xored with a block. */
  function XorBlock(s: Lanes, block: seq<bv8>): (r: Lanes)
    requires |block| <= STATE_BYTES
    ensures forall i :: 0 <= i < STATE_BYTES ==> r[i] == if i < |block| then s[i] ^ block[i] else s[i]
  {
    seq(STATE_BYTES, i requires 0 <= i < STATE_BYTES => if i < |block| then s[i] ^ block[i] else s[i])
  }

  /** Domain suffix and pad10*1 for a message of n bytes; the two share a byte when one is left. */
  function Padding(rate: nat, suffix: bv8, n: nat): (p: seq<bv8>)
    requires rate > 0
    ensures |p| == rate - n % rate
  {
    var q := rate - n % rate;
    if q == 1 then [suffix ^ 0x80] else [suffix] + seq(q - 2, _ => 0) + [0x80]
  }

  function AbsorbBlocks(f: Permutation, rate: nat, s: Lanes, p: seq<bv8>): Lanes
    requires 0 < rate <= STATE_BYTES
    decreases |p|
  {
    if |p| < rate then s else AbsorbBlocks(f, rate, f(XorBlock(s, p[..rate])), p[rate..])
  }

  function SqueezeBlocks(f: Permutation, rate: nat, s: Lanes, d: nat): (z: seq<bv8>)
    requires 0 < rate <= STATE_BYTES
    ensures |z| == d
    decreases d
  {
    if d <= rate then s[..d] else s[..rate] + SqueezeBlocks(f, rate, f(s), d - rate)
  }

  /** SPONGE[f, pad10*1, rate](message with its domain suffix, d bytes). */
  function SpongeOf(f: Permutation, rate: nat, suffix: bv8, message: seq<bv8>, d: nat): (z: seq<bv8>)
    requires 0 < rate <= STATE_BYTES
    ensures |z| == d
  {
    SqueezeBlocks(f, rate, AbsorbBlocks(f, rate, Zero(), message + Padding(rate, suffix, |message|)), d)
  }

  // ------------------------------------------------ the byte-wise machine

  /** State and buffer position. */
  datatype Cursor = Cursor(s: Lanes, pos: nat)

  function Mixed(s: Lanes, i: nat, b: bv8): Lanes
    requires i < STATE_BYTES
  {
    s[i := s[i] ^ b]
  }

  function AbsorbByte(f: Permutation, rate: nat, c: Cursor, b: bv8): (r: Cursor)
    requires c.pos < rate <= STATE_BYTES
    ensures r.pos < rate
  {
    var s := Mixed(c.s, c.pos, b);
    if c.pos + 1 == rate then Cursor(f(s), 0) else Cursor(s, c.pos + 1)
  }

  function AbsorbBytes(f: Permutation, rate: nat, c: Cursor, data: seq<bv8>): (r: Cursor)
    requires c.pos < rate <= STATE_BYTES
    ensures r.pos < rate
  {
    if data == [] then c else
      AbsorbByte(f, rate, AbsorbBytes(f, rate, c, data[..|data| - 1]), data[|data| - 1])
  }

  /** The state after the suffix and the final bit have been entered and the state permuted. */
  function Finalized(f: Permutation, rate: nat, suffix: bv8, c: Cursor): Lanes
    requires c.pos < rate <= STATE_BYTES
  {
    f(Mixed(Mixed(c.s, c.pos, suffix), rate - 1, 0x80))
  }

  /** The bytes a squeeze returns from a cursor, and the cursor it leaves. */
  function SqueezeBytes(f: Permutation, rate: nat, c: Cursor, len: nat): (r: (seq<bv8>, Cursor))
    requires c.pos <= rate && 0 < rate <= STATE_BYTES
    ensures |r.0| == len && r.1.pos <= rate
    decreases len, c.pos
  {
    if len == 0 then ([], c)
    else if c.pos == rate then SqueezeBytes(f, rate, Cursor(f(c.s), 0), len)
    else
      var chunk := if len < rate - c.pos then len else rate - c.pos;
      var rest := SqueezeBytes(f, rate, Cursor(c.s, c.pos + chunk), len - chunk);
      (c.s[c.pos..c.pos + chunk] + rest.0, rest.1)
  }

  lemma SqueezeNothing(f: Permutation, rate: nat, c: Cursor)
    requires c.pos <= rate && 0 < rate <= STATE_BYTES
    ensures SqueezeBytes(f, rate, c, 0) == ([], c)
  {
  }

  class KeccakSponge {
    const f: Permutation
    const rate: nat
    const suffix: bv8
    var state: array<bv8>
    var bufPos: nat
    var finalized: bool

    ghost predicate Valid()
      reads this, state
    {
      state.Length == STATE_BYTES && 0 < rate <= STATE_BYTES && if finalized then bufPos <= rate else bufPos < rate
    }

    ghost function At(): Cursor
      reads this, state
      requires state.Length == STATE_BYTES
    {
      Cursor(state[..], bufPos)
    }

    constructor (perm: Permutation, rateBytes: nat, domain: bv8)
      requires 0 < rateBytes <= STATE_BYTES
      ensures Valid() && fresh(state) && !finalized && At() == Cursor(Zero(), 0)
      ensures f == perm && rate == rateBytes && suffix == domain
    {
      f, rate, suffix := perm, rateBytes, domain;
      state := new bv8[STATE_BYTES](_ => 0);
      bufPos, finalized := 0, false;
      new;
      assert state[..] == Zero();
    }

    method XorAt(i: nat, b: bv8)
      requires state.Length == STATE_BYTES && i < STATE_BYTES
      modifies state
      ensures state[..] == Mixed(old(state[..]), i, b)
    {
      state[i] := state[i] ^ b;
    }

    method Absorb(data: seq<bv8>)
      requires Valid() && !finalized
      modifies this`bufPos, state
      ensures Valid() && !finalized && state == old(state)
      ensures At() == AbsorbBytes(f, rate, old(At()), data)
    {
      for i := 0 to |data|
        invariant Valid() && !finalized && state == old(state)
        invariant At() == AbsorbBytes(f, rate, old(At()), data[..i])
      {
        hide Mixed;
        assert data[..i + 1][..|data[..i + 1]| - 1] == data[..i];
        XorAt(bufPos, data[i]);
        bufPos := bufPos + 1;
        if bufPos == rate {
          Permute();
          bufPos := 0;
        }
      }
      assert data[..|data|] == data;
    }

    method Permute()
      requires state.Length == STATE_BYTES
      modifies state
      ensures state[..] == f(old(state[..]))
    {
      var next := f(state[..]);
      forall i | 0 <= i < STATE_BYTES { state[i] := next[i]; }
      assert state[..] == next;
    }

    method Finalize()
      requires Valid() && !finalized
      modifies this`bufPos, this`finalized, state
      ensures Valid() && finalized && state == old(state)
      ensures At() == Cursor(Finalized(f, rate, suffix, old(At())), 0)
    {
      hide Mixed;
      XorAt(bufPos, suffix);
      XorAt(rate - 1, 0x80);
      Permute();
      bufPos := 0;
      finalized := true;
    }

    /** As many bytes as the rest of the current block holds, but no more than wanted. */
    method TakeChunk(want: nat) returns (part: seq<bv8>)
      requires Valid() && finalized && want > 0
      modifies this`bufPos, state
      ensures Valid() && state == old(state) && 0 < |part| <= want
      ensures var rest := SqueezeBytes(f, rate, At(), want - |part|);
              SqueezeBytes(f, rate, old(At()), want) == (part + rest.0, rest.1)
    {
      if bufPos == rate {
        Permute();
        bufPos := 0;
      }
      var chunk := if want < rate - bufPos then want else rate - bufPos;
      part := state[bufPos..bufPos + chunk];
      bufPos := bufPos + chunk;
    }

    method Squeeze(len: nat) returns (out: seq<bv8>)
      requires Valid()
      modifies this`bufPos, this`finalized, state
      ensures Valid() && finalized && state == old(state)
      ensures var from := if old(finalized) then old(At()) else Cursor(Finalized(f, rate, suffix, old(At())), 0);
              (out, At()) == SqueezeBytes(f, rate, from, len)
    {
      hide Finalized, SqueezeBytes;
      if !finalized { Finalize(); }
      out := CopyOut(len);
    }

    method CopyOut(len: nat) returns (out: seq<bv8>)
      requires Valid() && finalized
      modifies this`bufPos, state
      ensures Valid() && state == old(state)
      ensures (out, At()) == SqueezeBytes(f, rate, old(At()), len)
    {
      hide SqueezeBytes;
      out := [];
      ghost var rest := SqueezeBytes(f, rate, At(), len);
      assert out + rest.0 == rest.0;
      while |out| < len
        invariant Valid() && state == old(state) && |out| <= len
        invariant rest == SqueezeBytes(f, rate, At(), len - |out|)
        invariant SqueezeBytes(f, rate, old(At()), len) == (out + rest.0, rest.1)
      {
        var part := TakeChunk(len - |out|);
        rest := SqueezeBytes(f, rate, At(), len - |out + part|);
        assert out + (part + rest.0) == out + part + rest.0;
        out := out + part;
      }
      SqueezeNothing(f, rate, At());
      assert out + [] == out;
    }
  }
}
