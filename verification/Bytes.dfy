/** Byte strings: little-endian numbers, records of fixed-width fields, and packed bits. */
module Bytes {
  import opened Arith
  import opened Words

  type Byte = x: nat | x < 256
  type Hash = h: seq<Byte> | |h| == 32 witness seq(32, _ => 0)
  type U16 = x: nat | x < TWO_16
  type U32 = x: nat | x < TWO_32
  type U64 = x: nat | x < TWO_64

  function ZeroHash(): Hash {
    seq(32, _ => 0)
  }

  // ------------------------------------------------ little-endian numbers

  function Pow256(k: nat): (p: nat)
    ensures p > 0
  {
    if k == 0 then 1 else 256 * Pow256(k - 1)
  }

  function ToLE(n: nat, k: nat): (b: seq<Byte>)
    ensures |b| == k
  {
    if k == 0 then [] else [n % 256] + ToLE(n / 256, k - 1)
  }

  function FromLE(b: seq<Byte>): (n: nat)
    ensures n < Pow256(|b|)
  {
    if b == [] then 0 else b[0] + 256 * FromLE(b[1..])
  }

  lemma {:induction false} ReadBack(n: nat, k: nat)
    requires n < Pow256(k)
    ensures FromLE(ToLE(n, k)) == n
  {
    if k > 0 {
      ReadBack(n / 256, k - 1);
      assert ToLE(n, k)[1..] == ToLE(n / 256, k - 1);
    }
  }

  lemma {:induction false} WriteBack(b: seq<Byte>)
    ensures ToLE(FromLE(b), |b|) == b
  {
    if b != [] {
      WriteBack(b[1..]);
      assert FromLE(b) % 256 == b[0] && FromLE(b) / 256 == FromLE(b[1..]);
    }
  }

  /** Only the low bytes are written. */
  lemma {:induction false} LowBytes(n: nat, q: nat, k: nat)
    ensures ToLE(n + Pow256(k) * q, k) == ToLE(n, k)
  {
    if k > 0 {
      var p := Pow256(k - 1);
      Scaled(p, q);
      LowByte(n, p * q);
      LowBytes(n / 256, q, k - 1);
    }
  }

  lemma Scaled(p: nat, q: nat)
    ensures 256 * p * q == 256 * (p * q) && p * q >= 0
  {
  }

  lemma LowByte(n: nat, m: nat)
    ensures (n + 256 * m) % 256 == n % 256 && (n + 256 * m) / 256 == n / 256 + m
  {
  }

  lemma Widths()
    ensures Pow256(2) == TWO_16 && Pow256(4) == TWO_32 && Pow256(8) == TWO_64
  {
    assert Pow256(4) == 256 * (256 * (256 * Pow256(1)));
    assert Pow256(8) == 256 * (256 * (256 * (256 * Pow256(4))));
  }

  // ------------------------------------------------ records of fields

  function Flatten(fields: seq<seq<Byte>>): seq<Byte> {
    if fields == [] then [] else fields[0] + Flatten(fields[1..])
  }

  function Total(widths: seq<nat>): nat {
    if widths == [] then 0 else widths[0] + Total(widths[1..])
  }

  /** The fields of the given widths at the front of the data. */
  function Chop(data: seq<Byte>, widths: seq<nat>): (fields: seq<seq<Byte>>)
    requires |data| >= Total(widths)
    ensures |fields| == |widths| && forall i :: 0 <= i < |fields| ==> |fields[i]| == widths[i]
    decreases |widths|
  {
    if widths == [] then [] else [data[..widths[0]]] + Chop(data[widths[0]..], widths[1..])
  }

  ghost predicate HasWidths(fields: seq<seq<Byte>>, widths: seq<nat>) {
    |fields| == |widths| && forall i :: 0 <= i < |fields| ==> |fields[i]| == widths[i]
  }

  lemma {:induction false} ChopFlattened(fields: seq<seq<Byte>>, widths: seq<nat>, rest: seq<Byte>)
    requires HasWidths(fields, widths)
    ensures |Flatten(fields)| == Total(widths)
    ensures Chop(Flatten(fields) + rest, widths) == fields
  {
    if fields != [] {
      ChopFlattened(fields[1..], widths[1..], rest);
      var data, tail := Flatten(fields) + rest, Flatten(fields[1..]) + rest;
      assert data == fields[0] + tail;
      assert data[..widths[0]] == fields[0] && data[widths[0]..] == tail;
      assert Chop(data, widths) == [fields[0]] + Chop(tail, widths[1..]);
    }
  }

  lemma {:induction false} FlattenChopped(data: seq<Byte>, widths: seq<nat>)
    requires |data| >= Total(widths)
    ensures Flatten(Chop(data, widths)) == data[..Total(widths)]
    decreases |widths|
  {
    if widths != [] {
      var w := widths[0];
      FlattenChopped(data[w..], widths[1..]);
      assert Chop(data, widths)[1..] == Chop(data[w..], widths[1..]);
      assert data[..w] + data[w..][..Total(widths[1..])] == data[..Total(widths)];
    }
  }

  // ------------------------------------------------ packed bits

  function Pow2(t: nat): (p: nat)
    requires t < 8
    ensures p > 0
  {
    match t
    case 0 => 1
    case 1 => 2
    case 2 => 4
    case 3 => 8
    case 4 => 16
    case 5 => 32
    case 6 => 64
    case 7 => 128
  }

  /** Bit t of a byte: (x >> t) & 1. */
  function BitOf(x: Byte, t: nat): bool
    requires t < 8
  {
    x / Pow2(t) % 2 == 1
  }

  function Digit(x: Byte, t: nat): nat
    requires t < 8
  {
    x / Pow2(t) % 2
  }

  /** The byte with the given binary digits. */
  function FromDigits(d: seq<nat>): nat
    requires |d| == 8
  {
    d[0] + 2 * d[1] + 4 * d[2] + 8 * d[3] + 16 * d[4] + 32 * d[5] + 64 * d[6] + 128 * d[7]
  }

  lemma DigitsOf(x: Byte)
    ensures x == FromDigits(seq(8, t requires 0 <= t < 8 => Digit(x, t)))
  {
    Halve(x, 1);
    Halve(x, 2);
    Halve(x, 4);
    Halve(x, 8);
    assert x == Digit(x, 0) + 2 * Digit(x, 1) + 4 * Digit(x, 2) + 8 * Digit(x, 3) + 16 * (x / 16);
    UpperDigits(x);
  }

  lemma UpperDigits(x: Byte)
    ensures x / 16 == Digit(x, 4) + 2 * Digit(x, 5) + 4 * Digit(x, 6) + 8 * Digit(x, 7)
  {
    Halve(x, 16);
    Halve(x, 32);
    Halve(x, 64);
    assert x / 128 < 2;
  }

  lemma Halve(x: nat, p: nat)
    requires p > 0
    ensures x / p == 2 * (x / (2 * p)) + x / p % 2
  {
    var q, r, t := x / p / 2, x / p % 2, x % p;
    assert x == p * (2 * q + r) + t;
    assert x == q * (2 * p) + (p * r + t);
    assert p * r + t < 2 * p by { if r == 0 { assert p * r == 0; } else { assert r == 1 && p * r == p; } }
    assert 0 <= p * r + t by { if r == 0 { assert p * r == 0; } else { assert p * r == p; } }
    UniqueRemainder(x, 2 * p, q, p * r + t);
  }

  lemma DigitAt(d: seq<nat>, t: nat)
    requires |d| == 8 && (forall i :: 0 <= i < 8 ==> d[i] <= 1) && t < 8
    ensures FromDigits(d) < 256 && Digit(FromDigits(d), t) == d[t]
  {
    if t < 4 { LowDigitAt(d, t); } else { HighDigitAt(d, t); }
  }

  lemma LowDigitAt(d: seq<nat>, t: nat)
    requires |d| == 8 && (forall i :: 0 <= i < 8 ==> d[i] <= 1) && t < 4
    ensures FromDigits(d) < 256 && FromDigits(d) / Pow2(t) % 2 == d[t]
  {
    var upper := d[4] + 2 * d[5] + 4 * d[6] + 8 * d[7];
    match t
    case 0 => Peel(1, 0, d[0], d[1] + 2 * d[2] + 4 * d[3] + 8 * upper);
    case 1 => Peel(2, d[0], d[1], d[2] + 2 * d[3] + 4 * upper);
    case 2 => Peel(4, d[0] + 2 * d[1], d[2], d[3] + 2 * upper);
    case 3 => Peel(8, d[0] + 2 * d[1] + 4 * d[2], d[3], upper);
  }

  lemma HighDigitAt(d: seq<nat>, t: nat)
    requires |d| == 8 && (forall i :: 0 <= i < 8 ==> d[i] <= 1) && 4 <= t < 8
    ensures FromDigits(d) < 256 && FromDigits(d) / Pow2(t) % 2 == d[t]
  {
    var lower := d[0] + 2 * d[1] + 4 * d[2] + 8 * d[3];
    match t
    case 4 => Peel(16, lower, d[4], d[5] + 2 * d[6] + 4 * d[7]);
    case 5 => Peel(32, lower + 16 * d[4], d[5], d[6] + 2 * d[7]);
    case 6 => Peel(64, lower + 16 * d[4] + 32 * d[5], d[6], d[7]);
    case 7 => Peel(128, lower + 16 * d[4] + 32 * d[5] + 64 * d[6], d[7], 0);
  }

  lemma Peel(p: nat, lo: nat, b: nat, hi: nat)
    requires lo < p && b <= 1
    ensures (lo + p * (b + 2 * hi)) / p % 2 == b
  {
    UniqueRemainder(lo + p * (b + 2 * hi), p, b + 2 * hi, lo);
  }

  /** x | (1 << t). */
  function SetBit(x: Byte, t: nat): (r: Byte)
    requires t < 8
  {
    if BitOf(x, t) then x else
      SetBitFits(x, t);
      x + Pow2(t)
  }

  lemma SetBitFits(x: Byte, t: nat)
    requires t < 8 && !BitOf(x, t)
    ensures x + Pow2(t) < 256
    ensures forall u :: 0 <= u < 8 ==> (BitOf(x + Pow2(t), u) <==> u == t || BitOf(x, u))
  {
    var d := seq(8, u requires 0 <= u < 8 => Digit(x, u));
    DigitsOf(x);
    assert d[t] == 0;
    DigitAdded(d, t);
    hide FromDigits, Pow2, Digit;
    DigitsBack(d[t := 1]);
  }

  lemma DigitAdded(d: seq<nat>, t: nat)
    requires |d| == 8 && t < 8 && d[t] == 0
    ensures FromDigits(d[t := 1]) == FromDigits(d) + Pow2(t)
  {
  }

  lemma DigitsBack(d: seq<nat>)
    requires |d| == 8 && forall i :: 0 <= i < 8 ==> d[i] <= 1
    ensures FromDigits(d) < 256 && forall u :: 0 <= u < 8 ==> Digit(FromDigits(d), u) == d[u]
  {
    hide FromDigits, Digit;
    DigitAt(d, 0);
    forall u | 0 <= u < 8 ensures Digit(FromDigits(d), u) == d[u] {
      DigitAt(d, u);
    }
  }

  lemma SetBitSetsOne(x: Byte, t: nat)
    requires t < 8
    ensures forall u :: 0 <= u < 8 ==> (BitOf(SetBit(x, t), u) <==> u == t || BitOf(x, u))
  {
    if !BitOf(x, t) { SetBitFits(x, t); }
  }

  /** Bytes are determined by their bits. */
  lemma SameBits(x: Byte, y: Byte)
    requires forall t :: 0 <= t < 8 ==> (BitOf(x, t) <==> BitOf(y, t))
    ensures x == y
  {
    DigitsOf(x);
    DigitsOf(y);
    forall t | 0 <= t < 8 ensures Digit(x, t) == Digit(y, t) {
      assert BitOf(x, t) <==> BitOf(y, t);
    }
    assert seq(8, t requires 0 <= t < 8 => Digit(x, t)) == seq(8, t requires 0 <= t < 8 => Digit(y, t));
  }

  // ------------------------------------------------ witness bits

  /** Bit i of a packed string. */
  function BitAt(b: seq<Byte>, i: nat): bool
    requires i / 8 < |b|
  {
    BitOf(b[i / 8], i % 8)
  }

  /** The first n packed bits. */
  function Unpacked(b: seq<Byte>, n: nat): (bits: seq<bool>)
    requires n <= 8 * |b|
    ensures |bits| == n
  {
    seq(n, i requires 0 <= i < n => BitAt(b, i))
  }

  ghost predicate PacksTo(bits: seq<bool>, b: seq<Byte>) {
    |b| == (|bits| + 7) / 8 &&
    forall i :: 0 <= i < 8 * |b| ==> (BitAt(b, i) <==> i < |bits| && bits[i])
  }

  /** One byte per eight bits, lowest bit first, the rest of the last byte zero. */
  function Packed(bits: seq<bool>): (b: seq<Byte>)
    ensures |b| == (|bits| + 7) / 8
  {
    seq((|bits| + 7) / 8, k requires 0 <= k < (|bits| + 7) / 8 => PackedByte(bits, k))
  }

  function PackedByte(bits: seq<bool>, k: nat): Byte {
    var d := PackedDigits(bits, k);
    DigitAt(d, 0);
    FromDigits(d)
  }

  function PackedDigits(bits: seq<bool>, k: nat): (d: seq<nat>)
    ensures |d| == 8 && forall t :: 0 <= t < 8 ==> d[t] == if 8 * k + t < |bits| && bits[8 * k + t] then 1 else 0
  {
    seq(8, t requires 0 <= t < 8 => if 8 * k + t < |bits| && bits[8 * k + t] then 1 else 0)
  }

  lemma PackedPacks(bits: seq<bool>)
    ensures PacksTo(bits, Packed(bits))
  {
    var b := Packed(bits);
    forall i | 0 <= i < 8 * |b| ensures BitAt(b, i) <==> i < |bits| && bits[i] {
      var k, t := i / 8, i % 8;
      DigitAt(PackedDigits(bits, k), t);
      assert b[k] == PackedByte(bits, k);
    }
  }

  /** The packing loop: one byte per eight bits, lowest bit first, the rest of the last byte zero. */
  method PackBits(bits: seq<bool>) returns (b: seq<Byte>)
    ensures b == Packed(bits)
  {
    PackedPacks(bits);
    b := seq((|bits| + 7) / 8, _ => 0);
    for i := 0 to |bits|
      invariant |b| == (|bits| + 7) / 8
      invariant forall k :: 0 <= k < 8 * |b| ==> (BitAt(b, k) <==> k < i && bits[k])
    {
      if bits[i] {
        SetBitSetsOne(b[i / 8], i % 8);
        ghost var before := b;
        b := b[i / 8 := SetBit(b[i / 8], i % 8)];
        forall k | 0 <= k < 8 * |b|
          ensures BitAt(b, k) <==> BitAt(before, k) || k == i
        {
          assert k / 8 == i / 8 && k % 8 == i % 8 ==> k == i;
        }
      }
    }
    PackingUnique(bits, b, Packed(bits));
  }

  method UnpackBits(b: seq<Byte>, n: nat) returns (bits: seq<bool>)
    requires n <= 8 * |b|
    ensures bits == Unpacked(b, n)
  {
    bits := [];
    for i := 0 to n
      invariant bits == Unpacked(b, n)[..i]
    {
      bits := bits + [BitOf(b[i / 8], i % 8)];
    }
  }

  /** Packing determines the bytes. */
  lemma PackingUnique(bits: seq<bool>, b: seq<Byte>, b': seq<Byte>)
    requires PacksTo(bits, b) && PacksTo(bits, b')
    ensures b == b'
  {
    forall k | 0 <= k < |b| ensures b[k] == b'[k] {
      forall t | 0 <= t < 8 ensures BitOf(b[k], t) <==> BitOf(b'[k], t) {
        assert (8 * k + t) / 8 == k && (8 * k + t) % 8 == t;
        assert BitAt(b, 8 * k + t) <==> BitAt(b', 8 * k + t);
      }
      SameBits(b[k], b'[k]);
    }
  }

  lemma UnpackPacked(bits: seq<bool>)
    ensures Unpacked(Packed(bits), |bits|) == bits
  {
    PackedPacks(bits);
  }

  /** The bits after the first n are zero. */
  ghost predicate ZeroPadded(b: seq<Byte>, n: nat) {
    forall i :: n <= i < 8 * |b| ==> !BitAt(b, i)
  }

  lemma PackUnpacked(b: seq<Byte>, n: nat)
    requires |b| == (n + 7) / 8
    ensures Packed(Unpacked(b, n)) == b <==> ZeroPadded(b, n)
  {
    var bits := Unpacked(b, n);
    PackedPacks(bits);
    if ZeroPadded(b, n) { PackingUnique(bits, Packed(bits), b); }
  }
}
