/**
 The deterministic random number generator of src/crypto/hash.cpp: 64-bit words read from an
 expanding buffer, rejection sampling below a bound, and the proof that it is unbiased.
 */
module Rng {
  import opened Arith
  import opened Words
  import opened Bytes

  const BUFFER_BYTES := 1024

  type Buffer = b: seq<Byte> | |b| == BUFFER_BYTES witness seq(BUFFER_BYTES, _ => 0)

  lemma WordFits(bytes: seq<Byte>)
    requires |bytes| == 8
    ensures FromLE(bytes) < TWO_64
  {
    Widths();
  }

  /** Buffer number i of the stream; expansion hashes the new counter together with the old buffer. */
  function BufferAt(seeded: Buffer, expand: (nat, Buffer) -> Buffer, i: nat): Buffer {
    if i == 0 then seeded else expand(i % TWO_64, BufferAt(seeded, expand, i - 1))
  }

  /** Word number k of the stream: 128 words to a buffer. */
  function WordAt(seeded: Buffer, expand: (nat, Buffer) -> Buffer, k: nat): nat {
    FromLE(BufferAt(seeded, expand, k / 128)[8 * (k % 128)..8 * (k % 128) + 8])
  }

  /** The words below this value are rejected, (~bound + 1) % bound in 64-bit arithmetic. */
  function Threshold(bound: nat): (t: nat)
    requires 0 < bound < TWO_64
    ensures t == TWO_64 % bound
  {
    AddMultiple(TWO_64 - bound, bound, 1);
    (TWO_64 - bound) % bound
  }

  lemma CounterStep(i: nat)
    ensures (i % TWO_64 + 1) % TWO_64 == (i + 1) % TWO_64
  {
  }

  lemma QuotientOfWord(drawn: nat, i: nat)
    requires 0 <= drawn - 128 * i < 128
    ensures drawn / 128 == i && drawn % 128 == drawn - 128 * i
  {
  }

  class DeterministicRNG {
    const seeded: Buffer
    const expand: (nat, Buffer) -> Buffer
    var state: Buffer
    var position: nat
    var counter: nat
    ghost var drawn: nat  // how many words have been read

    /** A generator from which only 64-bit words have been read. */
    ghost predicate Valid()
      reads this
    {
      exists i: nat :: AtBuffer(i)
    }

    ghost predicate AtBuffer(i: nat)
      reads this
    {
      counter == i % TWO_64 && state == BufferAt(seeded, expand, i) && position <= BUFFER_BYTES &&
      position == 8 * (drawn - 128 * i)
    }

    constructor (shaken: Buffer, expansion: (nat, Buffer) -> Buffer)
      ensures Valid() && drawn == 0 && seeded == shaken && expand == expansion
    {
      seeded, expand, state := shaken, expansion, shaken;
      position, counter, drawn := 0, 0, 0;
      new;
      assert AtBuffer(0);
    }

    /** The words come out in the order of the stream. */
    method NextU64() returns (r: nat)
      requires Valid()
      modifies this
      ensures Valid() && drawn == old(drawn) + 1
      ensures r == WordAt(seeded, expand, old(drawn)) && r < TWO_64
    {
      hide FromLE, BufferAt;
      ghost var i: nat :| AtBuffer(i);
      if position + 8 > BUFFER_BYTES {
        ExpandState(i);
        i := i + 1;
      }
      QuotientOfWord(drawn, i);
      WordFits(state[position..position + 8]);
      r := FromLE(state[position..position + 8]);
      position := position + 8;
      drawn := drawn + 1;
      assert AtBuffer(i);
    }

    method ExpandState(ghost i: nat)
      requires AtBuffer(i) && position == BUFFER_BYTES
      modifies this`counter, this`state, this`position
      ensures AtBuffer(i + 1) && position == 0
    {
      CounterStep(i);
      counter := (counter + 1) % TWO_64;
      state := expand(counter, state);
      position := 0;
    }

    /**
     The rejection loop. It has no bound in the source; here it gives up after maxDraws rejected words,
     which is the only way it returns None.
     */
    method NextBounded(bound: nat, maxDraws: nat) returns (r: Option<nat>)
      requires Valid() && bound < TWO_64
      modifies this
      ensures Valid()
      ensures bound == 0 ==> r == Some(0) && drawn == old(drawn)
      ensures bound > 0 && r.Some? ==>
                drawn > old(drawn) && r.value == WordAt(seeded, expand, drawn - 1) % bound < bound &&
                WordAt(seeded, expand, drawn - 1) >= Threshold(bound) &&
                forall k :: old(drawn) <= k < drawn - 1 ==> WordAt(seeded, expand, k) < Threshold(bound)
      ensures bound > 0 && r.None? ==>
                forall k :: old(drawn) <= k < old(drawn) + maxDraws ==> WordAt(seeded, expand, k) < Threshold(bound)
    {
      hide WordAt, Threshold;
      if bound == 0 { return Some(0); }
      var threshold := Threshold(bound);
      for n := 0 to maxDraws
        invariant Valid() && drawn == old(drawn) + n
        invariant forall k :: old(drawn) <= k < drawn ==> WordAt(seeded, expand, k) < threshold
      {
        var w := NextU64();
        if w >= threshold { return Some(w % bound); }
      }
      return None;
    }
  }

  // ------------------------------------------------ no residue is favoured

  /** The accepted 64-bit words that give residue k. */
  ghost function AcceptedFor(bound: nat, k: nat): set<nat>
    requires 0 < bound < TWO_64
  {
    Residues(bound, k, Threshold(bound), TWO_64)
  }

  ghost function Residues(bound: nat, k: nat, lo: nat, hi: nat): set<nat>
    requires bound > 0
  {
    set r: nat | lo <= r < hi && r % bound == k
  }

  /** One residue class has one member in any run of bound consecutive numbers. */
  lemma OneResidue(bound: nat, k: nat, lo: nat) returns (x: nat)
    requires k < bound
    ensures lo <= x < lo + bound && x % bound == k
    ensures forall r: nat :: lo <= r < lo + bound && r % bound == k ==> r == x
  {
    var t := lo % bound;
    x := if t <= k then lo + (k - t) else lo + (bound - t + k);
    var q := lo / bound;
    assert lo == q * bound + t;
    if t <= k {
      UniqueRemainder(x, bound, q, k);
    } else {
      Distribute(q, -1, bound);
      UniqueRemainder(x, bound, q + 1, k);
    }
    forall r: nat | lo <= r < lo + bound && r % bound == k ensures r == x {
      SameResidueApart(r, x, bound);
    }
  }

  lemma SameResidueApart(a: nat, b: nat, bound: nat)
    requires bound > 0 && a % bound == b % bound && -(bound as int) < a - b < bound
    ensures a == b
  {
    var p, q := a / bound, b / bound;
    assert a == bound * p + a % bound && b == bound * q + b % bound;
    Distribute(p, q, bound);
    if p > q { MulAtLeast(p - q, bound); } else if q > p { Distribute(q, p, bound); MulAtLeast(q - p, bound); }
  }

  /** A run of m whole periods holds m members of every residue class. */
  lemma {:induction false} PeriodsHoldAll(bound: nat, k: nat, lo: nat, m: nat)
    requires k < bound
    ensures |Residues(bound, k, lo, lo + m * bound)| == m
  {
    if m == 0 {
      assert Residues(bound, k, lo, lo + 0 * bound) == {};
    } else {
      Distribute(m, 1, bound);
      var hi := lo + (m - 1) * bound;
      PeriodsHoldAll(bound, k, lo, m - 1);
      var x := OneResidue(bound, k, hi);
      MulNonNegative(m - 1, bound);
      assert Residues(bound, k, lo, lo + m * bound) == Residues(bound, k, lo, hi) + {x};
    }
  }

  lemma MulNonNegative(a: nat, b: nat)
    ensures a * b >= 0
  {
  }

  /** Unbiased: every residue below the bound is hit by the same number of accepted words. */
  lemma Unbiased(bound: nat, k: nat)
    requires k < bound < TWO_64
    ensures |AcceptedFor(bound, k)| == (TWO_64 - Threshold(bound)) / bound
  {
    var t := Threshold(bound);
    var m := TWO_64 / bound;
    assert TWO_64 == bound * m + t;
    UniqueRemainder(TWO_64 - t, bound, m, 0);
    PeriodsHoldAll(bound, k, t, m);
    assert t + m * bound == TWO_64;
  }
}
