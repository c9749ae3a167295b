/**
 The Fisher-Yates loop of src/consensus/ponw_engine.cpp, and the proof that it maps the draw
 sequences one-to-one onto the permutations; and the random stream that the draws come from.
 */
module Shuffling {
  import opened Counting

  /** A draw stream is arbitrary: any value below the bound may come next. */
  method AnyDraw(bound: nat) returns (r: nat)
    ensures if bound == 0 then r == 0 else r < bound
  {
    if bound == 0 { return 0; }
    r :| 0 <= r < bound;
  }

  /** draws[i] is the position drawn for step i; step 0 has no choice. */
  predicate ValidDraws(draws: seq<nat>) {
    forall i :: 0 <= i < |draws| ==> draws[i] <= i
  }

  function Exchange(a: seq<nat>, i: nat, j: nat): (r: seq<nat>)
    requires i < |a| && j < |a|
    ensures |r| == |a| && r[i] == a[j] && r[j] == a[i]
    ensures forall k :: 0 <= k < |a| && k != i && k != j ==> r[k] == a[k]
  {
    a[i := a[j]][j := a[i]]
  }

  lemma ExchangePermutes(a: seq<nat>, i: nat, j: nat)
    requires i < |a| && j < |a|
    ensures multiset(Exchange(a, i, j)) == multiset(a)
  {
  }

  /** The result of steps n - 1 down to 1. */
  function Shuffle(a: seq<nat>, n: nat, draws: seq<nat>): (r: seq<nat>)
    requires n <= |a| && n <= |draws| && ValidDraws(draws)
    ensures |r| == |a|
    decreases n
  {
    if n <= 1 then a else Shuffle(Exchange(a, n - 1, draws[n - 1]), n - 1, draws)
  }

  /** Only the first n positions are rearranged. */
  lemma {:induction false} ShufflePermutes(a: seq<nat>, n: nat, draws: seq<nat>)
    requires n <= |a| && n <= |draws| && ValidDraws(draws)
    ensures multiset(Shuffle(a, n, draws)) == multiset(a)
    ensures forall k :: n <= k < |a| ==> Shuffle(a, n, draws)[k] == a[k]
    decreases n
  {
    if n > 1 {
      var b := Exchange(a, n - 1, draws[n - 1]);
      ExchangePermutes(a, n - 1, draws[n - 1]);
      ShufflePermutes(b, n - 1, draws);
    }
  }

  /** Different draws give different permutations. */
  lemma {:induction false} ShuffleInjective(a: seq<nat>, n: nat, draws: seq<nat>, draws': seq<nat>)
    requires Distinct(a) && n <= |a| && n <= |draws| && n <= |draws'| && ValidDraws(draws) && ValidDraws(draws')
    requires Shuffle(a, n, draws) == Shuffle(a, n, draws')
    ensures forall i :: 1 <= i < n ==> draws[i] == draws'[i]
    decreases n
  {
    if n > 1 {
      UnfoldShuffle(a, n, draws);
      UnfoldShuffle(a, n, draws');
      hide Distinct, Exchange, Shuffle;
      LastShuffled(a, n, draws);
      LastShuffled(a, n, draws');
      SameValueSamePlace(a, draws[n - 1], draws'[n - 1]);
      ExchangeDistinct(a, n - 1, draws[n - 1]);
      ShuffleInjective(Exchange(a, n - 1, draws[n - 1]), n - 1, draws, draws');
    }
  }

  /** The first step settles the last position. */
  lemma LastShuffled(a: seq<nat>, n: nat, draws: seq<nat>)
    requires 0 < n <= |a| && n <= |draws| && ValidDraws(draws)
    ensures Shuffle(a, n, draws)[n - 1] == a[draws[n - 1]]
  {
    var b := Exchange(a, n - 1, draws[n - 1]);
    UnfoldShuffle(a, n, draws);
    hide Shuffle;
    ShufflePermutes(b, n - 1, draws);
  }

  lemma SameValueSamePlace(a: seq<nat>, i: nat, j: nat)
    requires Distinct(a) && i < |a| && j < |a| && a[i] == a[j]
    ensures i == j
  {
  }

  lemma ExchangeDistinct(a: seq<nat>, i: nat, j: nat)
    requires Distinct(a) && i < |a| && j < |a|
    ensures Distinct(Exchange(a, i, j))
  {
  }

  /** Every rearrangement of the first n positions comes from some draws. */
  lemma {:induction false} ShuffleSurjective(a: seq<nat>, n: nat, p: seq<nat>) returns (draws: seq<nat>)
    requires n <= |a| && |p| == |a| && multiset(p) == multiset(a)
    requires forall k :: n <= k < |a| ==> p[k] == a[k]
    ensures |draws| == n && ValidDraws(draws) && Shuffle(a, n, draws) == p
    decreases n
  {
    if n == 0 {
      assert a == p;
      return [];
    }
    hide Shuffle, Exchange;
    var j := PickLast(a, p, n);
    var rest := ShuffleSurjective(Exchange(a, n - 1, j), n - 1, p);
    draws := rest + [j];
    DrawFirst(a, n, j, rest);
  }

  /** One more draw before the others. */
  lemma DrawFirst(a: seq<nat>, n: nat, j: nat, rest: seq<nat>)
    requires j < n <= |a| && |rest| == n - 1 && ValidDraws(rest)
    ensures ValidDraws(rest + [j]) && Shuffle(a, n, rest + [j]) == Shuffle(Exchange(a, n - 1, j), n - 1, rest)
  {
    hide Shuffle, Exchange;
    var draws := rest + [j];
    ShuffleIgnores(Exchange(a, n - 1, j), n - 1, rest, draws);
    UnfoldShuffle(a, n, draws);
  }

  /** A draw that brings the right value to the last free position. */
  lemma PickLast(a: seq<nat>, p: seq<nat>, n: nat) returns (j: nat)
    requires 0 < n <= |a| && |p| == |a| && multiset(p) == multiset(a)
    requires forall k :: n <= k < |a| ==> p[k] == a[k]
    ensures j < n && multiset(p) == multiset(Exchange(a, n - 1, j))
    ensures forall k :: n - 1 <= k < |a| ==> p[k] == Exchange(a, n - 1, j)[k]
  {
    j := FindInPrefix(a, p, n);
    ExchangePermutes(a, n - 1, j);
  }

  lemma UnfoldShuffle(a: seq<nat>, n: nat, draws: seq<nat>)
    requires 0 < n <= |a| && n <= |draws| && ValidDraws(draws)
    ensures Shuffle(a, n, draws) == Shuffle(Exchange(a, n - 1, draws[n - 1]), n - 1, draws)
  {
  }

  /** The value that must end up at the last free position is still among the first n. */
  lemma FindInPrefix(a: seq<nat>, p: seq<nat>, n: nat) returns (j: nat)
    requires 0 < n <= |a| && |p| == |a| && multiset(p) == multiset(a)
    requires forall k :: n <= k < |a| ==> p[k] == a[k]
    ensures j < n && a[j] == p[n - 1]
  {
    assert a[n..] == p[n..];
    SamePrefix(a[..n], p[..n], a[n..]);
    assert a == a[..n] + a[n..] && p == p[..n] + a[n..];
    assert p[..n][n - 1] in multiset(p[..n]);
    j :| 0 <= j < n && a[..n][j] == p[n - 1];
  }

  lemma SamePrefix(x: seq<nat>, y: seq<nat>, rest: seq<nat>)
    ensures multiset(x + rest) == multiset(y + rest) ==> multiset(x) == multiset(y)
  {
    assert multiset(x) == multiset(x + rest) - multiset(rest);
    assert multiset(y) == multiset(y + rest) - multiset(rest);
  }

  /** Draws past n are not looked at. */
  lemma {:induction false} ShuffleIgnores(a: seq<nat>, n: nat, draws: seq<nat>, draws': seq<nat>)
    requires n <= |a| && n <= |draws| && n <= |draws'| && ValidDraws(draws) && ValidDraws(draws')
    requires forall i :: 0 <= i < n ==> draws[i] == draws'[i]
    ensures Shuffle(a, n, draws) == Shuffle(a, n, draws')
    decreases n
  {
    if n > 1 { ShuffleIgnores(Exchange(a, n - 1, draws[n - 1]), n - 1, draws, draws'); }
  }

  /** The loop on the array; draws holds the answers of next_bounded(i + 1) for each step i. */
  method FisherYates(a: array<nat>, draws: seq<nat>)
    requires |draws| == a.Length && ValidDraws(draws)
    modifies a
    ensures a[..] == Shuffle(old(a[..]), a.Length, draws)
    ensures multiset(a[..]) == multiset(old(a[..]))
  {
    ShufflePermutes(a[..], a.Length, draws);
    var i := a.Length;
    while i > 1
      invariant 0 <= i <= a.Length
      invariant Shuffle(old(a[..]), a.Length, draws) == Shuffle(a[..], i, draws)
    {
      i := i - 1;
      var j := draws[i];
      ghost var before := a[..];
      a[i], a[j] := a[j], a[i];
      assert a[..] == Exchange(before, i, j);
    }
  }

  // ------------------------------------------------ a stream that is drawn from

  /** The random stream of the generators, which keeps a record of what was drawn. */
  class Draws {
    ghost var log: seq<nat>

    constructor ()
      ensures log == []
    {
      log := [];
    }

    method Below(bound: nat) returns (r: nat)
      modifies this
      ensures log == old(log) + [r] && if bound == 0 then r == 0 else r < bound
    {
      r := AnyDraw(bound);
      log := log + [r];
    }

    method Coin() returns (b: bool)
      modifies this
      ensures log == old(log) + [if b then 1 else 0]
    {
      b := *;
      log := log + [if b then 1 else 0];
    }
  }

  /** The record of drawing coins. */
  function CoinDraws(coins: seq<bool>): (draws: seq<nat>)
    ensures |draws| == |coins|
  {
    seq(|coins|, i requires 0 <= i < |coins| => if coins[i] then 1 else 0)
  }

  lemma CoinDrawsStep(coins: seq<bool>, coin: bool)
    ensures CoinDraws(coins + [coin]) == CoinDraws(coins) + [if coin then 1 else 0]
  {
  }

  /** The draws by step; the loop draws for its last position first. */
  function StepDraws(drawn: seq<nat>): (draws: seq<nat>)
    ensures |draws| == |drawn| + 1
  {
    seq(|drawn| + 1, i requires 0 <= i <= |drawn| => if i == 0 then 0 else drawn[|drawn| - i])
  }

  /** The answers of next_bounded(i + 1) for i from n - 1 down to 1. */
  method DrawSteps(rng: Draws, n: nat) returns (draws: seq<nat>, ghost drawn: seq<nat>)
    requires n > 0
    modifies rng
    ensures rng.log == old(rng.log) + drawn && |drawn| == n - 1
    ensures draws == StepDraws(drawn) && ValidDraws(draws)
  {
    draws, drawn := [], [];
    var i := n - 1;
    while i > 0
      invariant 0 <= i == n - 1 - |drawn| && |draws| == |drawn| && rng.log == old(rng.log) + drawn
      invariant forall k :: 0 <= k < |draws| ==> draws[k] == drawn[|drawn| - 1 - k] <= i + 1 + k
    {
      var j := rng.Below(i + 1);
      draws, drawn := [j] + draws, drawn + [j];
      i := i - 1;
    }
    draws := [0] + draws;
  }
}
