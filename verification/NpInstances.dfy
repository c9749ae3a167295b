/**
 The subset-sum, graph-colouring and Hamiltonian-path checks of src/consensus/ponw_engine.cpp.
 Each decides exactly the mathematical problem.
 */
module NpInstances {
  import opened Words
  import opened Counting

  // ------------------------------------------------ subset sum

  datatype SubsetSumInstance = SubsetSumInstance(elements: seq<nat>, target: nat, requiredSubsetSize: nat)

  ghost function SumAt(elements: seq<nat>, indices: seq<nat>): nat
    requires forall i :: 0 <= i < |indices| ==> indices[i] < |elements|
  {
    if indices == [] then 0 else SumAt(elements, indices[..|indices| - 1]) + elements[indices[|indices| - 1]]
  }

  /** A non-empty choice of different positions whose sum, in 64-bit arithmetic, is the target. */
  ghost predicate SolvesSubsetSum(inst: SubsetSumInstance, indices: seq<nat>) {
    indices != [] && (forall i :: 0 <= i < |indices| ==> indices[i] < |inst.elements|) && Distinct(indices) &&
    (inst.requiredSubsetSize > 0 ==> |indices| == inst.requiredSubsetSize) &&
    SumAt(inst.elements, indices) % TWO_64 == inst.target
  }

  lemma SumStep(elements: seq<nat>, indices: seq<nat>, i: nat)
    requires i < |indices| && forall k :: 0 <= k <= i ==> indices[k] < |elements|
    ensures SumAt(elements, indices[..i + 1]) == SumAt(elements, indices[..i]) + elements[indices[i]]
  {
    assert indices[..i + 1][..i] == indices[..i];
  }

  lemma NoneTwice()
    ensures Distinct<nat>([])
  {
  }

  lemma SeenTwice(s: seq<nat>, i: nat)
    requires i < |s| && s[i] in s[..i]
    ensures !Distinct(s)
  {
    var k :| 0 <= k < i && s[..i][k] == s[i];
    assert s[k] == s[i];
  }

  lemma OneMoreDistinct(s: seq<nat>, x: nat)
    requires Distinct(s) && x !in s
    ensures Distinct(s + [x])
  {
  }

  method VerifySubsetSum(inst: SubsetSumInstance, indices: seq<nat>) returns (ok: bool)
    ensures ok <==> SolvesSubsetSum(inst, indices)
  {
    if indices == [] { return false; }
    hide Distinct;
    var sum := 0;
    var seen: set<nat> := {};
    NoneTwice();
    for i := 0 to |indices|
      invariant forall k :: 0 <= k < i ==> indices[k] < |inst.elements|
      invariant Distinct(indices[..i])
      invariant forall x :: x in seen <==> x in indices[..i]
      invariant sum == SumAt(inst.elements, indices[..i]) % TWO_64
    {
      var idx := indices[i];
      if idx >= |inst.elements| { return false; }
      if idx in seen {
        SeenTwice(indices, i);
        return false;
      }
      seen := seen + {idx};
      assert indices[..i + 1] == indices[..i] + [idx];
      OneMoreDistinct(indices[..i], idx);
      SumStep(inst.elements, indices, i);
      hide SumAt;
      sum := (sum + inst.elements[idx]) % TWO_64;
    }
    assert indices[..|indices|] == indices;
    if inst.requiredSubsetSize > 0 && |indices| != inst.requiredSubsetSize { return false; }
    return sum == inst.target;
  }

  // ------------------------------------------------ graph colouring

  datatype GraphColorInstance = GraphColorInstance(numVertices: nat, numColors: nat, edges: seq<(nat, nat)>)

  ghost predicate ProperlyColored(colors: seq<nat>, e: (nat, nat)) {
    e.0 < |colors| && e.1 < |colors| && colors[e.0] != colors[e.1]
  }

  ghost predicate SolvesColoring(inst: GraphColorInstance, colors: seq<nat>) {
    |colors| == inst.numVertices && (forall i :: 0 <= i < |colors| ==> colors[i] < inst.numColors) &&
    forall k :: 0 <= k < |inst.edges| ==> ProperlyColored(colors, inst.edges[k])
  }

  method VerifyColoring(inst: GraphColorInstance, colors: seq<nat>) returns (ok: bool)
    ensures ok <==> SolvesColoring(inst, colors)
  {
    if |colors| != inst.numVertices { return false; }
    for i := 0 to |colors|
      invariant forall k :: 0 <= k < i ==> colors[k] < inst.numColors
    {
      if colors[i] >= inst.numColors { return false; }
    }
    for k := 0 to |inst.edges|
      invariant forall j :: 0 <= j < k ==> ProperlyColored(colors, inst.edges[j])
    {
      var (u, v) := inst.edges[k];
      if u >= inst.numVertices || v >= inst.numVertices || colors[u] == colors[v] {
        assert !ProperlyColored(colors, inst.edges[k]);
        return false;
      }
    }
    return true;
  }

  // ------------------------------------------------ Hamiltonian path

  datatype HamiltonianInstance = HamiltonianInstance(numVertices: nat, edges: seq<(nat, nat)>)

  /** Vertex numbers and the vertex count are 32-bit values in the source. */
  ghost predicate Fits32(inst: HamiltonianInstance) {
    inst.numVertices < TWO_32 &&
    forall k :: 0 <= k < |inst.edges| ==> inst.edges[k].0 < TWO_32 && inst.edges[k].1 < TWO_32
  }

  ghost predicate Adjacent(edges: seq<(nat, nat)>, u: nat, v: nat) {
    exists k :: 0 <= k < |edges| && (edges[k] == (u, v) || edges[k] == (v, u))
  }

  /** Every vertex exactly once, and each step along an edge. */
  ghost predicate HamiltonianPath(inst: HamiltonianInstance, path: seq<nat>) {
    Distinct(path) && (forall v: nat :: v in path <==> v < inst.numVertices) &&
    forall i :: 0 <= i < |path| - 1 ==> Adjacent(inst.edges, path[i], path[i + 1])
  }

  /** The 64-bit key of an undirected edge: the smaller end in the upper half. */
  function EdgeKey(u: nat, v: nat): nat {
    if u <= v then u * TWO_32 + v else v * TWO_32 + u
  }

  lemma EdgeKeyInjective(u: nat, v: nat, x: nat, y: nat)
    requires u < TWO_32 && v < TWO_32 && x < TWO_32 && y < TWO_32
    ensures EdgeKey(u, v) == EdgeKey(x, y) <==> (u, v) == (x, y) || (u, v) == (y, x)
  {
  }

  method EdgeSet(edges: seq<(nat, nat)>) returns (keys: set<nat>)
    ensures forall key :: key in keys <==> exists k :: 0 <= k < |edges| && EdgeKey(edges[k].0, edges[k].1) == key
  {
    keys := {};
    for k := 0 to |edges|
      invariant forall key :: key in keys <==> exists j :: 0 <= j < k && EdgeKey(edges[j].0, edges[j].1) == key
    {
      keys := keys + {EdgeKey(edges[k].0, edges[k].1)};
    }
  }

  /** The visited flags let through exactly the sequences of different vertices in range. */
  method VisitOnce(n: nat, path: seq<nat>) returns (ok: bool)
    ensures ok <==> Distinct(path) && forall i :: 0 <= i < |path| ==> path[i] < n
  {
    var visited := seq(n, _ => false);
    for i := 0 to |path|
      invariant |visited| == n && Distinct(path[..i]) && forall k :: 0 <= k < i ==> path[k] < n
      invariant forall v :: 0 <= v < n ==> (visited[v] <==> v in path[..i])
    {
      var v := path[i];
      if v >= n { return false; }
      if visited[v] {
        var k :| 0 <= k < i && path[..i][k] == v;
        assert path[k] == path[i];
        return false;
      }
      visited := visited[v := true];
      assert path[..i + 1] == path[..i] + [v];
    }
    assert path[..|path|] == path;
    return true;
  }

  method VerifyHamiltonian(inst: HamiltonianInstance, path: seq<nat>) returns (ok: bool)
    requires Fits32(inst)
    ensures ok <==> HamiltonianPath(inst, path)
  {
    if |path| != inst.numVertices {
      RightLength(inst.numVertices, path);
      return false;
    }
    var once := VisitOnce(inst.numVertices, path);
    assert forall i :: 0 <= i < |path| ==> path[i] in path;
    if !once { return false; }
    Pigeonhole(path, inst.numVertices);
    var keys := EdgeSet(inst.edges);
    for i := 0 to |path| - (if |path| > 0 then 1 else 0)
      invariant forall k :: 0 <= k < i ==> Adjacent(inst.edges, path[k], path[k + 1])
    {
      KeyIsAdjacency(inst, path[i], path[i + 1]);
      if EdgeKey(path[i], path[i + 1]) !in keys { return false; }
    }
    return true;
  }

  lemma KeyIsAdjacency(inst: HamiltonianInstance, u: nat, v: nat)
    requires Fits32(inst) && u < TWO_32 && v < TWO_32
    ensures Adjacent(inst.edges, u, v) <==>
            exists k :: 0 <= k < |inst.edges| && EdgeKey(inst.edges[k].0, inst.edges[k].1) == EdgeKey(u, v)
  {
    forall k | 0 <= k < |inst.edges|
      ensures EdgeKey(inst.edges[k].0, inst.edges[k].1) == EdgeKey(u, v) <==>
              inst.edges[k] == (u, v) || inst.edges[k] == (v, u)
    {
      EdgeKeyInjective(inst.edges[k].0, inst.edges[k].1, u, v);
    }
  }

  /** Visiting every vertex once takes exactly n steps. */
  lemma RightLength(n: nat, path: seq<nat>)
    ensures Distinct(path) && (forall v: nat :: v in path <==> v < n) ==> |path| == n
  {
    if Distinct(path) && forall v: nat :: v in path <==> v < n {
      DistinctCount(path);
      assert Elements(path) == Below(n);
    }
  }
}
