/**
 The Merkle tree of src/crypto/hash.cpp over 32-byte hashes, in which a node without a right
 neighbour is paired with itself. The hash function is a parameter; nothing assumes that it has no
 collisions, and the binding results hand one over instead.
 */
module Merkle {
  import opened Bytes

  type HashFunction = seq<Byte> -> Hash

  datatype MerkleProof = MerkleProof(siblings: seq<Hash>, directions: seq<bool>)

  /** Some pair does for every hash function, so below it matters which strings these are. */
  predicate Collides(H: HashFunction, x: seq<Byte>, y: seq<Byte>) {
    x != y && H(x) == H(y)
  }

  // ------------------------------------------------ the tree

  /** The 64 bytes that are hashed for a pair of nodes. */
  function Pair(l: Hash, r: Hash): (p: seq<Byte>)
    ensures |p| == 64
  {
    var left: seq<Byte>, right: seq<Byte> := l, r;
    left + right
  }

  /** The right neighbour of an even position, or the position itself at an odd end. */
  function Partner(n: nat, i: nat): (j: nat)
    requires i < n
    ensures i <= j < n && j <= i + 1
  {
    if i + 1 < n then i + 1 else i
  }

  /** What is hashed for node k of the next level. */
  function PairAt(cur: seq<Hash>, k: nat): seq<Byte>
    requires 2 * k < |cur|
  {
    Pair(cur[2 * k], cur[Partner(|cur|, 2 * k)])
  }

  function NodeAt(H: HashFunction, cur: seq<Hash>, k: nat): Hash
    requires 2 * k < |cur|
  {
    H(PairAt(cur, k))
  }

  function NextLevel(H: HashFunction, cur: seq<Hash>): (next: seq<Hash>)
    ensures |next| == (|cur| + 1) / 2
  {
    seq((|cur| + 1) / 2, k requires 0 <= k < (|cur| + 1) / 2 => NodeAt(H, cur, k))
  }

  function RootOf(H: HashFunction, cur: seq<Hash>): Hash
    decreases |cur|
  {
    if |cur| == 0 then ZeroHash()
    else if |cur| == 1 then cur[0]
    else RootOf(H, NextLevel(H, cur))
  }

  /** The number of levels above n leaves. */
  function Depth(n: nat): nat {
    if n <= 1 then 0 else 1 + Depth((n + 1) / 2)
  }

  /** The other half of the pair that position idx belongs to, and whether it is the left half. */
  function SiblingOf(cur: seq<Hash>, idx: nat): (Hash, bool)
    requires idx < |cur|
  {
    if idx % 2 == 0 then (cur[Partner(|cur|, idx)], false) else (cur[idx - 1], true)
  }

  function ProofOf(H: HashFunction, cur: seq<Hash>, idx: nat): (p: MerkleProof)
    requires idx < |cur|
    ensures |p.siblings| == |p.directions| == Depth(|cur|)
    decreases |cur|
  {
    if |cur| == 1 then MerkleProof([], []) else
      var (sibling, left) := SiblingOf(cur, idx);
      var rest := ProofOf(H, NextLevel(H, cur), idx / 2);
      MerkleProof([sibling] + rest.siblings, [left] + rest.directions)
  }

  /** What is hashed for the node above a node and its sibling. */
  function PairWith(node: Hash, sibling: Hash, left: bool): seq<Byte> {
    if left then Pair(sibling, node) else Pair(node, sibling)
  }

  /** The node above a node and its sibling. */
  function Parent(H: HashFunction, node: Hash, sibling: Hash, left: bool): Hash {
    H(PairWith(node, sibling, left))
  }

  function Climb(H: HashFunction, node: Hash, siblings: seq<Hash>, directions: seq<bool>): Hash
    requires |siblings| <= |directions|
    decreases |siblings|
  {
    if siblings == [] then node
    else Climb(H, Parent(H, node, siblings[0], directions[0]), siblings[1..], directions[1..])
  }

  // ------------------------------------------------ the loops of the source

  method BuildLevel(H: HashFunction, cur: seq<Hash>) returns (next: seq<Hash>)
    ensures next == NextLevel(H, cur)
  {
    next := [];
    var i := 0;
    while i < |cur|
      invariant 0 <= i && i % 2 == 0 && |next| == i / 2 <= (|cur| + 1) / 2
      invariant next == NextLevel(H, cur)[..i / 2]
    {
      var j := if i + 1 < |cur| then i + 1 else i;
      assert NextLevel(H, cur)[i / 2] == H(Pair(cur[i], cur[j]));
      next := next + [H(Pair(cur[i], cur[j]))];
      i := i + 2;
    }
  }

  method MerkleRoot(H: HashFunction, leaves: seq<Hash>) returns (root: Hash)
    ensures root == RootOf(H, leaves)
    ensures leaves != [] ==> |leaves| <= FullSize(Depth(|leaves|)) && root == TopDown(H, leaves, Depth(|leaves|))
  {
    if leaves != [] { RootFromTop(H, leaves); }
    if |leaves| == 0 { return ZeroHash(); }
    if |leaves| == 1 { return leaves[0]; }
    var cur := leaves;
    while |cur| > 1
      invariant |cur| >= 1 && RootOf(H, cur) == RootOf(H, leaves)
      decreases |cur|
    {
      cur := BuildLevel(H, cur);
    }
    return cur[0];
  }

  /** One pass over a level: hash the pairs and pick up the sibling of the marked position. */
  method ProofLevel(H: HashFunction, cur: seq<Hash>, idx: nat)
    returns (next: seq<Hash>, siblings: seq<Hash>, directions: seq<bool>)
    requires idx < |cur|
    ensures next == NextLevel(H, cur)
    ensures siblings == [SiblingOf(cur, idx).0] && directions == [SiblingOf(cur, idx).1]
  {
    next, siblings, directions := [], [], [];
    var i := 0;
    while i < |cur|
      invariant 0 <= i && i % 2 == 0 && |next| == i / 2 <= (|cur| + 1) / 2
      invariant next == NextLevel(H, cur)[..i / 2]
      invariant if idx < i then siblings == [SiblingOf(cur, idx).0] && directions == [SiblingOf(cur, idx).1]
                else siblings == [] && directions == []
    {
      var j := if i + 1 < |cur| then i + 1 else i;
      if i == idx || j == idx {
        var sib := if i == idx then j else i;
        siblings := siblings + [cur[sib]];
        directions := directions + [i != idx];
      }
      assert NextLevel(H, cur)[i / 2] == H(Pair(cur[i], cur[j]));
      next := next + [H(Pair(cur[i], cur[j]))];
      i := i + 2;
    }
  }

  method BuildProof(H: HashFunction, leaves: seq<Hash>, index: nat) returns (proof: MerkleProof)
    ensures proof == if index < |leaves| then ProofOf(H, leaves, index) else MerkleProof([], [])
  {
    proof := MerkleProof([], []);
    if |leaves| == 0 || index >= |leaves| { return; }
    var cur, idx := leaves, index;
    assert Joined(proof, ProofOf(H, leaves, index)) == ProofOf(H, leaves, index);
    while |cur| > 1
      invariant |cur| >= 1 && 0 <= idx < |cur|
      invariant Joined(proof, ProofOf(H, cur, idx)) == ProofOf(H, leaves, index)
      decreases |cur|
    {
      hide NextLevel, SiblingOf, ProofOf, Joined;
      ProofStep(H, proof, cur, idx);
      var next, siblings, directions := ProofLevel(H, cur, idx);
      proof := MerkleProof(proof.siblings + siblings, proof.directions + directions);
      idx := idx / 2;
      cur := next;
    }
    assert ProofOf(H, cur, idx) == MerkleProof([], []);
    assert proof.siblings + [] == proof.siblings && proof.directions + [] == proof.directions;
  }

  /** One proof followed by another. */
  ghost function Joined(lower: MerkleProof, upper: MerkleProof): MerkleProof {
    MerkleProof(lower.siblings + upper.siblings, lower.directions + upper.directions)
  }

  lemma ProofStep(H: HashFunction, lower: MerkleProof, cur: seq<Hash>, idx: nat)
    requires idx < |cur| && |cur| > 1
    ensures var (sibling, left) := SiblingOf(cur, idx);
            Joined(lower, ProofOf(H, cur, idx)) ==
            Joined(MerkleProof(lower.siblings + [sibling], lower.directions + [left]),
                   ProofOf(H, NextLevel(H, cur), idx / 2))
  {
    hide NextLevel, SiblingOf, Joined;
    var (sibling, left) := SiblingOf(cur, idx);
    JoinedStep(lower, sibling, left, ProofOf(H, NextLevel(H, cur), idx / 2));
  }

  lemma JoinedStep(lower: MerkleProof, sibling: Hash, left: bool, rest: MerkleProof)
    ensures Joined(lower, MerkleProof([sibling] + rest.siblings, [left] + rest.directions)) ==
            Joined(MerkleProof(lower.siblings + [sibling], lower.directions + [left]), rest)
  {
    assert lower.siblings + ([sibling] + rest.siblings) == lower.siblings + [sibling] + rest.siblings;
    assert lower.directions + ([left] + rest.directions) == lower.directions + [left] + rest.directions;
  }

  method MerkleVerify(H: HashFunction, root: Hash, leaf: Hash, proof: MerkleProof) returns (ok: bool)
    requires |proof.siblings| <= |proof.directions|
    ensures ok <==> Climb(H, leaf, proof.siblings, proof.directions) == root
  {
    var cur := leaf;
    for i := 0 to |proof.siblings|
      invariant Climb(H, cur, proof.siblings[i..], proof.directions[i..]) ==
                Climb(H, leaf, proof.siblings, proof.directions)
    {
      assert proof.siblings[i..][1..] == proof.siblings[i + 1..];
      assert proof.directions[i..][1..] == proof.directions[i + 1..];
      cur := H(if proof.directions[i] then Pair(proof.siblings[i], cur) else Pair(cur, proof.siblings[i]));
    }
    return cur == root;
  }

  // ------------------------------------------------ completeness

  /** The proof made for any leaf leads from it to the root. */
  lemma {:induction false} ProofVerifies(H: HashFunction, leaves: seq<Hash>, idx: nat)
    requires idx < |leaves|
    ensures var p := ProofOf(H, leaves, idx);
            Climb(H, leaves[idx], p.siblings, p.directions) == RootOf(H, leaves)
    decreases |leaves|
  {
    if |leaves| > 1 {
      var (sibling, left) := SiblingOf(leaves, idx);
      assert Parent(H, leaves[idx], sibling, left) == NodeAt(H, leaves, idx / 2);
      ProofVerifies(H, NextLevel(H, leaves), idx / 2);
      var p, rest := ProofOf(H, leaves, idx), ProofOf(H, NextLevel(H, leaves), idx / 2);
      assert p.siblings[1..] == rest.siblings && p.directions[1..] == rest.directions;
    }
  }

  /** Build, then verify: every leaf of every list is accepted. */
  method ProveAndVerify(H: HashFunction, leaves: seq<Hash>, index: nat) returns (ok: bool)
    requires index < |leaves|
    ensures ok
  {
    var root := MerkleRoot(H, leaves);
    var proof := BuildProof(H, leaves, index);
    ok := MerkleVerify(H, root, leaves[index], proof);
    ProofVerifies(H, leaves, index);
  }

  // ------------------------------------------------ the tree from the top

  /** The number of positions in a full tree of depth d. */
  function FullSize(d: nat): (n: nat)
    ensures n > 0
  {
    if d == 0 then 1 else 2 * FullSize(d - 1)
  }

  function Join(l: Hash, r: Hash): seq<Byte> {
    var left: seq<Byte> := l;
    left + r
  }

  /**
   The root over a full tree of depth d: a leaf is its own root, and above that the hash of the root over the
   first half of the positions followed by the root over the second. A half without leaves is a copy of the
   half to its left.
   */
  ghost function TopDown(H: HashFunction, leaves: seq<Hash>, d: nat): Hash
    requires 0 < |leaves| <= FullSize(d)
    decreases d
  {
    if d == 0 then leaves[0] else
      var half := FullSize(d - 1);
      if |leaves| <= half then
        var l := TopDown(H, leaves, d - 1);
        H(Join(l, l))
      else
        H(Join(TopDown(H, leaves[..half], d - 1), TopDown(H, leaves[half..], d - 1)))
  }

  /** The depth is the smallest at which the leaves have room. */
  lemma {:induction false} DepthIsLeast(n: nat)
    requires n > 0
    ensures n <= FullSize(Depth(n)) && (Depth(n) > 0 ==> n > FullSize(Depth(n) - 1))
  {
    if n > 1 {
      DepthIsLeast((n + 1) / 2);
    }
  }

  /** Taking one level off the bottom of the tree. */
  lemma {:induction false} TopDownLevel(H: HashFunction, leaves: seq<Hash>, d: nat)
    requires 0 < |leaves| <= FullSize(d + 1)
    ensures TopDown(H, leaves, d + 1) == TopDown(H, NextLevel(H, leaves), d)
    decreases d
  {
    if d == 0 {
      TwoLeaves(H, leaves);
    } else {
      var half, next := FullSize(d), NextLevel(H, leaves);
      assert half == 2 * FullSize(d - 1);
      if |leaves| <= half {
        TopDownLevel(H, leaves, d - 1);
      } else {
        TopDownLevel(H, leaves[..half], d - 1);
        TopDownLevel(H, leaves[half..], d - 1);
        LevelInTwo(H, leaves, FullSize(d - 1));
      }
    }
  }

  lemma TwoLeaves(H: HashFunction, leaves: seq<Hash>)
    requires 0 < |leaves| <= 2
    ensures TopDown(H, leaves, 1) == NextLevel(H, leaves)[0]
  {
    assert FullSize(0) == 1;
  }

  /** The next level of a list that is split at an even position. */
  lemma LevelInTwo(H: HashFunction, leaves: seq<Hash>, k: nat)
    requires 2 * k <= |leaves|
    ensures NextLevel(H, leaves)[..k] == NextLevel(H, leaves[..2 * k])
    ensures NextLevel(H, leaves)[k..] == NextLevel(H, leaves[2 * k..])
  {
    hide Pair;
  }

  /** The root, made level by level from the bottom, is the root over the full tree of the least depth. */
  lemma {:induction false} RootFromTop(H: HashFunction, leaves: seq<Hash>)
    requires leaves != []
    ensures |leaves| <= FullSize(Depth(|leaves|)) && RootOf(H, leaves) == TopDown(H, leaves, Depth(|leaves|))
    decreases |leaves|
  {
    DepthIsLeast(|leaves|);
    if |leaves| > 1 {
      RootFromTop(H, NextLevel(H, leaves));
      TopDownLevel(H, leaves, Depth(|leaves|) - 1);
    }
  }

  /** The last step of a proof: the node reached so far and the last sibling, the left one first. */
  lemma {:induction false} ClimbLast(H: HashFunction, leaf: Hash, siblings: seq<Hash>, directions: seq<bool>)
    requires 0 < |siblings| <= |directions|
    ensures var n := |siblings| - 1;
            var node := Climb(H, leaf, siblings[..n], directions[..n]);
            Climb(H, leaf, siblings, directions) ==
            H(if directions[n] then Join(siblings[n], node) else Join(node, siblings[n]))
    decreases |siblings|
  {
    var n := |siblings| - 1;
    if n == 0 {
      assert Climb(H, Parent(H, leaf, siblings[0], directions[0]), [], directions[1..]) ==
             Parent(H, leaf, siblings[0], directions[0]);
      assert siblings[1..] == [];
    } else {
      hide Parent;
      ClimbLast(H, Parent(H, leaf, siblings[0], directions[0]), siblings[1..], directions[1..]);
      assert siblings[1..][..n - 1] == siblings[..n][1..] && directions[1..][..n - 1] == directions[..n][1..];
    }
  }

  // ------------------------------------------------ binding

  lemma SplitPair(a: Hash, b: Hash, c: Hash, d: Hash)
    ensures Pair(a, b) == Pair(c, d) ==> a == c && b == d
  {
    assert Pair(a, b)[..32] == a && Pair(a, b)[32..] == b && Pair(c, d)[..32] == c && Pair(c, d)[32..] == d;
  }

  ghost predicate HashedInLevel(cur: seq<Hash>, x: seq<Byte>) {
    exists k :: 0 <= 2 * k < |cur| && x == PairAt(cur, k)
  }

  /** The byte string is one of those that are hashed to make the root of the list. */
  ghost predicate HashedInTree(H: HashFunction, cur: seq<Hash>, x: seq<Byte>)
    decreases |cur|
  {
    |cur| > 1 && (HashedInLevel(cur, x) || HashedInTree(H, NextLevel(H, cur), x))
  }

  /** The byte string is one of those that are hashed to verify the proof. */
  ghost predicate HashedInProof(H: HashFunction, node: Hash, siblings: seq<Hash>, directions: seq<bool>, x: seq<Byte>)
    requires |siblings| <= |directions|
    decreases |siblings|
  {
    siblings != [] &&
    (x == PairWith(node, siblings[0], directions[0]) ||
     HashedInProof(H, Parent(H, node, siblings[0], directions[0]), siblings[1..], directions[1..], x))
  }

  /** Verifying the proof and making the root hash two different strings to one value. */
  ghost predicate ProofCollides(H: HashFunction, leaves: seq<Hash>, leaf: Hash, siblings: seq<Hash>,
                                directions: seq<bool>, x: seq<Byte>, y: seq<Byte>)
    requires |siblings| <= |directions|
  {
    Collides(H, x, y) && HashedInProof(H, leaf, siblings, directions, x) && HashedInTree(H, leaves, y)
  }

  /** Making the two roots hashes two different strings to one value. */
  ghost predicate RootsCollide(H: HashFunction, a: seq<Hash>, b: seq<Hash>, x: seq<Byte>, y: seq<Byte>) {
    Collides(H, x, y) && HashedInTree(H, a, x) && HashedInTree(H, b, y)
  }

  lemma LevelIsHashed(H: HashFunction, cur: seq<Hash>, k: nat)
    requires 2 * k < |cur| && |cur| > 1
    ensures HashedInTree(H, cur, PairAt(cur, k))
  {
    assert HashedInLevel(cur, PairAt(cur, k));
  }

  /** The position in a list of n nodes that position pos of the full tree stands for. */
  function Place(n: nat, pos: nat): (i: nat)
    requires n > 0
    ensures i < n
  {
    if n == 1 then 0 else
      var q := Place((n + 1) / 2, pos / 2);
      if pos % 2 == 0 then 2 * q else Partner(n, 2 * q)
  }

  /** The position in the full tree that the sides of a proof spell, lowest bit first. */
  function Spelled(directions: seq<bool>, d: nat): nat
    requires d <= |directions|
  {
    if d == 0 then 0 else (if directions[0] then 1 else 0) + 2 * Spelled(directions[1..], d - 1)
  }

  /**
   A proof of full depth that leads to the root of a list shows that the leaf is in the list, at the place
   that its sides spell, or else the two byte strings handed back, one hashed in verifying the proof and one
   in making the root, collide.
   */
  lemma {:induction false} ProofBinds(H: HashFunction, leaves: seq<Hash>, leaf: Hash, siblings: seq<Hash>,
                                      directions: seq<bool>)
    returns (x: seq<Byte>, y: seq<Byte>)
    requires |leaves| > 0 && |siblings| == Depth(|leaves|) <= |directions|
    requires Climb(H, leaf, siblings, directions) == RootOf(H, leaves)
    ensures leaf == leaves[Place(|leaves|, Spelled(directions, |siblings|))] ||
            ProofCollides(H, leaves, leaf, siblings, directions, x, y)
    decreases |leaves|
  {
    x, y := [], [];
    if |leaves| > 1 {
      hide HashedInLevel;
      var next, node := NextLevel(H, leaves), Parent(H, leaf, siblings[0], directions[0]);
      x, y := ProofBinds(H, next, node, siblings[1..], directions[1..]);
      var k := Place(|next|, Spelled(directions[1..], |siblings| - 1));
      if node == next[k] {
        SpelledStep(directions, |siblings|);
        x, y := PairWith(leaf, siblings[0], directions[0]), PairAt(leaves, k);
        LevelIsHashed(H, leaves, k);
        StepBinds(H, leaves, k, leaf, siblings[0], directions[0]);
      }
    }
  }

  /** A node and its sibling under an equal parent are the two nodes below it. */
  lemma StepBinds(H: HashFunction, leaves: seq<Hash>, k: nat, leaf: Hash, sibling: Hash, left: bool)
    requires 2 * k < |leaves| && Parent(H, leaf, sibling, left) == NodeAt(H, leaves, k)
    ensures leaf == leaves[if left then Partner(|leaves|, 2 * k) else 2 * k] ||
            Collides(H, PairWith(leaf, sibling, left), PairAt(leaves, k))
  {
    var l, r := leaves[2 * k], leaves[Partner(|leaves|, 2 * k)];
    SplitPair(sibling, leaf, l, r);
    SplitPair(leaf, sibling, l, r);
  }

  /** If no such strings collide, a verifying proof of full depth shows the leaf. */
  lemma ProofShowsLeaf(H: HashFunction, leaves: seq<Hash>, leaf: Hash, siblings: seq<Hash>, directions: seq<bool>)
    requires |leaves| > 0 && |siblings| == Depth(|leaves|) <= |directions|
    requires forall x, y :: HashedInProof(H, leaf, siblings, directions, x) && HashedInTree(H, leaves, y) ==>
                              H(x) == H(y) ==> x == y
    requires Climb(H, leaf, siblings, directions) == RootOf(H, leaves)
    ensures leaf == leaves[Place(|leaves|, Spelled(directions, |siblings|))]
  {
    hide HashedInProof, HashedInTree, Climb, RootOf, Place, Spelled;
    var x, y := ProofBinds(H, leaves, leaf, siblings, directions);
  }

  lemma SpelledStep(directions: seq<bool>, d: nat)
    requires 0 < d <= |directions|
    ensures Spelled(directions, d) % 2 == (if directions[0] then 1 else 0)
    ensures Spelled(directions, d) / 2 == Spelled(directions[1..], d - 1)
  {
  }

  /** The proof made for a position spells that position. */
  lemma {:induction false} ProofSpells(H: HashFunction, leaves: seq<Hash>, idx: nat)
    requires idx < |leaves|
    ensures var p := ProofOf(H, leaves, idx); Spelled(p.directions, |p.siblings|) == idx && Place(|leaves|, idx) == idx
    decreases |leaves|
  {
    if |leaves| > 1 {
      ProofSpells(H, NextLevel(H, leaves), idx / 2);
      var p, rest := ProofOf(H, leaves, idx), ProofOf(H, NextLevel(H, leaves), idx / 2);
      assert p.directions[1..] == rest.directions;
    }
  }

  /**
   Lists of one length with one root are equal, or else the two byte strings handed back, each hashed in making
   one of the roots, collide.
   */
  lemma {:induction false} RootBinds(H: HashFunction, a: seq<Hash>, b: seq<Hash>) returns (x: seq<Byte>, y: seq<Byte>)
    requires |a| == |b| && RootOf(H, a) == RootOf(H, b)
    ensures a == b || RootsCollide(H, a, b, x, y)
    decreases |a|
  {
    x, y := [], [];
    if |a| > 1 {
      hide HashedInLevel;
      x, y := RootBinds(H, NextLevel(H, a), NextLevel(H, b));
      if NextLevel(H, a) == NextLevel(H, b) {
        x, y := LevelBinds(H, a, b);
      }
    }
  }

  /** The same for one level. */
  lemma LevelBinds(H: HashFunction, a: seq<Hash>, b: seq<Hash>) returns (x: seq<Byte>, y: seq<Byte>)
    requires |a| == |b| > 1 && NextLevel(H, a) == NextLevel(H, b)
    ensures a == b || RootsCollide(H, a, b, x, y)
  {
    x, y := [], [];
    if a != b {
      hide HashedInTree, HashedInLevel;
      var i :| 0 <= i < |a| && a[i] != b[i];
      var k := i / 2;
      var j := Partner(|a|, 2 * k);
      assert NextLevel(H, a)[k] == NodeAt(H, a, k) && NextLevel(H, b)[k] == NodeAt(H, b, k);
      SplitPair(a[2 * k], a[j], b[2 * k], b[j]);
      x, y := PairAt(a, k), PairAt(b, k);
      LevelIsHashed(H, a, k);
      LevelIsHashed(H, b, k);
    }
  }

  // ------------------------------------------------ proofs of any length

  /** The level k steps above a list. */
  function Up(H: HashFunction, cur: seq<Hash>, k: nat): seq<Hash>
    decreases k
  {
    if k == 0 then cur else Up(H, NextLevel(H, cur), k - 1)
  }

  lemma {:induction false} UpKeepsRoot(H: HashFunction, cur: seq<Hash>, k: nat)
    requires cur != [] && k <= Depth(|cur|)
    ensures Up(H, cur, k) != [] && Depth(|Up(H, cur, k)|) == Depth(|cur|) - k &&
            RootOf(H, Up(H, cur, k)) == RootOf(H, cur)
    decreases k
  {
    if k > 0 {
      UpKeepsRoot(H, NextLevel(H, cur), k - 1);
    }
  }

  /** What is hashed above a level is hashed above the list. */
  lemma {:induction false} UpIsHashed(H: HashFunction, cur: seq<Hash>, k: nat, x: seq<Byte>)
    requires cur != [] && k <= Depth(|cur|) && HashedInTree(H, Up(H, cur, k), x)
    ensures HashedInTree(H, cur, x)
    decreases k
  {
    if k > 0 {
      hide HashedInLevel, NextLevel;
      UpIsHashed(H, NextLevel(H, cur), k - 1, x);
    }
  }

  /** What the later steps of a proof hash, the proof hashes. */
  lemma {:induction false} TailIsHashed(H: HashFunction, node: Hash, siblings: seq<Hash>, directions: seq<bool>,
                                        k: nat, x: seq<Byte>)
    requires k <= |siblings| <= |directions|
    requires HashedInProof(H, Climb(H, node, siblings[..k], directions[..k]), siblings[k..], directions[k..], x)
    ensures HashedInProof(H, node, siblings, directions, x)
    decreases k
  {
    if k == 0 {
      assert siblings[0..] == siblings && directions[0..] == directions;
    } else {
      hide Parent;
      assert siblings[..k][1..] == siblings[1..][..k - 1] && directions[..k][1..] == directions[1..][..k - 1];
      assert siblings[k..] == siblings[1..][k - 1..] && directions[k..] == directions[1..][k - 1..];
      TailIsHashed(H, Parent(H, node, siblings[0], directions[0]), siblings[1..], directions[1..], k - 1, x);
    }
  }

  lemma {:induction false} ClimbInTwo(H: HashFunction, node: Hash, siblings: seq<Hash>, directions: seq<bool>, k: nat)
    requires k <= |siblings| <= |directions|
    ensures Climb(H, node, siblings, directions) ==
            Climb(H, Climb(H, node, siblings[..k], directions[..k]), siblings[k..], directions[k..])
    decreases k
  {
    if k == 0 {
      assert siblings[0..] == siblings && directions[0..] == directions;
    } else {
      hide Parent;
      ClimbInTwo(H, Parent(H, node, siblings[0], directions[0]), siblings[1..], directions[1..], k - 1);
      assert siblings[..k][1..] == siblings[1..][..k - 1] && directions[..k][1..] == directions[1..][..k - 1];
      assert siblings[k..] == siblings[1..][k - 1..] && directions[k..] == directions[1..][k - 1..];
    }
  }

  /**
   What a verifying proof of any length shows, or else the two byte strings handed back, one hashed in verifying
   it and one in making the root, collide. A proof that is no longer than the tree is deep shows a node of the
   level that is as many steps below the root, at the place its sides spell; a longer one shows that what its
   first steps make is a leaf.
   */
  lemma AnyProofBinds(H: HashFunction, leaves: seq<Hash>, leaf: Hash, siblings: seq<Hash>, directions: seq<bool>)
    returns (x: seq<Byte>, y: seq<Byte>)
    requires |leaves| > 0 && |siblings| <= |directions|
    requires Climb(H, leaf, siblings, directions) == RootOf(H, leaves)
    ensures ProofCollides(H, leaves, leaf, siblings, directions, x, y) ||
            var d, k := Depth(|leaves|), |siblings|;
            if k <= d
            then var level := Up(H, leaves, d - k);
                 level != [] && leaf == level[Place(|level|, Spelled(directions, k))]
            else Climb(H, leaf, siblings[..k - d], directions[..k - d]) ==
                 leaves[Place(|leaves|, Spelled(directions[k - d..], d))]
  {
    var d, k := Depth(|leaves|), |siblings|;
    hide Climb, RootOf, Up, Place, Spelled, HashedInTree, HashedInProof;
    if k <= d {
      var level := Up(H, leaves, d - k);
      UpKeepsRoot(H, leaves, d - k);
      x, y := ProofBinds(H, level, leaf, siblings, directions);
      if HashedInTree(H, level, y) { UpIsHashed(H, leaves, d - k, y); }
    } else {
      ClimbInTwo(H, leaf, siblings, directions, k - d);
      var node := Climb(H, leaf, siblings[..k - d], directions[..k - d]);
      x, y := ProofBinds(H, leaves, node, siblings[k - d..], directions[k - d..]);
      if HashedInProof(H, node, siblings[k - d..], directions[k - d..], x) {
        TailIsHashed(H, leaf, siblings, directions, k - d, x);
      }
    }
  }

  // ------------------------------------------------ which lists share a root

  ghost predicate SameAt(a: seq<Hash>, b: seq<Hash>, pos: nat)
    requires a != [] && b != []
  {
    a[Place(|a|, pos)] == b[Place(|b|, pos)]
  }

  /** Both lists have the same leaf at every position of the full tree. */
  ghost predicate SameSpread(a: seq<Hash>, b: seq<Hash>) {
    a != [] && b != [] && Depth(|a|) == Depth(|b|) &&
    forall pos :: 0 <= pos < FullSize(Depth(|a|)) ==> SameAt(a, b, pos)
  }

  /** The node at a place of the next level pairs the two places below it. */
  lemma PlaceAbove(H: HashFunction, cur: seq<Hash>, pos: nat)
    requires |cur| > 1
    ensures var next := NextLevel(H, cur);
            var pair := Pair(cur[Place(|cur|, 2 * pos)], cur[Place(|cur|, 2 * pos + 1)]);
            next[Place(|next|, pos)] == H(pair) && HashedInTree(H, cur, pair)
  {
    assert (2 * pos + 1) / 2 == pos && (2 * pos + 1) % 2 == 1;
    LevelIsHashed(H, cur, Place((|cur| + 1) / 2, pos));
    hide HashedInTree;
  }

  lemma SpreadAbove(H: HashFunction, a: seq<Hash>, b: seq<Hash>)
    requires SameSpread(a, b) && |a| > 1
    ensures |b| > 1 && SameSpread(NextLevel(H, a), NextLevel(H, b))
  {
    var d := Depth(|a|);
    forall pos | 0 <= pos < FullSize(d - 1)
      ensures SameAt(NextLevel(H, a), NextLevel(H, b), pos)
    {
      assert SameAt(a, b, 2 * pos) && SameAt(a, b, 2 * pos + 1);
      PlaceAbove(H, a, pos);
      PlaceAbove(H, b, pos);
    }
  }

  lemma {:induction false} SpreadGivesRoot(H: HashFunction, a: seq<Hash>, b: seq<Hash>)
    requires SameSpread(a, b)
    ensures RootOf(H, a) == RootOf(H, b)
    decreases |a|
  {
    if |a| > 1 {
      SpreadAbove(H, a, b);
      SpreadGivesRoot(H, NextLevel(H, a), NextLevel(H, b));
    } else {
      assert SameAt(a, b, 0);
    }
  }

  lemma {:induction false} RootGivesSpread(H: HashFunction, a: seq<Hash>, b: seq<Hash>)
    returns (x: seq<Byte>, y: seq<Byte>)
    requires a != [] && b != [] && Depth(|a|) == Depth(|b|) && RootOf(H, a) == RootOf(H, b)
    ensures SameSpread(a, b) || RootsCollide(H, a, b, x, y)
    decreases |a|
  {
    x, y := [], [];
    if |a| > 1 {
      hide HashedInLevel;
      x, y := RootGivesSpread(H, NextLevel(H, a), NextLevel(H, b));
      if SameSpread(NextLevel(H, a), NextLevel(H, b)) && !SameSpread(a, b) {
        var pos :| 0 <= pos < FullSize(Depth(|a|)) && !SameAt(a, b, pos);
        assert SameAt(NextLevel(H, a), NextLevel(H, b), pos / 2);
        x, y := DifferBelow(H, a, b, pos);
      }
    }
  }

  /** Different leaves under equal nodes collide. */
  lemma DifferBelow(H: HashFunction, a: seq<Hash>, b: seq<Hash>, pos: nat) returns (x: seq<Byte>, y: seq<Byte>)
    requires |a| > 1 && |b| > 1 && !SameAt(a, b, pos) && SameAt(NextLevel(H, a), NextLevel(H, b), pos / 2)
    ensures RootsCollide(H, a, b, x, y)
  {
    hide NextLevel, Place, HashedInTree;
    var p := pos / 2;
    PlaceAbove(H, a, p);
    PlaceAbove(H, b, p);
    var l, r := a[Place(|a|, 2 * p)], a[Place(|a|, 2 * p + 1)];
    var l', r' := b[Place(|b|, 2 * p)], b[Place(|b|, 2 * p + 1)];
    SplitPair(l, r, l', r');
    x, y := Pair(l, r), Pair(l', r');
  }

  /**
   When two lists share a root, whatever their lengths: take the longer one up to the depth of the other.
   They share it if both then have the same leaves at all positions of the full tree, in which a missing
   node is a copy of its left neighbour; and only if, or else the two byte strings handed back, each hashed in
   making one of the roots, collide.
   */
  lemma SameRootExactly(H: HashFunction, a: seq<Hash>, b: seq<Hash>) returns (x: seq<Byte>, y: seq<Byte>)
    requires a != [] && b != [] && Depth(|a|) <= Depth(|b|)
    ensures SameSpread(a, Up(H, b, Depth(|b|) - Depth(|a|))) ==> RootOf(H, a) == RootOf(H, b)
    ensures RootOf(H, a) == RootOf(H, b) ==>
              SameSpread(a, Up(H, b, Depth(|b|) - Depth(|a|))) || RootsCollide(H, a, b, x, y)
  {
    x, y := [], [];
    var k := Depth(|b|) - Depth(|a|);
    var level := Up(H, b, k);
    UpKeepsRoot(H, b, k);
    hide SameSpread, Up, RootOf, HashedInTree;
    if SameSpread(a, level) {
      SpreadGivesRoot(H, a, level);
    } else if RootOf(H, a) == RootOf(H, b) {
      x, y := RootGivesSpread(H, a, level);
      UpIsHashed(H, b, k, y);
    }
  }

  /** If no strings hashed for the two roots collide, they are equal exactly for the same leaves. */
  lemma RootShowsLeaves(H: HashFunction, a: seq<Hash>, b: seq<Hash>)
    requires a != [] && b != [] && Depth(|a|) <= Depth(|b|)
    requires forall x, y :: HashedInTree(H, a, x) && HashedInTree(H, b, y) && H(x) == H(y) ==> x == y
    ensures RootOf(H, a) == RootOf(H, b) <==> SameSpread(a, Up(H, b, Depth(|b|) - Depth(|a|)))
    ensures |a| == |b| ==> (RootOf(H, a) == RootOf(H, b) <==> a == b)
  {
    hide SameSpread, Up, RootOf, HashedInTree;
    var x, y := SameRootExactly(H, a, b);
    if |a| == |b| && RootOf(H, a) == RootOf(H, b) {
      x, y := RootBinds(H, a, b);
    }
  }

  // ------------------------------------------------ why the conditions are there

  /** Lists of different lengths can share a root: a repeated last leaf is invisible. */
  lemma RepeatedLastLeaf(H: HashFunction, a: Hash, b: Hash, c: Hash)
    ensures RootOf(H, [a, b, c]) == RootOf(H, [a, b, c, c])
  {
    var three, four := [a, b, c], [a, b, c, c];
    assert NodeAt(H, three, 0) == NodeAt(H, four, 0) && NodeAt(H, three, 1) == NodeAt(H, four, 1);
    assert NextLevel(H, three) == NextLevel(H, four);
  }

  /** An honest proof without its first step proves the inner node above the leaf: full depth matters. */
  lemma InnerNodeAccepted(H: HashFunction, leaves: seq<Hash>, idx: nat)
    requires |leaves| > 1 && idx < |leaves|
    ensures var p := ProofOf(H, leaves, idx);
            Climb(H, NodeAt(H, leaves, idx / 2), p.siblings[1..], p.directions[1..]) == RootOf(H, leaves)
  {
    ProofVerifies(H, leaves, idx);
    var (sibling, left) := SiblingOf(leaves, idx);
    assert Parent(H, leaves[idx], sibling, left) == NodeAt(H, leaves, idx / 2);
  }
}
