/**
 * The zero-hash sparse Merkle tree: a full 256-level tree in which an empty subtree
 * contributes a precomputed hash. The recursive builder, the proof generator and the
 * level-by-level verifier are each proved against one reference: `Full`, the hash of
 * the complete binary tree whose absent leaves all carry `CachedZero(H, 0)`.
 */
module ZeroHash {
  import opened Bits
  import opened Hashing

  const TREE_DEPTH: nat := HASH_BIT_LENGTH

  datatype Entry = Entry(index: Index, leaf: Digest)

  /** Bit `i` of `collapsed` set: the sibling at level `i` is empty. `hashes` run leaf to root. */
  datatype Proof = Proof(collapsed: nat, hashes: seq<Bytes>)

  // ----- Paths: bit `t` of an index chooses the side at level `t`, least significant bit first

  type NodePath = p: seq<bool> | |p| <= 256

  function PathOf(i: Index): (p: NodePath)
    ensures |p| == 256
    ensures forall t :: 0 <= t < 256 ==> p[t] == Bit(i, t)
  {
    seq(256, t requires 0 <= t < 256 => Bit(i, t))
  }

  predicate Under(i: Index, p: NodePath) {
    forall t :: 0 <= t < |p| ==> Bit(i, t) == p[t]
  }

  /** The node beside the one at level `b + 1` of the path to `i`. */
  function Sibling(i: Index, b: nat): (p: NodePath)
    requires b < 256
    ensures |p| == b + 1
  {
    PathOf(i)[..b] + [!Bit(i, b)]
  }

  // ----- Reference definition

  function CachedZero(H: HashFn, h: nat): Digest {
    var z := if h == 0 then NullHash() else CachedZero(H, h - 1);
    Hash2(H, z, z)
  }

  /** The leaf at a full-length path: the first entry there, or the empty leaf. */
  function LeafAt(H: HashFn, leaves: seq<Entry>, p: NodePath): Digest {
    if leaves == [] then CachedZero(H, 0)
    else if Under(leaves[0].index, p) then leaves[0].leaf
    else LeafAt(H, leaves[1..], p)
  }

  /** Hash of the complete tree below `p`, every one of its `2^(256 - |p|)` leaves included. */
  function Full(H: HashFn, leaves: seq<Entry>, p: NodePath): Digest
    decreases 256 - |p|, leaves
  {
    if |p| == 256 then LeafAt(H, leaves, p)
    else Hash2(H, Full(H, leaves, p + [false]), Full(H, leaves, p + [true]))
  }

  // ----- The builder

  /** Entries on one side of a level, in order. */
  function OnSide(leaves: seq<Entry>, bit: nat, side: bool): seq<Entry> {
    if leaves == [] then []
    else (if Bit(leaves[0].index, bit) == side then [leaves[0]] else []) + OnSide(leaves[1..], bit, side)
  }

  function SubtreeHash(H: HashFn, leaves: seq<Entry>, height: nat): Digest
    requires height <= 256
    decreases height, leaves
  {
    if leaves == [] then CachedZero(H, height)
    else if height == 0 then leaves[0].leaf
    else
      var bit := 256 - height;
      Hash2(H, SubtreeHash(H, OnSide(leaves, bit, false), height - 1),
            SubtreeHash(H, OnSide(leaves, bit, true), height - 1))
  }

  function ZeroHashRoot(H: HashFn, leaves: seq<Entry>): Digest {
    SubtreeHash(H, leaves, TREE_DEPTH)
  }

  ghost predicate IsZeroTable(H: HashFn, zeros: seq<Digest>) {
    |zeros| == 257 && forall h :: 0 <= h <= 256 ==> zeros[h] == CachedZero(H, h)
  }

  /** The table of empty-subtree hashes by height: the lowest is the hash of two null hashes. */
  method BuildCachedZero(H: HashFn) returns (zeros: seq<Digest>)
    ensures IsZeroTable(H, zeros)
    ensures |zeros| == 257 && zeros[0] == H(ZeroBytes(64))
    ensures forall h :: 0 <= h < 256 ==> Doubles(H, zeros[h], zeros[h + 1])
  {
    hide Hash2, NullHash;
    var arr := new Digest[257];
    var z: Digest := NullHash();
    for h := 0 to 257
      invariant z == if h == 0 then NullHash() else CachedZero(H, h - 1)
      invariant forall j :: 0 <= j < h ==> arr[j] == CachedZero(H, j)
    {
      z := Hash2(H, z, z);
      assert z == CachedZero(H, h);
      arr[h] := z;
    }
    zeros := arr[..];
    ZeroTableDoubles(H, zeros);
  }

  /** The hash of an empty subtree whose two halves are empty. */
  predicate Doubles(H: HashFn, half: Bytes, whole: Digest) { whole == H(half + half) }

  lemma ZeroTableDoubles(H: HashFn, zeros: seq<Digest>)
    requires IsZeroTable(H, zeros)
    ensures zeros[0] == H(ZeroBytes(64)) && forall h :: 0 <= h < 256 ==> Doubles(H, zeros[h], zeros[h + 1])
  {
    EmptyLeaf(H, []);
    forall h | 0 <= h < 256 ensures Doubles(H, zeros[h], zeros[h + 1]) {
      assert zeros[h + 1] == CachedZero(H, h + 1);
    }
  }

  /** In the empty tree every leaf is the hash of 64 zero bytes. */
  lemma EmptyLeaf(H: HashFn, p: NodePath)
    ensures LeafAt(H, [], p) == CachedZero(H, 0) == H(ZeroBytes(64))
  {
    assert NullHash() + NullHash() == ZeroBytes(64);
  }

  lemma {:induction false} OnSideAppend(xs: seq<Entry>, e: Entry, bit: nat, side: bool)
    ensures OnSide(xs + [e], bit, side)
         == OnSide(xs, bit, side) + (if Bit(e.index, bit) == side then [e] else [])
  {
    if xs == [] {
      assert xs + [e] == [e];
    } else {
      assert (xs + [e])[1..] == xs[1..] + [e];
      OnSideAppend(xs[1..], e, bit, side);
      ConcatAssoc(if Bit(xs[0].index, bit) == side then [xs[0]] else [], OnSide(xs[1..], bit, side),
                  if Bit(e.index, bit) == side then [e] else []);
    }
  }

  /** `subtreeHash`, with the loop that deals the leaves to the left and the right. */
  method ComputeSubtree(H: HashFn, zeros: seq<Digest>, leaves: seq<Entry>, height: nat) returns (hash: Digest)
    requires height <= 256 && IsZeroTable(H, zeros)
    ensures hash == SubtreeHash(H, leaves, height)
    decreases height
  {
    if |leaves| == 0 { return zeros[height]; }
    if height == 0 { return leaves[0].leaf; }
    var bit := TREE_DEPTH - height;
    var left, right := [], [];
    for k := 0 to |leaves|
      invariant left == OnSide(leaves[..k], bit, false)
      invariant right == OnSide(leaves[..k], bit, true)
    {
      assert leaves[..k + 1] == leaves[..k] + [leaves[k]];
      OnSideAppend(leaves[..k], leaves[k], bit, false);
      OnSideAppend(leaves[..k], leaves[k], bit, true);
      if Bit(leaves[k].index, bit) { right := right + [leaves[k]]; } else { left := left + [leaves[k]]; }
    }
    assert leaves[..|leaves|] == leaves;
    var l := ComputeSubtree(H, zeros, left, height - 1);
    var r := ComputeSubtree(H, zeros, right, height - 1);
    hash := Hash2(H, l, r);
  }

  // ----- The builder computes the reference

  /** Entries below `p`, in order. */
  function Below(leaves: seq<Entry>, p: NodePath): seq<Entry> {
    if leaves == [] then []
    else (if Under(leaves[0].index, p) then [leaves[0]] else []) + Below(leaves[1..], p)
  }

  lemma {:induction false} BelowRoot(leaves: seq<Entry>)
    ensures Below(leaves, []) == leaves
  {
    if leaves != [] { BelowRoot(leaves[1..]); }
  }

  lemma UnderStep(i: Index, p: NodePath, side: bool)
    requires |p| < 256
    ensures Under(i, p + [side]) <==> Under(i, p) && Bit(i, |p|) == side
  {
    var q := p + [side];
    assert q[|p|] == side && q[..|p|] == p;
    if Under(i, q) {
      forall t | 0 <= t < |p| ensures Bit(i, t) == p[t] { assert q[t] == p[t]; }
    }
  }

  lemma {:induction false} BelowStep(leaves: seq<Entry>, p: NodePath, side: bool)
    requires |p| < 256
    ensures OnSide(Below(leaves, p), |p|, side) == Below(leaves, p + [side])
  {
    if leaves != [] {
      var e, rest := leaves[0], Below(leaves[1..], p);
      BelowStep(leaves[1..], p, side);
      UnderStep(e.index, p, side);
      if Under(e.index, p) {
        assert Below(leaves, p) == [e] + rest && ([e] + rest)[1..] == rest;
      } else {
        assert Below(leaves, p) == rest;
      }
    }
  }

  lemma {:induction false} LeafAtBelow(H: HashFn, leaves: seq<Entry>, p: NodePath)
    ensures LeafAt(H, leaves, p) == if Below(leaves, p) == [] then CachedZero(H, 0) else Below(leaves, p)[0].leaf
  {
    if leaves != [] { LeafAtBelow(H, leaves[1..], p); }
  }

  /** One level of the builder, the empty subtree included. */
  lemma SubtreeStep(H: HashFn, leaves: seq<Entry>, height: nat)
    requires 0 < height <= 256
    ensures SubtreeHash(H, leaves, height)
         == Hash2(H, SubtreeHash(H, OnSide(leaves, 256 - height, false), height - 1),
                  SubtreeHash(H, OnSide(leaves, 256 - height, true), height - 1))
  {
  }

  /** Wherever it is called, the builder returns the reference hash of the subtree. */
  lemma {:induction false} SubtreeIsFull(H: HashFn, leaves: seq<Entry>, p: NodePath)
    ensures SubtreeHash(H, Below(leaves, p), 256 - |p|) == Full(H, leaves, p)
    decreases 256 - |p|
  {
    hide Hash2, Under, Below, OnSide, CachedZero;
    var sel := Below(leaves, p);
    if |p| == 256 {
      LeafAtBelow(H, leaves, p);
      assert SubtreeHash(H, sel, 0) == Full(H, leaves, p);
    } else {
      SubtreeStep(H, sel, 256 - |p|);
      BelowStep(leaves, p, false);
      BelowStep(leaves, p, true);
      SubtreeIsFull(H, leaves, p + [false]);
      SubtreeIsFull(H, leaves, p + [true]);
      assert Full(H, leaves, p) == Hash2(H, Full(H, leaves, p + [false]), Full(H, leaves, p + [true]));
    }
  }

  /** The computed root is the root of the complete tree. */
  lemma RootIsFull(H: HashFn, leaves: seq<Entry>)
    ensures ZeroHashRoot(H, leaves) == Full(H, leaves, [])
  {
    BelowRoot(leaves);
    SubtreeIsFull(H, leaves, []);
  }

  lemma {:induction false} FullDependsOnLeaves(H: HashFn, xs: seq<Entry>, ys: seq<Entry>, p: NodePath)
    requires forall q: NodePath :: |q| == 256 ==> LeafAt(H, xs, q) == LeafAt(H, ys, q)
    ensures Full(H, xs, p) == Full(H, ys, p)
    decreases 256 - |p|
  {
    if |p| < 256 {
      FullDependsOnLeaves(H, xs, ys, p + [false]);
      FullDependsOnLeaves(H, xs, ys, p + [true]);
    }
  }

  predicate DistinctIndexes(leaves: seq<Entry>) {
    forall a, b :: 0 <= a < b < |leaves| ==> leaves[a].index != leaves[b].index
  }

  lemma UnderFullPath(i: Index, j: Index)
    ensures Under(i, PathOf(j)) <==> i == j
  {
    if Under(i, PathOf(j)) { BitExtensional(i, j, 256); }
  }

  lemma {:induction false} LeafAtIs(H: HashFn, leaves: seq<Entry>, k: nat)
    requires k < |leaves| && DistinctIndexes(leaves)
    ensures LeafAt(H, leaves, PathOf(leaves[k].index)) == leaves[k].leaf
  {
    UnderFullPath(leaves[0].index, leaves[k].index);
    if k > 0 {
      LeafAtIs(H, leaves[1..], k - 1);
    }
  }

  lemma {:induction false} LeafAtAbsent(H: HashFn, leaves: seq<Entry>, i: Index)
    requires forall k :: 0 <= k < |leaves| ==> leaves[k].index != i
    ensures LeafAt(H, leaves, PathOf(i)) == CachedZero(H, 0) == H(ZeroBytes(64))
  {
    hide CachedZero;
    if leaves == [] {
      EmptyLeaf(H, PathOf(i));
    } else {
      UnderFullPath(leaves[0].index, i);
      LeafAtAbsent(H, leaves[1..], i);
    }
  }

  lemma {:induction false} LeafAtFound(H: HashFn, leaves: seq<Entry>, p: NodePath) returns (k: nat)
    requires |p| == 256
    ensures k <= |leaves|
    ensures k < |leaves| ==> PathOf(leaves[k].index) == p && LeafAt(H, leaves, p) == leaves[k].leaf
    ensures k == |leaves| ==> LeafAt(H, leaves, p) == CachedZero(H, 0)
    ensures k == |leaves| ==> forall j :: 0 <= j < |leaves| ==> PathOf(leaves[j].index) != p
  {
    if leaves == [] { return 0; }
    if Under(leaves[0].index, p) {
      assert PathOf(leaves[0].index) == p;
      return 0;
    }
    var k' := LeafAtFound(H, leaves[1..], p);
    k := k' + 1;
  }

  /** The top level parts even indexes from odd ones, even to the left. */
  lemma RootOfTwo(H: HashFn, even: Entry, odd: Entry)
    requires even.index % 2 == 0 && odd.index % 2 == 1
    ensures var l: Bytes, r: Bytes := SubtreeHash(H, [even], 255), SubtreeHash(H, [odd], 255);
            ZeroHashRoot(H, [even, odd]) == H(l + r)
    ensures ZeroHashRoot(H, [odd, even]) == ZeroHashRoot(H, [even, odd])
  {
    OnSideOfTwo(even, odd);
    SubtreeStep(H, [even, odd], 256);
    SubtreeStep(H, [odd, even], 256);
  }

  lemma OnSideOfTwo(even: Entry, odd: Entry)
    requires even.index % 2 == 0 && odd.index % 2 == 1
    ensures OnSide([even, odd], 0, false) == OnSide([odd, even], 0, false) == [even]
    ensures OnSide([even, odd], 0, true) == OnSide([odd, even], 0, true) == [odd]
  {
    assert [even, odd] == [even] + [odd] && [odd, even] == [odd] + [even];
    forall side: bool
      ensures OnSide([even], 0, side) == (if side then [] else [even])
      ensures OnSide([odd], 0, side) == (if side then [odd] else [])
    {
      assert [even][1..] == [] && [odd][1..] == [];
    }
    OnSideAppend([even], odd, 0, false);
    OnSideAppend([even], odd, 0, true);
    OnSideAppend([odd], even, 0, false);
    OnSideAppend([odd], even, 0, true);
  }

  /** A leaf alone under its path is hashed with the empty subtrees of its level, left or right as its bits say. */
  lemma OneLeafStep(H: HashFn, e: Entry, height: nat)
    requires 0 < height <= 256
    ensures SubtreeHash(H, [e], 0) == e.leaf
    ensures var z: Bytes, below: Bytes := SubtreeHash(H, [], height - 1), SubtreeHash(H, [e], height - 1);
            SubtreeHash(H, [e], height) == if Bit(e.index, 256 - height) then H(z + below) else H(below + z)
  {
    assert [e][1..] == [];
    SubtreeStep(H, [e], height);
  }

  /** The root depends on the set of entries alone: any order, any batching. */
  lemma RootIsCanonical(H: HashFn, xs: seq<Entry>, ys: seq<Entry>)
    requires DistinctIndexes(xs) && DistinctIndexes(ys)
    requires forall e :: e in xs <==> e in ys
    ensures ZeroHashRoot(H, xs) == ZeroHashRoot(H, ys)
  {
    forall q: NodePath | |q| == 256 ensures LeafAt(H, xs, q) == LeafAt(H, ys, q) {
      var k := LeafAtFound(H, xs, q);
      var j := LeafAtFound(H, ys, q);
      assert j < |ys| ==> ys[j] in xs;
      if k < |xs| {
        assert xs[k] in ys;
        var j' :| 0 <= j' < |ys| && ys[j'] == xs[k];
        LeafAtIs(H, ys, j');
      }
    }
    FullDependsOnLeaves(H, xs, ys, []);
    RootIsFull(H, xs);
    RootIsFull(H, ys);
  }
}
