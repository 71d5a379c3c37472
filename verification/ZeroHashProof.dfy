/** Inclusion proofs for the zero-hash tree: the generator, the verifier, and what verifying means. */
module ZeroHashProof {
  import opened Bits
  import opened Hashing
  import opened ZeroHash

  // ----- Verifier

  /** Accumulator and hash pointer after `n` levels, leaf upwards; `None` once the hashes run out. */
  function Walk(H: HashFn, proof: Proof, index: Index, candidate: Bytes, n: nat): Option<(Bytes, nat)>
    requires n <= 256
  {
    if n == 0 then Some((candidate, 0)) else
    match Walk(H, proof, index, candidate, n - 1)
    case None => None
    case Some((acc, ptr)) =>
      var i := 256 - n;
      if Bit(proof.collapsed, i) then Some((Step(H, index, i, acc, CachedZero(H, n - 1)), ptr))
      else if ptr >= |proof.hashes| then None
      else Some((Step(H, index, i, acc, proof.hashes[ptr]), ptr + 1))
  }

  /** Input hashed at level `i`: the sibling goes left exactly when the index bit is set. */
  function StepInput(index: Index, i: nat, acc: Bytes, sibling: Bytes): Bytes {
    if Bit(index, i) then sibling + acc else acc + sibling
  }

  function Step(H: HashFn, index: Index, i: nat, acc: Bytes, sibling: Bytes): Digest {
    H(StepInput(index, i, acc, sibling))
  }

  predicate Verifies(H: HashFn, proof: Proof, index: Index, candidate: Bytes, root: Bytes) {
    match Walk(H, proof, index, candidate, 256)
    case None => false
    case Some((acc, ptr)) => ptr == |proof.hashes| && HashesEqual(acc, root)
  }

  lemma {:induction false} WalkStopped(H: HashFn, proof: Proof, index: Index, candidate: Bytes, n: nat, m: nat)
    requires n <= m <= 256 && Walk(H, proof, index, candidate, n).None?
    ensures Walk(H, proof, index, candidate, m).None?
  {
    if n < m { WalkStopped(H, proof, index, candidate, n, m - 1); }
  }

  /** `verifyZeroHash`. */
  method VerifyZeroHash(H: HashFn, zeros: seq<Digest>, proof: Proof, index: Index, candidate: Bytes, root: Bytes)
    returns (ok: bool)
    requires IsZeroTable(H, zeros)
    ensures ok == Verifies(H, proof, index, candidate, root)
  {
    var acc := candidate;
    var hashPtr := 0;
    for n := 0 to 256
      invariant hashPtr <= |proof.hashes|
      invariant Walk(H, proof, index, candidate, n) == Some((acc, hashPtr))
    {
      var i := TREE_DEPTH - 1 - n;
      var sibling: Bytes;
      if Bit(proof.collapsed, i) {
        sibling := zeros[n];
      } else {
        if hashPtr >= |proof.hashes| {
          WalkStopped(H, proof, index, candidate, n + 1, 256);
          return false;
        }
        sibling := proof.hashes[hashPtr];
        hashPtr := hashPtr + 1;
      }
      acc := if Bit(index, i) then Hash2(H, sibling, acc) else Hash2(H, acc, sibling);
    }
    ok := hashPtr == |proof.hashes| && HashesEqual(acc, root);
  }

  // ----- Soundness

  lemma WalkStep(H: HashFn, proof: Proof, index: Index, candidate: Bytes, n: nat, acc: Bytes, ptr: nat, sibling: Bytes)
    requires 0 < n <= 256 && Walk(H, proof, index, candidate, n - 1) == Some((acc, ptr))
    requires if Bit(proof.collapsed, 256 - n) then sibling == CachedZero(H, n - 1)
             else ptr < |proof.hashes| && sibling == proof.hashes[ptr]
    ensures Walk(H, proof, index, candidate, n)
         == Some((Step(H, index, 256 - n, acc, sibling), if Bit(proof.collapsed, 256 - n) then ptr else ptr + 1))
  {
  }

  /** What the verifier hashes at step `n` (0 is the leaf level), if it gets there. */
  function WalkInput(H: HashFn, proof: Proof, index: Index, candidate: Bytes, n: nat): Bytes
    requires n < 256
  {
    match Walk(H, proof, index, candidate, n)
    case None => []
    case Some((acc, ptr)) =>
      var i := 255 - n;
      if Bit(proof.collapsed, i) then StepInput(index, i, acc, CachedZero(H, n))
      else if ptr < |proof.hashes| then StepInput(index, i, acc, proof.hashes[ptr])
      else []
  }

  /** What the complete tree hashes at the same node. */
  function TreeInput(H: HashFn, leaves: seq<Entry>, index: Index, n: nat): Bytes
    requires n < 256
  {
    var p := PathOf(index)[..255 - n];
    Full(H, leaves, p + [false]) + Full(H, leaves, p + [true])
  }

  /** The tree's input is the verifier's, were it handed the true child and the true sibling. */
  lemma TreeInputSplits(H: HashFn, leaves: seq<Entry>, index: Index, n: nat)
    requires n < 256
    ensures TreeInput(H, leaves, index, n)
         == StepInput(index, 255 - n, Full(H, leaves, PathOf(index)[..256 - n]),
                      Full(H, leaves, Sibling(index, 255 - n)))
    ensures Full(H, leaves, PathOf(index)[..255 - n])
         == Step(H, index, 255 - n, Full(H, leaves, PathOf(index)[..256 - n]),
                 Full(H, leaves, Sibling(index, 255 - n)))
  {
    var p := PathOf(index)[..255 - n];
    assert PathOf(index)[..256 - n] == p + [Bit(index, 255 - n)];
  }

  /**
   * Where two runs agree on the digest above level `n`, they agree below it too, or the two
   * inputs hashed there collide. Only the 32-byte length of the accumulators is needed: the
   * offered sibling may have any length.
   */
  lemma StepInputInjective(index: Index, i: nat, acc: Bytes, sib: Bytes, acc': Bytes, sib': Bytes)
    requires |acc| == 32 && |acc'| == 32
    requires StepInput(index, i, acc, sib) == StepInput(index, i, acc', sib')
    ensures acc == acc' && sib == sib'
  {
    var x, y := StepInput(index, i, acc, sib), StepInput(index, i, acc', sib');
    if Bit(index, i) {
      assert x[|x| - 32..] == acc && y[|y| - 32..] == acc' && x[..|x| - 32] == sib && y[..|y| - 32] == sib';
    } else {
      assert x[..32] == acc && y[..32] == acc' && x[32..] == sib && y[32..] == sib';
    }
  }

  /** Above the leaf the accumulator is a digest. */
  lemma WalkAccLength(H: HashFn, proof: Proof, index: Index, candidate: Bytes, n: nat)
    requires n <= 256 && Walk(H, proof, index, candidate, n).Some? && (n == 0 ==> |candidate| == 32)
    ensures |Walk(H, proof, index, candidate, n).value.0| == 32
  {
  }

  ghost predicate CollisionWithTree(H: HashFn, leaves: seq<Entry>, proof: Proof, index: Index, candidate: Bytes) {
    exists n :: 0 <= n < 256
             && Collides(H, WalkInput(H, proof, index, candidate, n), TreeInput(H, leaves, index, n))
  }

  /** Down to the level above the leaf the walk holds the tree's digests, so at the leaf it hashes the tree's input. */
  lemma {:induction false} SoundFrom(H: HashFn, leaves: seq<Entry>, proof: Proof, index: Index, candidate: Bytes,
                                     n: nat)
    requires 0 < n <= 256 && Walk(H, proof, index, candidate, n).Some?
    requires Walk(H, proof, index, candidate, n).value.0 == Full(H, leaves, PathOf(index)[..256 - n])
    requires !CollisionWithTree(H, leaves, proof, index, candidate)
    ensures WalkInput(H, proof, index, candidate, 0) == TreeInput(H, leaves, index, 0)
    ensures Walk(H, proof, index, candidate, 1).Some?
  {
    var m := n - 1;
    TreeInputSplits(H, leaves, index, m);
    assert H(WalkInput(H, proof, index, candidate, m)) == H(TreeInput(H, leaves, index, m));
    assert !Collides(H, WalkInput(H, proof, index, candidate, m), TreeInput(H, leaves, index, m));
    if m > 0 {
      WalkAccLength(H, proof, index, candidate, m);
      var (acc, ptr) := Walk(H, proof, index, candidate, m).value;
      var sib := if Bit(proof.collapsed, 255 - m) then CachedZero(H, m) else proof.hashes[ptr];
      StepInputInjective(index, 255 - m, acc, sib,
                         Full(H, leaves, PathOf(index)[..256 - m]), Full(H, leaves, Sibling(index, 255 - m)));
      SoundFrom(H, leaves, proof, index, candidate, m);
    }
  }

  /** The sibling of the leaf is 32 bytes long: it is a cached one, or the first of the list is. */
  predicate LeafSiblingSized(proof: Proof) {
    Bit(proof.collapsed, 255) || (proof.hashes != [] && |proof.hashes[0]| == 32)
  }

  /**
   * Where the leaf input is the tree's, candidate and sibling have 32 bytes both or neither, and if so are the
   * tree's.
   */
  lemma LeafStep(H: HashFn, leaves: seq<Entry>, proof: Proof, index: Index, candidate: Bytes)
    requires Walk(H, proof, index, candidate, 1).Some?
    requires WalkInput(H, proof, index, candidate, 0) == TreeInput(H, leaves, index, 0)
    ensures |candidate| == 32 <==> LeafSiblingSized(proof)
    ensures |candidate| == 32 ==> candidate == LeafAt(H, leaves, PathOf(index))
  {
    assert Walk(H, proof, index, candidate, 0) == Some((candidate, 0));
    var sib := if Bit(proof.collapsed, 255) then CachedZero(H, 0) else proof.hashes[0];
    TreeInputSplits(H, leaves, index, 0);
    assert PathOf(index)[..256] == PathOf(index);
    assert |StepInput(index, 255, candidate, sib)| == |candidate| + |sib| == 64;
    if |candidate| == 32 {
      StepInputInjective(index, 255, candidate, sib,
                         LeafAt(H, leaves, PathOf(index)), Full(H, leaves, Sibling(index, 255)));
    }
  }

  /**
   * Soundness, with no assumption on the hash: whatever bitmap and siblings are offered, a
   * verified candidate is the leaf stored at that index (the empty leaf if there is none), or
   * else at one of the 256 levels the verifier and the tree hashed two different inputs to one
   * digest. One length must be known: that of the candidate, or that of the leaf's sibling.
   */
  lemma Soundness(H: HashFn, leaves: seq<Entry>, proof: Proof, index: Index, candidate: Bytes)
    requires |candidate| == 32 || LeafSiblingSized(proof)
    requires Verifies(H, proof, index, candidate, ZeroHashRoot(H, leaves))
    ensures candidate == LeafAt(H, leaves, PathOf(index)) || CollisionWithTree(H, leaves, proof, index, candidate)
  {
    if !CollisionWithTree(H, leaves, proof, index, candidate) {
      RootIsFull(H, leaves);
      assert PathOf(index)[..0] == [];
      SoundFrom(H, leaves, proof, index, candidate, 256);
      LeafStep(H, leaves, proof, index, candidate);
    }
  }

  // ----- Generator

  /** Bit `b` of the bitmap: no leaf lies below the sibling at level `b`. */
  ghost predicate MarksEmptySiblings(leaves: seq<Entry>, target: Index, collapsed: nat, from: nat) {
    && collapsed < Pow2(256)
    && (forall b :: from <= b < 256 ==> (Bit(collapsed, b) <==> Below(leaves, Sibling(target, b)) == []))
    && (forall b :: 0 <= b < from && b < 256 ==> !Bit(collapsed, b))
  }

  /** Hashes of the non-empty siblings at heights `1..height`, leaf to root. */
  function SiblingHashes(H: HashFn, leaves: seq<Entry>, target: Index, height: nat): seq<Digest>
    requires height <= 256
  {
    if height == 0 then [] else
    var sibling := Sibling(target, 256 - height);
    SiblingHashes(H, leaves, target, height - 1)
      + (if Below(leaves, sibling) == [] then [] else [Full(H, leaves, sibling)])
  }

  /** The bitmap marks exactly the empty siblings, and the hashes are those of the others. */
  ghost predicate IsProofFor(H: HashFn, leaves: seq<Entry>, target: Index, proof: Proof) {
    MarksEmptySiblings(leaves, target, proof.collapsed, 0) && proof.hashes == SiblingHashes(H, leaves, target, 256)
  }

  lemma {:induction false} BelowAppend(xs: seq<Entry>, e: Entry, p: NodePath)
    ensures Below(xs + [e], p) == Below(xs, p) + (if Under(e.index, p) then [e] else [])
  {
    hide Under;
    if xs == [] {
      assert xs + [e] == [e];
    } else {
      assert (xs + [e])[1..] == xs[1..] + [e];
      BelowAppend(xs[1..], e, p);
      ConcatAssoc(if Under(xs[0].index, p) then [xs[0]] else [], Below(xs[1..], p),
                  if Under(e.index, p) then [e] else []);
    }
  }

  predicate SharesLowerPath(i: Index, target: Index, b: nat) {
    forall t :: 0 <= t < b ==> Bit(i, t) == Bit(target, t)
  }

  lemma BelowNone(p: NodePath)
    ensures Below([], p) == []
  {
  }

  /** The two tests in the generator's inner loop pick out the entries below the sibling. */
  lemma UnderSibling(i: Index, target: Index, b: nat)
    requires b < 256
    ensures Under(i, Sibling(target, b)) <==> SharesLowerPath(i, target, b) && Bit(i, b) != Bit(target, b)
  {
    var p := PathOf(target)[..b];
    UnderStep(i, p, !Bit(target, b));
    if Under(i, p) {
      forall t | 0 <= t < b ensures Bit(i, t) == Bit(target, t) { assert p[t] == PathOf(target)[t]; }
    }
    if SharesLowerPath(i, target, b) {
      forall t | 0 <= t < |p| ensures Bit(i, t) == p[t] { assert p[t] == PathOf(target)[t]; }
    }
  }

  /** The inner loops of `generateZeroHashProof`: leaves sharing the lower bits and leaving at `bit`. */
  method SiblingLeaves(leaves: seq<Entry>, target: Index, bit: nat) returns (siblingLeaves: seq<Entry>)
    requires bit < 256
    ensures siblingLeaves == Below(leaves, Sibling(target, bit))
  {
    hide Below, Sibling;
    siblingLeaves := [];
    BelowNone(Sibling(target, bit));
    for k := 0 to |leaves|
      invariant siblingLeaves == Below(leaves[..k], Sibling(target, bit))
    {
      var e := leaves[k];
      assert leaves[..k + 1] == leaves[..k] + [e];
      BelowAppend(leaves[..k], e, Sibling(target, bit));
      UnderSibling(e.index, target, bit);
      if e.index == target { continue; }
      var sharesLowerPath := true;
      for lower := 0 to bit
        invariant sharesLowerPath && SharesLowerPath(e.index, target, lower)
      {
        if Bit(e.index, lower) != Bit(target, lower) { sharesLowerPath := false; break; }
      }
      if sharesLowerPath && Bit(e.index, bit) != Bit(target, bit) { siblingLeaves := siblingLeaves + [e]; }
    }
    assert leaves[..|leaves|] == leaves;
  }

  lemma MarkEmpty(leaves: seq<Entry>, target: Index, collapsed: nat, bit: nat)
    requires bit < 256 && MarksEmptySiblings(leaves, target, collapsed, bit + 1)
    requires Below(leaves, Sibling(target, bit)) == []
    ensures MarksEmptySiblings(leaves, target, SetBit(collapsed, bit), bit)
  {
    forall b: nat | b < 256 ensures Bit(SetBit(collapsed, bit), b) == (b == bit || Bit(collapsed, b)) {
      BitSetBit(collapsed, bit, b);
    }
    SetBitBound(collapsed, bit, 256);
  }

  lemma LeaveClear(leaves: seq<Entry>, target: Index, collapsed: nat, bit: nat)
    requires bit < 256 && MarksEmptySiblings(leaves, target, collapsed, bit + 1)
    requires Below(leaves, Sibling(target, bit)) != []
    ensures MarksEmptySiblings(leaves, target, collapsed, bit)
  {
    hide Below, Sibling;
  }

  lemma MarkNone(leaves: seq<Entry>, target: Index)
    ensures MarksEmptySiblings(leaves, target, 0, 256)
  {
    forall b: nat | b < 256 ensures !Bit(0, b) { BitZero(b); }
  }

  /** `generateZeroHashProof`. */
  method GenerateProof(H: HashFn, zeros: seq<Digest>, leaves: seq<Entry>, target: Index) returns (proof: Proof)
    requires IsZeroTable(H, zeros)
    ensures IsProofFor(H, leaves, target, proof)
  {
    hide Sibling, Below, Full, SubtreeHash, MarksEmptySiblings;
    var collapsed: nat := 0;
    var hashes: seq<Bytes> := [];
    MarkNone(leaves, target);
    for height := 1 to 257
      invariant MarksEmptySiblings(leaves, target, collapsed, 257 - height)
      invariant hashes == SiblingHashes(H, leaves, target, height - 1)
    {
      var bit := TREE_DEPTH - height;
      var siblingLeaves := SiblingLeaves(leaves, target, bit);
      if |siblingLeaves| == 0 {
        MarkEmpty(leaves, target, collapsed, bit);
        collapsed := SetBit(collapsed, bit);
      } else {
        var h := ComputeSubtree(H, zeros, siblingLeaves, height - 1);
        LeaveClear(leaves, target, collapsed, bit);
        SubtreeIsFull(H, leaves, Sibling(target, bit));
        hashes := hashes + [h];
      }
    }
    proof := Proof(collapsed, hashes);
  }

  // ----- Completeness

  lemma EmptyBelow(H: HashFn, leaves: seq<Entry>, p: NodePath)
    requires Below(leaves, p) == []
    ensures Full(H, leaves, p) == CachedZero(H, 256 - |p|)
  {
    SubtreeIsFull(H, leaves, p);
  }

  lemma {:induction false} SiblingHashesPrefix(H: HashFn, leaves: seq<Entry>, target: Index, m: nat, n: nat)
    requires m <= n <= 256
    ensures |SiblingHashes(H, leaves, target, m)| <= |SiblingHashes(H, leaves, target, n)|
    ensures SiblingHashes(H, leaves, target, n)[..|SiblingHashes(H, leaves, target, m)|]
         == SiblingHashes(H, leaves, target, m)
  {
    if m < n { SiblingHashesPrefix(H, leaves, target, m, n - 1); }
  }

  /** At height `n` the bitmap and the hash list of a generated proof yield the true sibling. */
  lemma HashAtHeight(H: HashFn, leaves: seq<Entry>, target: Index, proof: Proof, n: nat)
    requires 0 < n <= 256 && IsProofFor(H, leaves, target, proof)
    ensures var before := |SiblingHashes(H, leaves, target, n - 1)|;
            var sibling := Full(H, leaves, Sibling(target, 256 - n));
            if Bit(proof.collapsed, 256 - n)
            then sibling == CachedZero(H, n - 1) && |SiblingHashes(H, leaves, target, n)| == before
            else before < |proof.hashes| && proof.hashes[before] == sibling
                 && |SiblingHashes(H, leaves, target, n)| == before + 1
  {
    var upTo := SiblingHashes(H, leaves, target, n);
    SiblingHashesPrefix(H, leaves, target, n, 256);
    if Below(leaves, Sibling(target, 256 - n)) == [] {
      EmptyBelow(H, leaves, Sibling(target, 256 - n));
    } else {
      var before := |SiblingHashes(H, leaves, target, n - 1)|;
      assert upTo[before] == Full(H, leaves, Sibling(target, 256 - n));
      assert proof.hashes[..|upTo|][before] == upTo[before];
    }
  }

  /** The hash of the complete tree `n` levels above the leaf at `target`. */
  function Ancestor(H: HashFn, leaves: seq<Entry>, target: Index, n: nat): Digest
    requires n <= 256
  {
    Full(H, leaves, PathOf(target)[..256 - n])
  }

  lemma AncestorStep(H: HashFn, leaves: seq<Entry>, target: Index, proof: Proof, n: nat)
    requires 0 < n <= 256 && IsProofFor(H, leaves, target, proof)
    requires Walk(H, proof, target, LeafAt(H, leaves, PathOf(target)), n - 1)
          == Some((Ancestor(H, leaves, target, n - 1), |SiblingHashes(H, leaves, target, n - 1)|))
    ensures Walk(H, proof, target, LeafAt(H, leaves, PathOf(target)), n)
         == Some((Ancestor(H, leaves, target, n), |SiblingHashes(H, leaves, target, n)|))
  {
    TreeInputSplits(H, leaves, target, n - 1);
    HashAtHeight(H, leaves, target, proof, n);
    WalkStep(H, proof, target, LeafAt(H, leaves, PathOf(target)), n, Ancestor(H, leaves, target, n - 1),
             |SiblingHashes(H, leaves, target, n - 1)|, Full(H, leaves, Sibling(target, 256 - n)));
  }

  /** The walk of a generated proof climbs the hashes of the complete tree. */
  lemma {:induction false} GeneratedWalk(H: HashFn, leaves: seq<Entry>, target: Index, proof: Proof, n: nat)
    requires n <= 256 && IsProofFor(H, leaves, target, proof)
    ensures Walk(H, proof, target, LeafAt(H, leaves, PathOf(target)), n)
         == Some((Ancestor(H, leaves, target, n), |SiblingHashes(H, leaves, target, n)|))
  {
    if n == 0 {
      assert PathOf(target)[..256] == PathOf(target);
    } else {
      GeneratedWalk(H, leaves, target, proof, n - 1);
      AncestorStep(H, leaves, target, proof, n);
    }
  }

  /** Every generated proof verifies, for a present and for an absent target. */
  lemma Completeness(H: HashFn, leaves: seq<Entry>, target: Index, proof: Proof)
    requires IsProofFor(H, leaves, target, proof)
    ensures Verifies(H, proof, target, LeafAt(H, leaves, PathOf(target)), ZeroHashRoot(H, leaves))
  {
    GeneratedWalk(H, leaves, target, proof, 256);
    assert PathOf(target)[..0] == [];
    RootIsFull(H, leaves);
  }

  function CountBits(x: nat, n: nat): nat
    requires n <= 256
  {
    if n == 0 then 0 else CountBits(x, n - 1) + (if Bit(x, 256 - n) then 1 else 0)
  }

  /** One hash for each clear bit of the bitmap. */
  lemma {:induction false} HashCount(H: HashFn, leaves: seq<Entry>, target: Index, proof: Proof, n: nat)
    requires n <= 256 && IsProofFor(H, leaves, target, proof)
    ensures |SiblingHashes(H, leaves, target, n)| == n - CountBits(proof.collapsed, n)
  {
    if n > 0 { HashCount(H, leaves, target, proof, n - 1); }
  }

  lemma GeneratedHashCount(H: HashFn, leaves: seq<Entry>, target: Index, proof: Proof)
    requires IsProofFor(H, leaves, target, proof)
    ensures |proof.hashes| == 256 - CountBits(proof.collapsed, 256)
  {
    HashCount(H, leaves, target, proof, 256);
  }

  /** Against the empty tree every bit of the bitmap is set, and no hash is listed. */
  lemma EmptyTreeProof(H: HashFn, target: Index, proof: Proof)
    requires IsProofFor(H, [], target, proof)
    ensures forall b :: 0 <= b < 256 ==> Bit(proof.collapsed, b)
    ensures proof.hashes == []
  {
    forall b | 0 <= b < 256 ensures Bit(proof.collapsed, b) { BelowNone(Sibling(target, b)); }
    NoSiblingHashes(H, target, 256);
  }

  lemma {:induction false} NoSiblingHashes(H: HashFn, target: Index, height: nat)
    requires height <= 256
    ensures SiblingHashes(H, [], target, height) == []
  {
    if height > 0 {
      BelowNone(Sibling(target, 256 - height));
      NoSiblingHashes(H, target, height - 1);
    }
  }

  lemma {:induction false} PointerCounts(H: HashFn, proof: Proof, index: Index, candidate: Bytes, n: nat)
    requires n <= 256 && Walk(H, proof, index, candidate, n).Some?
    ensures Walk(H, proof, index, candidate, n).value.1 == n - CountBits(proof.collapsed, n)
  {
    if n > 0 { PointerCounts(H, proof, index, candidate, n - 1); }
  }

  /** What verifies has one hash for each clear bit, no more and no fewer. */
  lemma VerifiedHashCount(H: HashFn, proof: Proof, index: Index, candidate: Bytes, root: Bytes)
    requires Verifies(H, proof, index, candidate, root)
    ensures |proof.hashes| == 256 - CountBits(proof.collapsed, 256)
  {
    PointerCounts(H, proof, index, candidate, 256);
  }

  // ----- Both directions

  /** The 256 inputs hashed on the way from a leaf to the root have no second preimage. */
  ghost predicate PathResists(H: HashFn, leaves: seq<Entry>, index: Index) {
    forall n :: 0 <= n < 256 ==> NoSecondPreimage(H, TreeInput(H, leaves, index, n))
  }

  lemma ProofExists(H: HashFn, leaves: seq<Entry>, target: Index) returns (proof: Proof)
    ensures IsProofFor(H, leaves, target, proof)
  {
    var c := CollapsedExists(leaves, target, 256);
    proof := Proof(c, SiblingHashes(H, leaves, target, 256));
  }

  lemma {:induction false} CollapsedExists(leaves: seq<Entry>, target: Index, height: nat) returns (c: nat)
    requires height <= 256
    ensures MarksEmptySiblings(leaves, target, c, 256 - height)
  {
    if height == 0 {
      c := 0;
      MarkNone(leaves, target);
    } else {
      c := CollapsedExists(leaves, target, height - 1);
      var bit := 256 - height;
      if Below(leaves, Sibling(target, bit)) == [] {
        MarkEmpty(leaves, target, c, bit);
        c := SetBit(c, bit);
      }
    }
  }

  /**
   * A 32-byte candidate has some verifying proof exactly when it is the leaf at the index, or
   * the empty leaf where there is none.
   */
  lemma VerifiesIffLeaf(H: HashFn, leaves: seq<Entry>, index: Index, candidate: Bytes)
    requires |candidate| == 32 && PathResists(H, leaves, index)
    ensures (exists proof :: Verifies(H, proof, index, candidate, ZeroHashRoot(H, leaves)))
       <==> candidate == LeafAt(H, leaves, PathOf(index))
  {
    if candidate == LeafAt(H, leaves, PathOf(index)) {
      var proof := ProofExists(H, leaves, index);
      Completeness(H, leaves, index, proof);
    }
    forall proof | Verifies(H, proof, index, candidate, ZeroHashRoot(H, leaves))
      ensures candidate == LeafAt(H, leaves, PathOf(index))
    {
      Soundness(H, leaves, proof, index, candidate);
    }
  }

  /** Where the tree has no entry, what verifies is the hash of 64 zero bytes and nothing else. */
  lemma AbsentVerifiesIff(H: HashFn, leaves: seq<Entry>, index: Index, candidate: Bytes)
    requires |candidate| == 32 && PathResists(H, leaves, index)
    requires forall k :: 0 <= k < |leaves| ==> leaves[k].index != index
    ensures (exists proof :: Verifies(H, proof, index, candidate, ZeroHashRoot(H, leaves)))
       <==> candidate == H(ZeroBytes(64))
  {
    hide PathResists, Verifies, ZeroHashRoot, CachedZero;
    LeafAtAbsent(H, leaves, index);
    VerifiesIffLeaf(H, leaves, index, candidate);
  }

  /**
   * Exactly when a verified pair holds the leaf: when the candidate is 32 bytes long, which is
   * when the leaf's sibling in the proof is. The verifier checks neither.
   */
  lemma VerifiedIsLeafIff(H: HashFn, leaves: seq<Entry>, proof: Proof, index: Index, candidate: Bytes)
    requires PathResists(H, leaves, index)
    requires Verifies(H, proof, index, candidate, ZeroHashRoot(H, leaves))
    ensures candidate == LeafAt(H, leaves, PathOf(index)) <==> |candidate| == 32
    ensures candidate == LeafAt(H, leaves, PathOf(index)) <==> LeafSiblingSized(proof)
  {
    RootIsFull(H, leaves);
    assert PathOf(index)[..0] == [];
    SoundFrom(H, leaves, proof, index, candidate, 256);
    LeafStep(H, leaves, proof, index, candidate);
  }

  /**
   * Both cases occur: moving one byte across the boundary between the leaf and its sibling
   * leaves every digest as it was.
   */
  lemma LongCandidateVerifies(H: HashFn, leaves: seq<Entry>, target: Index, proof: Proof)
    returns (candidate: Bytes, moved: Proof)
    requires IsProofFor(H, leaves, target, proof)
    requires !Bit(target, 255) && !Bit(proof.collapsed, 255)
    ensures |candidate| == 33 && !LeafSiblingSized(moved)
    ensures Verifies(H, moved, target, candidate, ZeroHashRoot(H, leaves))
  {
    Completeness(H, leaves, target, proof);
    HashAtHeight(H, leaves, target, proof, 1);
    candidate, moved := MoveByte(H, target, proof, LeafAt(H, leaves, PathOf(target)));
  }

  lemma MoveByte(H: HashFn, index: Index, proof: Proof, leaf: Digest) returns (candidate: Bytes, moved: Proof)
    requires !Bit(index, 255) && !Bit(proof.collapsed, 255)
    requires |proof.hashes| >= 1 && |proof.hashes[0]| >= 1
    requires |proof.hashes[0]| == 32
    ensures |candidate| == 33 && !LeafSiblingSized(moved)
    ensures forall root :: Verifies(H, proof, index, leaf, root) ==> Verifies(H, moved, index, candidate, root)
  {
    var s := proof.hashes[0];
    candidate := leaf + s[..1];
    moved := Proof(proof.collapsed, [s[1..]] + proof.hashes[1..]);
    WalkStep(H, proof, index, leaf, 1, leaf, 0, s);
    WalkStep(H, moved, index, candidate, 1, candidate, 0, s[1..]);
    assert candidate + s[1..] == leaf + s;
    SameAfterFirst(H, proof, moved, index, leaf, candidate, 256);
  }

  lemma {:induction false} SameAfterFirst(H: HashFn, p: Proof, q: Proof, index: Index, x: Bytes, y: Bytes, n: nat)
    requires 1 <= n <= 256 && Walk(H, p, index, x, 1) == Walk(H, q, index, y, 1)
    requires Walk(H, p, index, x, 1).Some? ==> Walk(H, p, index, x, 1).value.1 == 1
    requires p.collapsed == q.collapsed && |p.hashes| == |q.hashes| >= 1 && p.hashes[1..] == q.hashes[1..]
    ensures Walk(H, p, index, x, n) == Walk(H, q, index, y, n)
    ensures Walk(H, p, index, x, n).Some? ==> Walk(H, p, index, x, n).value.1 >= 1
  {
    if n > 1 {
      SameAfterFirst(H, p, q, index, x, y, n - 1);
      forall k | 1 <= k < |p.hashes| ensures p.hashes[k] == q.hashes[k] {
        assert p.hashes[k] == p.hashes[1..][k - 1] && q.hashes[k] == q.hashes[1..][k - 1];
      }
    }
  }

  // ----- Two proofs against one root

  /** Two runs of the verifier hash different inputs to one digest at some level. */
  ghost predicate CollisionBetween(H: HashFn, index: Index, p: Proof, x: Bytes, q: Proof, y: Bytes) {
    exists n :: 0 <= n < 256 && Collides(H, WalkInput(H, p, index, x, n), WalkInput(H, q, index, y, n))
  }

  lemma {:induction false} BindingFrom(H: HashFn, index: Index, p: Proof, x: Bytes, q: Proof, y: Bytes, n: nat)
    requires n <= 256 && |x| == 32 && |y| == 32
    requires Walk(H, p, index, x, n).Some? && Walk(H, q, index, y, n).Some?
    requires Walk(H, p, index, x, n).value.0 == Walk(H, q, index, y, n).value.0
    requires !CollisionBetween(H, index, p, x, q, y)
    ensures x == y
  {
    if n > 0 {
      var m := n - 1;
      WalkAccLength(H, p, index, x, m);
      WalkAccLength(H, q, index, y, m);
      var (a, i) := Walk(H, p, index, x, m).value;
      var (b, j) := Walk(H, q, index, y, m).value;
      assert !Collides(H, WalkInput(H, p, index, x, m), WalkInput(H, q, index, y, m));
      StepInputInjective(index, 255 - m,
                         a, if Bit(p.collapsed, 255 - m) then CachedZero(H, m) else p.hashes[i],
                         b, if Bit(q.collapsed, 255 - m) then CachedZero(H, m) else q.hashes[j]);
      BindingFrom(H, index, p, x, q, y, m);
    }
  }

  /** Against any root at all, one index has one 32-byte leaf, or the two proofs exhibit a collision. */
  lemma PositionBinding(H: HashFn, index: Index, root: Bytes, p: Proof, x: Bytes, q: Proof, y: Bytes)
    requires |x| == 32 && |y| == 32
    requires Verifies(H, p, index, x, root) && Verifies(H, q, index, y, root)
    ensures x == y || CollisionBetween(H, index, p, x, q, y)
  {
    if !CollisionBetween(H, index, p, x, q, y) {
      BindingFrom(H, index, p, x, q, y, 256);
    }
  }
}
