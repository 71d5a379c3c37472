/**
 * The bottom-up proof walk of the path-compressed tree, as a step machine, and its agreement
 * with the top-down definition of the tree in `SmtSpec`.
 */
module SmtWalk {
  import opened Bits
  import opened Hashing
  import opened SmtSpec

  /** Bit `d` of `converge` set: the path has a sibling at depth `d`. `hashes` run leaf to root. */
  datatype SMTProof = SMTProof(converge: nat, hashes: seq<Bytes>)

  /** Having climbed to depth `e`: the hash so far, the pads still to be applied to it, and what is left. */
  datatype State = State(e: Depth, hash: Bytes, left: Bytes, right: Bytes, remaining: nat, hashes: seq<Bytes>) {
    predicate Merges() { e > 0 && Bit(remaining, e - 1) }
  }

  function Start(proof: SMTProof, candidate: Bytes): State {
    State(256, candidate, [], [], proof.converge, proof.hashes)
  }

  function PaddedHash(H: HashFn, s: State): Bytes {
    Padded(H, s.left, s.hash, s.right)
  }

  function MergeInput(H: HashFn, index: nat, s: State): Bytes
    requires s.Merges() && s.hashes != []
  {
    if At(index, s.e - 1) then s.hashes[0] + PaddedHash(H, s) else PaddedHash(H, s) + s.hashes[0]
  }

  /** One level up; `None` when a sibling is due and the list has run out. */
  function Next(H: HashFn, index: nat, s: State): Option<State>
    requires s.e > 0
  {
    var d := s.e - 1;
    if s.Merges() then
      if s.hashes == [] then None
      else Some(State(d, H(MergeInput(H, index, s)), [], [], ClearBit(s.remaining, d), s.hashes[1..]))
    else if At(index, d) then Some(s.(e := d, left := [d as Byte] + s.left))
    else Some(s.(e := d, right := s.right + [d as Byte]))
  }

  /** Climb to the root. */
  function Climb(H: HashFn, index: nat, s: State): Option<State>
    ensures Climb(H, index, s).Some? ==> Climb(H, index, s).value.e == 0
    decreases s.e
  {
    if s.e == 0 then Some(s) else
    match Next(H, index, s)
    case None => None
    case Some(t) => Climb(H, index, t)
  }

  /** The walk ends at `root` with every sibling used. */
  predicate Reaches(H: HashFn, index: nat, s: State, root: Bytes) {
    match Climb(H, index, s)
    case None => false
    case Some(t) => t.hashes == [] && HashesEqual(PaddedHash(H, t), root)
  }

  predicate IsValid(H: HashFn, proof: SMTProof, index: nat, candidate: Bytes, root: Bytes) {
    Reaches(H, index, Start(proof, candidate), root)
  }

  // ----- The walk depends on few bits

  lemma {:induction false} ClimbDependsOnIndex(H: HashFn, i: nat, j: nat, s: State)
    requires SameBits(i, j, 0, s.e)
    ensures Climb(H, i, s) == Climb(H, j, s)
    decreases s.e
  {
    if s.e > 0 {
      assert At(i, s.e - 1) == At(j, s.e - 1);
      var t := Next(H, i, s);
      assert t == Next(H, j, s);
      if t.Some? { ClimbDependsOnIndex(H, i, j, t.value); }
    }
  }

  /** Levels without a sibling only collect pads. */
  lemma {:induction false} ClimbSkips(H: HashFn, index: nat, hash: Bytes, b: Depth, e: Depth, d: Depth,
                                      remaining: nat, hashes: seq<Bytes>)
    requires d <= e <= b
    requires forall k :: d <= k < e ==> !Bit(remaining, k)
    ensures Climb(H, index, State(e, hash, LeftPad(index, e, b), RightPad(index, e, b), remaining, hashes))
         == Climb(H, index, State(d, hash, LeftPad(index, d, b), RightPad(index, d, b), remaining, hashes))
    decreases e - d
  {
    if d < e {
      var s := State(e, hash, LeftPad(index, e, b), RightPad(index, e, b), remaining, hashes);
      var t := State(e - 1, hash, LeftPad(index, e - 1, b), RightPad(index, e - 1, b), remaining, hashes);
      assert [] + s.left == s.left && s.right + [] == s.right;
      assert Next(H, index, s) == Some(t);
      ClimbSkips(H, index, hash, b, e - 1, d, remaining, hashes);
    }
  }

  // ----- Agreement of the top-down builder with the bottom-up walk

  /** The bitmap has, at depths `[d, 256)`, exactly the siblings on the path to `index`. */
  ghost predicate ConvergeBits(S: set<Index>, d: Depth, index: Index, converge: nat)
    requires index in S
  {
    forall k :: d <= k < 256 ==> (Bit(converge, k) <==> Converges(S, d, index, k))
  }

  /** The state in which the walk stands below depth `d`, with `S` hashed and the pads pending. */
  ghost function AtSubtree(H: HashFn, hs: Hashes, S: set<Index>, d: Depth, index: Index, remaining: nat,
                           rest: seq<Bytes>)
    : State
    requires index in S && S <= hs.Keys
  {
    var b := BranchDepth(S, d);
    State(d, CoreHash(H, hs, S, b), LeftPad(index, d, b), RightPad(index, d, b), remaining, rest)
  }

  lemma PaddedAtSubtree(H: HashFn, hs: Hashes, S: set<Index>, d: Depth, index: Index, remaining: nat, rest: seq<Bytes>)
    requires index in S && S <= hs.Keys
    ensures PaddedHash(H, AtSubtree(H, hs, S, d, index, remaining, rest)) == RefHash(H, hs, S, d)
  {
    SharedToBranch(S, d);
    assert SameBits(index, AnyOf(S), d, BranchDepth(S, d));
    PadsDependOnBits(index, AnyOf(S), d, BranchDepth(S, d));
  }

  ghost predicate ClearedFrom(converge: nat, remaining: nat, d: Depth) {
    forall k: nat :: Bit(remaining, k) == (Bit(converge, k) && !(d <= k < 256))
  }

  lemma ConvergeBitsSide(S: set<Index>, d: Depth, index: Index, converge: nat)
    requires index in S && BranchDepth(S, d) < 256 && ConvergeBits(S, d, index, converge)
    ensures var b := BranchDepth(S, d);
            && Bit(converge, b)
            && (forall k :: d <= k < b ==> !Bit(converge, k))
            && ConvergeBits(Side(S, b, At(index, b)), b + 1, index, converge)
  {
    var b := BranchDepth(S, d);
    var T := Side(S, b, At(index, b));
    forall k | d <= k < 256 ensures Converges(S, d, index, k) <==> k == b || (k > b && Converges(T, b + 1, index, k)) {
      if Converges(T, b + 1, index, k) { ConvergesBelow(T, b + 1, index, k); }
    }
  }

  /**
   * The walk with the true leaf and the issued siblings climbs from the leaf to the state
   * `AtSubtree`, for every subtree on its path.
   */
  lemma {:induction false} ClimbToSubtree(H: HashFn, hs: Hashes, S: set<Index>, d: Depth, index: Index, converge: nat,
                                          rest: seq<Bytes>)
    returns (remaining: nat)
    requires index in S && S <= hs.Keys && SharePrefix(S, d)
    requires ConvergeBits(S, d, index, converge)
    ensures ClearedFrom(converge, remaining, d)
    ensures Climb(H, index, Start(SMTProof(converge, ProofHashes(H, hs, S, d, index) + rest), hs[index]))
         == Climb(H, index, AtSubtree(H, hs, S, d, index, remaining, rest))
    decreases 256 - d
  {
    var b := BranchDepth(S, d);
    if b == 256 {
      remaining := converge;
      ClimbLeaf(H, hs, S, d, index, converge, rest);
    } else {
      hide Climb, Next, Bit, Pow2, CoreHash, RefHash;
      ConvergeBitsSide(S, d, index, converge);
      SideShares(S, d, At(index, b));
      var T, sibling := Side(S, b, At(index, b)), RefHash(H, hs, Side(S, b, !At(index, b)), b + 1);
      var rem := ClimbToSubtree(H, hs, T, b + 1, index, converge, [sibling] + rest);
      ConcatAssoc(ProofHashes(H, hs, T, b + 1, index), [sibling], rest);
      remaining := ClimbFromBranch(H, hs, S, d, index, converge, rem, rest);
      hide AtSubtree, ClearedFrom, Side, BranchDepth;
    }
  }

  /** From below a branch the walk goes through the merge and on to depth `d`. */
  lemma ClimbFromBranch(H: HashFn, hs: Hashes, S: set<Index>, d: Depth, index: Index, converge: nat, rem: nat,
                        rest: seq<Bytes>)
    returns (remaining: nat)
    requires index in S && S <= hs.Keys && SharePrefix(S, d) && BranchDepth(S, d) < 256
    requires ConvergeBits(S, d, index, converge) && ClearedFrom(converge, rem, BranchDepth(S, d) + 1)
    ensures ClearedFrom(converge, remaining, d)
    ensures var b := BranchDepth(S, d);
            var T, sibling := Side(S, b, At(index, b)), RefHash(H, hs, Side(S, b, !At(index, b)), b + 1);
            Climb(H, index, AtSubtree(H, hs, T, b + 1, index, rem, [sibling] + rest))
            == Climb(H, index, AtSubtree(H, hs, S, d, index, remaining, rest))
  {
    hide Climb, Next, Pow2, CoreHash, RefHash;
    var b := BranchDepth(S, d);
    ConvergeBitsSide(S, d, index, converge);
    var T, sibling := Side(S, b, At(index, b)), RefHash(H, hs, Side(S, b, !At(index, b)), b + 1);
    remaining := MergeAtBranch(H, hs, S, d, index, converge, rem, rest);
    ClimbNext(H, index, AtSubtree(H, hs, T, b + 1, index, rem, [sibling] + rest));
    assert forall k :: d <= k < b ==> !Bit(remaining, k);
    hide Bit;
    ClimbSkips(H, index, CoreHash(H, hs, S, b), b, b, d, remaining, rest);
  }

  lemma ClimbNext(H: HashFn, index: nat, s: State)
    requires s.e > 0 && Next(H, index, s).Some?
    ensures Climb(H, index, s) == Climb(H, index, Next(H, index, s).value)
  {
  }

  /** A subtree of one leaf: the walk only collects pads. */
  lemma ClimbLeaf(H: HashFn, hs: Hashes, S: set<Index>, d: Depth, index: Index, converge: nat, rest: seq<Bytes>)
    requires index in S && S <= hs.Keys && SharePrefix(S, d) && BranchDepth(S, d) == 256
    requires ConvergeBits(S, d, index, converge)
    ensures ClearedFrom(converge, converge, d)
    ensures Climb(H, index, Start(SMTProof(converge, ProofHashes(H, hs, S, d, index) + rest), hs[index]))
         == Climb(H, index, AtSubtree(H, hs, S, d, index, converge, rest))
  {
    hide Climb, Bit, Pow2;
    OneMember(S, d, index);
    assert [] + rest == rest;
    ClimbSkips(H, index, hs[index], 256, 256, d, converge, rest);
  }

  /** At the branch the walk merges the two sides into the branch's own hash. */
  lemma MergeAtBranch(H: HashFn, hs: Hashes, S: set<Index>, d: Depth, index: Index, converge: nat, rem: nat,
                      rest: seq<Bytes>)
    returns (remaining: nat)
    requires index in S && S <= hs.Keys
    requires BranchDepth(S, d) < 256 && Bit(converge, BranchDepth(S, d))
    requires ClearedFrom(converge, rem, BranchDepth(S, d) + 1)
    ensures ClearedFrom(converge, remaining, BranchDepth(S, d))
    ensures var b := BranchDepth(S, d);
            var T, sibling := Side(S, b, At(index, b)), RefHash(H, hs, Side(S, b, !At(index, b)), b + 1);
            && Next(H, index, AtSubtree(H, hs, T, b + 1, index, rem, [sibling] + rest))
               == Some(State(b, CoreHash(H, hs, S, b), LeftPad(index, b, b), RightPad(index, b, b), remaining, rest))
  {
    hide Pow2;
    var b := BranchDepth(S, d);
    var T, sibling := Side(S, b, At(index, b)), RefHash(H, hs, Side(S, b, !At(index, b)), b + 1);
    var s := AtSubtree(H, hs, T, b + 1, index, rem, [sibling] + rest);
    remaining := ClearBit(rem, b);
    forall k: nat ensures Bit(remaining, k) == (Bit(converge, k) && !(b <= k < 256)) { BitClearBit(rem, b, k); }
    assert s.Merges();
    assert ([sibling] + rest)[1..] == rest;
    PaddedAtSubtree(H, hs, T, b + 1, index, rem, [sibling] + rest);
    assert H(MergeInput(H, index, s)) == CoreHash(H, hs, S, b);
  }

  /** The proof the tree issues for `index`. */
  ghost predicate IsIssued(H: HashFn, hs: Hashes, index: Index, proof: SMTProof) {
    && index in hs.Keys
    && proof.converge < Pow2(256)
    && ConvergeBits(hs.Keys, 0, index, proof.converge)
    && proof.hashes == ProofHashes(H, hs, hs.Keys, 0, index)
  }

  /** Every issued proof validates its own leaf against the root. */
  lemma IssuedProofIsValid(H: HashFn, hs: Hashes, index: Index, proof: SMTProof)
    requires IsIssued(H, hs, index, proof)
    ensures IsValid(H, proof, index, hs[index], RefRoot(H, hs))
  {
    var remaining := ClimbToSubtree(H, hs, hs.Keys, 0, index, proof.converge, []);
    assert proof.hashes + [] == proof.hashes;
    PaddedAtSubtree(H, hs, hs.Keys, 0, index, remaining, []);
  }

  /** Number of set bits at depths `[d, 256)`. */
  function SetBits(converge: nat, d: Depth): nat
    decreases 256 - d, converge
  {
    if d == 256 then 0 else (if Bit(converge, d) then 1 else 0) + SetBits(converge, d + 1)
  }

  lemma {:induction false} NoSetBits(converge: nat, d: Depth, e: Depth)
    requires d <= e && forall k :: d <= k < e ==> !Bit(converge, k)
    ensures SetBits(converge, d) == SetBits(converge, e)
    decreases e - d
  {
    if d < e { NoSetBits(converge, d + 1, e); }
  }

  /** An issued proof carries one sibling for each set bit. */
  lemma {:induction false} SiblingCount(H: HashFn, hs: Hashes, S: set<Index>, d: Depth, index: Index, converge: nat)
    requires index in S && S <= hs.Keys && ConvergeBits(S, d, index, converge)
    ensures |ProofHashes(H, hs, S, d, index)| == SetBits(converge, d)
    decreases 256 - d
  {
    hide RefHash;
    var b := BranchDepth(S, d);
    if b == 256 {
      NoSetBits(converge, d, 256);
    } else {
      ConvergeBitsSide(S, d, index, converge);
      SiblingCount(H, hs, Side(S, b, At(index, b)), b + 1, index, converge);
      NoSetBits(converge, d, b);
    }
  }
}
