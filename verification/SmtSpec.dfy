/**
 * The path-compressed sparse Merkle tree as a function of its contents alone: a finite set of
 * 256-bit indexes and a hash for each. Depth 0 is the root and the most significant bit.
 */
module SmtSpec {
  import opened Bits
  import opened Hashing

  type Depth = d: nat | d <= 256

  /** `(index & BITS[d]) !== 0`: whether `index` goes right at depth `d`. */
  predicate At(index: nat, d: nat)
    requires d < 256
  {
    Bit(index, 255 - d)
  }

  /** The members of `S` on one side at depth `d`. */
  ghost function Side(S: set<Index>, d: nat, right: bool): set<Index>
    requires d < 256
  {
    set i | i in S && At(i, d) == right
  }

  /** Same bits at all depths in `[from, to)`. */
  predicate SameBits(i: nat, j: nat, from: nat, to: Depth) {
    forall k :: from <= k < to ==> At(i, k) == At(j, k)
  }

  /** All members share their first `d` bits. */
  ghost predicate SharePrefix(S: set<Index>, d: Depth) {
    forall i, j :: i in S && j in S ==> SameBits(i, j, 0, d)
  }

  /** First depth at or below `d` where the members part; 256 when they never do. */
  ghost function BranchDepth(S: set<Index>, d: Depth): (b: Depth)
    ensures d <= b
    ensures b < 256 ==> Side(S, b, false) != {} && Side(S, b, true) != {}
    decreases 256 - d, S
  {
    if d == 256 then 256
    else if Side(S, d, false) != {} && Side(S, d, true) != {} then d
    else BranchDepth(S, d + 1)
  }

  /** Depth bytes of the levels skipped in `[d, b)` where the path goes right, ascending. */
  function LeftPad(index: nat, d: nat, b: Depth): Bytes
    requires d <= b
    decreases b - d, index
  {
    if d == b then [] else (if At(index, d) then [d as Byte] else []) + LeftPad(index, d + 1, b)
  }

  /** Depth bytes of the levels skipped in `[d, b)` where the path goes left, descending. */
  function RightPad(index: nat, d: nat, b: Depth): Bytes
    requires d <= b
    decreases b - d, index
  {
    if d == b then [] else RightPad(index, d + 1, b) + (if At(index, d) then [] else [d as Byte])
  }

  /** One pad byte for each skipped level. */
  lemma {:induction false} PadLengths(index: nat, d: nat, b: Depth)
    requires d <= b
    ensures |LeftPad(index, d, b)| + |RightPad(index, d, b)| == b - d
    decreases b - d
  {
    if d < b { PadLengths(index, d + 1, b); }
  }

  /** `blockHash(leftPad, hash, rightPad)`, skipped when there is nothing to pad. */
  function Padded(H: HashFn, left: Bytes, hash: Bytes, right: Bytes): Bytes {
    if left == [] && right == [] then hash else H(left + hash + right)
  }

  ghost function AnyOf(S: set<Index>): (i: Index)
    requires S != {}
    ensures i in S
  {
    var i :| i in S; i
  }

  type Hashes = map<Index, Digest>

  /** Hash of the node where the members of `S` part, before padding. */
  ghost function CoreHash(H: HashFn, hs: Hashes, S: set<Index>, b: Depth): Digest
    requires S != {} && S <= hs.Keys
    requires b < 256 ==> Side(S, b, false) != {} && Side(S, b, true) != {}
    decreases 256 - b, 0, S
  {
    if b == 256 then hs[AnyOf(S)]
    else Hash2(H, RefHash(H, hs, Side(S, b, false), b + 1), RefHash(H, hs, Side(S, b, true), b + 1))
  }

  /** Hash of the members of `S` as seen from depth `d`, which they all share. */
  ghost function RefHash(H: HashFn, hs: Hashes, S: set<Index>, d: Depth): Digest
    requires S != {} && S <= hs.Keys
    decreases 256 - d, 1, S
  {
    var b := BranchDepth(S, d);
    var h: Digest := Padded(H, LeftPad(AnyOf(S), d, b), CoreHash(H, hs, S, b), RightPad(AnyOf(S), d, b));
    h
  }

  /** The finalized root: the null hash for an empty tree. */
  ghost function RefRoot(H: HashFn, hs: Hashes): Digest {
    if hs.Keys == {} then NullHash() else RefHash(H, hs, hs.Keys, 0)
  }

  /** Sibling hashes on the way from `index` up to depth `d`, leaf to root. */
  ghost function ProofHashes(H: HashFn, hs: Hashes, S: set<Index>, d: Depth, index: Index): seq<Digest>
    requires S <= hs.Keys && index in S
    decreases 256 - d, S
  {
    var b := BranchDepth(S, d);
    if b == 256 then [] else
    ProofHashes(H, hs, Side(S, b, At(index, b)), b + 1, index) + [RefHash(H, hs, Side(S, b, !At(index, b)), b + 1)]
  }

  /** Whether the path to `index` below depth `d` has a sibling at depth `k`. */
  ghost predicate Converges(S: set<Index>, d: Depth, index: Index, k: nat)
    requires index in S
    decreases 256 - d, S
  {
    var b := BranchDepth(S, d);
    b < 256 && (k == b || Converges(Side(S, b, At(index, b)), b + 1, index, k))
  }

  lemma {:induction false} ConvergesBelow(S: set<Index>, d: Depth, index: Index, k: nat)
    requires index in S && Converges(S, d, index, k)
    ensures d <= k < 256
    decreases 256 - d
  {
    var b := BranchDepth(S, d);
    if k != b { ConvergesBelow(Side(S, b, At(index, b)), b + 1, index, k); }
  }

  // ----- What is hashed, spelled out

  predicate Rises(p: Bytes) { forall j, k :: 0 <= j < k < |p| ==> p[j] < p[k] }

  predicate Falls(p: Bytes) { forall j, k :: 0 <= j < k < |p| ==> p[j] > p[k] }

  /** The bytes of a pad are exactly the depths in `[d, b)` at which the path turns to one side. */
  predicate TurnsIn(p: Bytes, index: nat, d: nat, b: Depth, right: bool) {
    forall x: Byte :: x in p <==> d <= x as nat < b && At(index, x as nat) == right
  }

  /** The pads on the left are the depths at which the path goes right, in ascending order. */
  lemma {:induction false} LeftPadIs(index: nat, d: nat, b: Depth)
    requires d <= b
    ensures Rises(LeftPad(index, d, b)) && TurnsIn(LeftPad(index, d, b), index, d, b, true)
    decreases b - d
  {
    if d < b {
      LeftPadIs(index, d + 1, b);
      var first: Bytes := if At(index, d) then [d as Byte] else [];
      AddTurn(first, LeftPad(index, d + 1, b), index, d, b, true);
    }
  }

  /** ... and those on the right the depths at which it goes left, in descending order. */
  lemma {:induction false} RightPadIs(index: nat, d: nat, b: Depth)
    requires d <= b
    ensures Falls(RightPad(index, d, b)) && TurnsIn(RightPad(index, d, b), index, d, b, false)
    decreases b - d
  {
    if d < b {
      RightPadIs(index, d + 1, b);
      var last: Bytes := if At(index, d) then [] else [d as Byte];
      AddTurn(last, RightPad(index, d + 1, b), index, d, b, false);
    }
  }

  /** The pad of one level more, added in front or at the end. */
  lemma AddTurn(one: Bytes, rest: Bytes, index: nat, d: nat, b: Depth, right: bool)
    requires d < b && one == (if At(index, d) == right then [d as Byte] else [])
    requires TurnsIn(rest, index, d + 1, b, right)
    ensures TurnsIn(one + rest, index, d, b, right) && TurnsIn(rest + one, index, d, b, right)
    ensures Rises(rest) ==> Rises(one + rest)
    ensures Falls(rest) ==> Falls(rest + one)
  {
    forall k | 0 <= k < |rest| ensures d < rest[k] as nat { assert rest[k] in rest; }
    forall x: Byte
      ensures x in one + rest <==> d <= x as nat < b && At(index, x as nat) == right
      ensures x in rest + one <==> d <= x as nat < b && At(index, x as nat) == right
    {
      assert x in one + rest <==> x in one || x in rest;
      assert x in rest + one <==> x in one || x in rest;
    }
  }

  /** A subtree of one leaf: its hash between the pads of all the levels below `d`. */
  lemma OneLeafHash(H: HashFn, hs: Hashes, i: Index, d: Depth)
    requires i in hs && d < 256
    ensures RefHash(H, hs, {i}, d) == H(LeftPad(i, d, 256) + hs[i] + RightPad(i, d, 256))
  {
    OneBranch(i, d);
    PadLengths(i, d, 256);
    hide LeftPad, RightPad, BranchDepth;
    assert AnyOf({i}) == i;
  }

  lemma {:induction false} OneBranch(i: Index, d: Depth)
    ensures BranchDepth({i}, d) == 256
  {
    BranchIs({i}, d, 256);
  }

  /** The empty tree's root is 32 zero bytes. */
  lemma EmptyRoot(H: HashFn)
    ensures RefRoot(H, map[]) == ZeroBytes(32)
  {
    var none: Hashes := map[];
    assert none.Keys == {};
  }

  /** The tree of one leaf. */
  lemma RootOfOne(H: HashFn, i: Index, h: Digest)
    ensures RefRoot(H, map[i := h]) == H(LeftPad(i, 0, 256) + h + RightPad(i, 0, 256))
  {
    hide LeftPad, RightPad, RefHash;
    var hs: Hashes := map[i := h];
    assert hs.Keys == {i};
    OneLeafHash(H, hs, i, 0);
  }

  /** Two leaves on either side of the middle: the lower index is on the left. */
  lemma RootOfTwo(H: HashFn, i: Index, g: Digest, j: Index, h: Digest)
    requires i < Pow2(255) <= j
    ensures var l: Bytes, r: Bytes := H(LeftPad(i, 1, 256) + g + RightPad(i, 1, 256)),
                                      H(LeftPad(j, 1, 256) + h + RightPad(j, 1, 256));
            RefRoot(H, map[i := g, j := h]) == H(l + r)
  {
    hide LeftPad, RightPad, Pow2;
    var hs: Hashes := map[i := g, j := h];
    TopBit(i, 255);
    TopBit(j, 255);
    assert hs.Keys == {i, j};
    assert Side({i, j}, 0, false) == {i} && Side({i, j}, 0, true) == {j};
    BranchIs({i, j}, 0, 0);
    OneLeafHash(H, hs, i, 1);
    OneLeafHash(H, hs, j, 1);
    hide BranchDepth;
    TwoHash(H, hs, i, j);
  }

  lemma TwoHash(H: HashFn, hs: Hashes, i: Index, j: Index)
    requires hs.Keys == {i, j} && BranchDepth({i, j}, 0) == 0
    requires Side({i, j}, 0, false) == {i} && Side({i, j}, 0, true) == {j}
    ensures RefRoot(H, hs) == Hash2(H, RefHash(H, hs, {i}, 1), RefHash(H, hs, {j}, 1))
  {
    var S := {i, j};
    assert LeftPad(AnyOf(S), 0, 0) == [] && RightPad(AnyOf(S), 0, 0) == [];
    assert RefHash(H, hs, S, 0) == CoreHash(H, hs, S, 0);
  }

  // ----- Facts about branching

  lemma {:induction false} BranchShares(S: set<Index>, d: Depth, k: nat)
    requires d <= k < BranchDepth(S, d)
    ensures forall i, j :: i in S && j in S ==> At(i, k) == At(j, k)
    decreases 256 - d
  {
    if k == d {
      forall i, j | i in S && j in S ensures At(i, k) == At(j, k) {
        assert i in Side(S, d, At(i, d)) && j in Side(S, d, At(j, d));
      }
    } else {
      BranchShares(S, d + 1, k);
    }
  }

  /** Members of `S` share the bits between `d` and their branch. */
  lemma SharedToBranch(S: set<Index>, d: Depth)
    ensures forall i, j :: i in S && j in S ==> SameBits(i, j, d, BranchDepth(S, d))
  {
    forall i, j, k | i in S && j in S && d <= k < BranchDepth(S, d) ensures At(i, k) == At(j, k) {
      BranchShares(S, d, k);
    }
  }

  /** A branch is recognised by agreement above it and both sides occupied at it. */
  lemma {:induction false} BranchIs(S: set<Index>, d: Depth, b: Depth)
    requires d <= b && S != {}
    requires forall i, j :: i in S && j in S ==> SameBits(i, j, d, b)
    requires b < 256 ==> Side(S, b, false) != {} && Side(S, b, true) != {}
    ensures BranchDepth(S, d) == b
    decreases b - d
  {
    if d < b {
      if i, j :| i in Side(S, d, false) && j in Side(S, d, true) {
        assert false;
      }
      BranchIs(S, d + 1, b);
    }
  }

  lemma {:induction false} PadsDependOnBits(i: nat, j: nat, d: nat, b: Depth)
    requires d <= b && SameBits(i, j, d, b)
    ensures LeftPad(i, d, b) == LeftPad(j, d, b) && RightPad(i, d, b) == RightPad(j, d, b)
    decreases b - d
  {
    if d < b { PadsDependOnBits(i, j, d + 1, b); }
  }

  lemma SameIndex(i: Index, j: Index)
    requires SameBits(i, j, 0, 256)
    ensures i == j
  {
    forall k | 0 <= k < 256 ensures Bit(i, k) == Bit(j, k) { assert At(i, 255 - k) == At(j, 255 - k); }
    BitExtensional(i, j, 256);
  }

  /** A set that shares all 256 bits has one member. */
  lemma OneMember(S: set<Index>, d: Depth, i: Index)
    requires i in S && SharePrefix(S, d) && BranchDepth(S, d) == 256
    ensures S == {i}
  {
    SharedToBranch(S, d);
    forall j | j in S ensures j == i {
      assert SameBits(i, j, 0, d) && SameBits(i, j, d, 256);
      SameIndex(i, j);
    }
  }

  /** The two sides of a branch share one more bit. */
  lemma SideShares(S: set<Index>, d: Depth, right: bool)
    requires SharePrefix(S, d) && BranchDepth(S, d) < 256
    ensures SharePrefix(Side(S, BranchDepth(S, d), right), BranchDepth(S, d) + 1)
  {
    var b := BranchDepth(S, d);
    SharedToBranch(S, d);
    var T := Side(S, b, right);
    forall i, j | i in T && j in T ensures SameBits(i, j, 0, b + 1) {
      assert SameBits(i, j, 0, d) && SameBits(i, j, d, b);
    }
  }
}
