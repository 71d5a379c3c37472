/** The path-compressed sparse Merkle tree: building it, finalizing it, and handing out proofs. */
module OptimizedSmt {
  import opened Bits
  import opened Hashing
  import opened SmtSpec
  import opened SmtWalk
  import opened SmtNodes

  /** A JavaScript array of sibling hashes: shared by reference, changed in place. */
  class HashList {
    var items: seq<Digest>

    constructor (items: seq<Digest>)
      ensures this.items == items
    {
      this.items := items;
    }

    method Unshift(h: Digest)
      modifies this
      ensures items == [h] + old(items)
    {
      items := [h] + items;
    }

    method Slice() returns (copy: HashList)
      ensures fresh(copy) && copy.items == items
    {
      copy := new HashList(items);
    }
  }

  /** A proof as the tree stores it: the bitmap, and a reference to the list of siblings. */
  datatype ProofRef = ProofRef(converge: nat, hashes: HashList)

  /**
   * The closure `saveProofs` of one finalize step, with what it captures: a leaf stores its
   * proof, a parent passes the list on to both sides.
   */
  datatype Saver =
    | SaveLeaf(index: Index, converge: nat)
    | SaveParent(leftHash: Digest, rightHash: Digest, left: Saver, right: Saver)

  /** Longest prefix of `xs` that `add` takes: indexes in range, new to the tree and to the batch. */
  function Accepted(keys: set<Index>, xs: seq<int>): (n: nat)
    ensures n <= |xs|
    ensures forall k :: 0 <= k < n ==> 0 <= xs[k] < Pow2(256)
    decreases |xs|
  {
    if xs == [] || !(0 <= xs[0] < Pow2(256)) || xs[0] in keys then 0
    else
      var i: Index := xs[0];
      1 + Accepted(keys + {i}, xs[1..])
  }

  /** The indexes of a batch. */
  ghost function Members(xs: seq<int>): (s: set<Index>)
    requires forall k :: 0 <= k < |xs| ==> 0 <= xs[k] < Pow2(256)
    ensures forall i: Index :: i in s <==> i in xs
  {
    if xs == [] then {} else
    var i: Index := xs[0];
    {i} + Members(xs[1..])
  }

  lemma {:induction false} AcceptedStep(keys: set<Index>, xs: seq<int>, k: nat)
    requires k <= Accepted(keys, xs)
    ensures Accepted(keys, xs) == k + Accepted(keys + Members(xs[..k]), xs[k..])
    decreases k
  {
    if k == 0 {
      assert keys + {} == keys && xs[0..] == xs && xs[..0] == [];
    } else {
      var i: Index := xs[0];
      AcceptedStep(keys + {i}, xs[1..], k - 1);
      assert xs[1..][..k - 1] == xs[..k][1..] && xs[1..][k - 1..] == xs[k..];
      assert keys + {i} + Members(xs[1..][..k - 1]) == keys + Members(xs[..k]);
    }
  }

  /** `add` stops at position `k` exactly when `Accepted` says so. */
  lemma AcceptedNext(keys: set<Index>, xs: seq<int>, k: nat)
    requires k < |xs| && k <= Accepted(keys, xs)
    ensures Accepted(keys, xs) == k <==> !(0 <= xs[k] < Pow2(256)) || xs[k] in keys + Members(xs[..k])
    ensures 0 <= xs[k] < Pow2(256) && k < Accepted(keys, xs) ==>
              keys + Members(xs[..k + 1]) == keys + Members(xs[..k]) + {xs[k]}
  {
    hide Pow2;
    AcceptedStep(keys, xs, k);
    assert xs[k..][0] == xs[k];
    hide Members;
    if 0 <= xs[k] < Pow2(256) && k < Accepted(keys, xs) {
      assert xs[..k + 1] == xs[..k] + [xs[k]];
      assert Members(xs[..k + 1]) == Members(xs[..k]) + {xs[k]};
    }
  }

  /** A batch is taken whole exactly when it is in range, without repeats, and new. */
  lemma {:induction false} AcceptedAll(keys: set<Index>, xs: seq<int>)
    ensures Accepted(keys, xs) == |xs|
       <==> (forall k :: 0 <= k < |xs| ==> 0 <= xs[k] < Pow2(256) && xs[k] !in keys)
            && (forall j, k :: 0 <= j < k < |xs| ==> xs[j] != xs[k])
    decreases |xs|
  {
    hide Pow2;
    if xs != [] {
      if 0 <= xs[0] < Pow2(256) && xs[0] !in keys {
        var i: Index := xs[0];
        AcceptedAll(keys + {i}, xs[1..]);
        if Accepted(keys, xs) == |xs| {
          forall k | 0 < k < |xs| ensures 0 <= xs[k] < Pow2(256) && xs[k] !in keys && xs[k] != xs[0] {
            assert xs[1..][k - 1] == xs[k];
          }
          forall j, k | 0 <= j < k < |xs| ensures xs[j] != xs[k] {
            if j > 0 { assert xs[1..][j - 1] == xs[j] && xs[1..][k - 1] == xs[k]; }
          }
        }
      } else {
        assert Accepted(keys, xs) == 0;
      }
    }
  }

  /** Where a descent for an index of the tree goes next. */
  lemma StepKnown(v: View, root: Node, parent: Node?, node: Node, index: Index) returns (child: Node)
    requires Shape(v) && Edge(v, root, parent, node, index) && index in v[node].leaves && !node.isLeaf
    ensures child == Toward(v, node, At(index, node.depth))
    ensures Edge(v, root, node, child, index) && index in v[child].leaves && v[child].leaves <= v[node].leaves
  {
    hide SameBits;
    assert NodeOk(v, node);
    child := ChildFacts(v, node, index);
  }

  /** At equal bits down to a leaf's depth the index is the leaf's. */
  lemma LeafReached(v: View, node: Node, index: Index)
    requires node in v && NodeOk(v, node) && node.isLeaf
    requires forall i :: i in v[node].leaves ==> SameBits(index, i, 0, 256)
    ensures index == node.index && index in v[node].leaves
  {
    assert node.index in v[node].leaves;
    SameIndex(index, node.index);
  }

  /** Bits that the node shares with all below it. */
  lemma NodeBit(v: View, node: Node, i: Index, d: nat)
    requires node in v && NodeOk(v, node) && i in v[node].leaves && d < node.depth
    ensures At(node.index, d) == At(i, d)
  {
    assert SameBits(i, node.index, 0, node.depth);
  }

  lemma NodeOkOnEdge(v: View, root: Node, parent: Node?, node: Node, index: Index, isNew: bool)
    requires Edge(v, root, parent, node, index)
    requires if isNew then Descending(v, parent, node, index) else Shape(v)
    ensures NodeOk(v, node) && (node.isLeaf <==> node.depth == 256)
    ensures parent != null ==> LinksOk(v, parent)
    ensures isNew ==> index !in v[node].leaves
  {
    if parent != null && !isNew { assert NodeOk(v, parent); }
  }

  /** Bits at and above `d` are those of `index`, the rest are clear: the code's `commonIndex`. */
  ghost predicate CommonPrefix(common: Index, index: Index, d: Depth) {
    SameBits(common, index, 0, d) && forall k :: d <= k < 256 ==> !At(common, k)
  }

  function OrBit(common: Index, index: Index, d: nat): Index
    requires d < 256
  {
    SetBitBound(common, 255 - d, 256);
    if At(index, d) then SetBit(common, 255 - d) else common
  }

  lemma CommonPrefixStep(common: Index, index: Index, d: nat)
    requires d < 256 && CommonPrefix(common, index, d)
    ensures CommonPrefix(OrBit(common, index, d), index, d + 1)
  {
    if At(index, d) {
      forall k | 0 <= k < 256 ensures At(OrBit(common, index, d), k) == (k == d || At(common, k)) {
        BitSetBit(common, 255 - d, 255 - k);
      }
    }
  }

  lemma CommonPrefixZero(index: Index)
    ensures CommonPrefix(0, index, 0)
  {
    forall k | 0 <= k < 256 ensures !At(0, k) { BitZero(255 - k); }
  }

  /** The bit agrees with all below the node, so the shared prefix grows by one. */
  lemma PrefixGrows(v: View, node: Node, index: Index, d: nat)
    requires node in v && NodeOk(v, node) && d < node.depth && At(node.index, d) == At(index, d)
    requires forall i :: i in v[node].leaves ==> SameBits(index, i, 0, d)
    ensures forall i :: i in v[node].leaves ==> SameBits(index, i, 0, d + 1)
  {
    forall i | i in v[node].leaves ensures SameBits(index, i, 0, d + 1) {
      NodeBit(v, node, i, d);
      assert SameBits(index, i, 0, d);
    }
  }

  /** Where the bits part the index is new, and the parent lies strictly above. */
  lemma PartingPoint(v: View, root: Node, parent: Node?, node: Node, index: Index, d: nat)
    requires Edge(v, root, parent, node, index) && NodeOk(v, node) && d < node.depth
    requires At(node.index, d) != At(index, d)
    requires parent != null ==> LinksOk(v, parent) && parent.depth <= d
    ensures index !in v[node].leaves
    ensures forall i :: i in v[node].leaves ==> At(i, d) != At(index, d)
    ensures parent != null ==> parent.depth < d
  {
    forall i | i in v[node].leaves ensures At(i, d) == At(node.index, d) { NodeBit(v, node, i, d); }
    if parent != null {
      var i :| i in v[node].leaves;
      assert ChildOk(v, parent, node, At(index, parent.depth));
      assert At(i, parent.depth) == At(index, parent.depth);
    }
  }

  lemma EmptyMembers(xs: seq<int>)
    ensures Members(xs[..0]) == {}
  {
  }

  lemma AcceptedBound(keys: set<Index>, xs: seq<int>)
    ensures Accepted(keys, xs) <= |xs|
    ensures forall k :: 0 <= k < Accepted(keys, xs) ==> 0 <= xs[k] < Pow2(256)
  {
  }

  // ----- What finalizing hands on

  /** `parentConverge | BITS[256 - depth]`; the last entry of `BITS` is zero. */
  function Converged(parentConverge: nat, depth: Depth): nat {
    if depth == 0 then parentConverge else SetBit(parentConverge, depth - 1)
  }

  /** The closure holds, for the subtree `S` seen from `d`, the siblings' hashes and the bitmap so far. */
  ghost predicate Saves(H: HashFn, hs: Hashes, saver: Saver, S: set<Index>, d: Depth, converge: nat)
    decreases saver
  {
    && S != {} && S <= hs.Keys
    && var b := BranchDepth(S, d);
       match saver
       case SaveLeaf(index, c) => b == 256 && S == {index} && c == converge
       case SaveParent(lh, rh, l, r) =>
         && b < 256
         && lh == RefHash(H, hs, Side(S, b, false), b + 1) && rh == RefHash(H, hs, Side(S, b, true), b + 1)
         && Saves(H, hs, l, Side(S, b, false), b + 1, Converged(converge, b + 1))
         && Saves(H, hs, r, Side(S, b, true), b + 1, Converged(converge, b + 1))
  }

  /** The proof stored for `i`: its siblings below `d` in front of `rest`, and its bits added to `converge`. */
  ghost predicate Stored(H: HashFn, hs: Hashes, S: set<Index>, d: Depth, converge: nat, i: Index,
                         c: nat, items: seq<Digest>, rest: seq<Digest>)
  {
    && S <= hs.Keys && i in S
    && c < Pow2(256) && (forall k: nat :: Bit(c, k) <==> Bit(converge, k) || Converges(S, d, i, k))
    && items == ProofHashes(H, hs, S, d, i) + rest
  }

  lemma ConvergedBit(converge: nat, b: nat)
    requires b < 256
    ensures forall k: nat :: Bit(Converged(converge, b + 1), k) <==> k == b || Bit(converge, k)
    ensures converge < Pow2(256) ==> Converged(converge, b + 1) < Pow2(256)
  {
    forall k: nat ensures Bit(Converged(converge, b + 1), k) <==> k == b || Bit(converge, k) {
      BitSetBit(converge, b, k);
    }
    if converge < Pow2(256) { SetBitBound(converge, b, 256); }
  }

  /** A stored proof of one side is a stored proof of the whole, the other side's hash included. */
  lemma StoredUp(H: HashFn, hs: Hashes, S: set<Index>, d: Depth, converge: nat, i: Index,
                 c: nat, items: seq<Digest>, rest: seq<Digest>)
    requires S <= hs.Keys && i in S && BranchDepth(S, d) < 256
    requires var b := BranchDepth(S, d);
             var side, other := Side(S, b, At(i, b)), Side(S, b, !At(i, b));
             Stored(H, hs, side, b + 1, Converged(converge, b + 1), i, c, items, [RefHash(H, hs, other, b + 1)] + rest)
    ensures Stored(H, hs, S, d, converge, i, c, items, rest)
  {
    hide Pow2, RefHash, BranchDepth;
    var b := BranchDepth(S, d);
    ConvergedBit(converge, b);
    var side, other := Side(S, b, At(i, b)), RefHash(H, hs, Side(S, b, !At(i, b)), b + 1);
    assert ProofHashes(H, hs, side, b + 1, i) + ([other] + rest)
        == ProofHashes(H, hs, side, b + 1, i) + [other] + rest;
  }

  lemma IssuedFromStored(H: HashFn, hs: Hashes, i: Index, c: nat, items: seq<Digest>)
    requires Stored(H, hs, hs.Keys, 0, 0, i, c, items, [])
    ensures IsIssued(H, hs, i, SMTProof(c, items))
  {
    forall k: nat ensures !Bit(0, k) { BitZero(k); }
    assert items == ProofHashes(H, hs, hs.Keys, 0, i);
  }

  /** Every index below a node has its leaf node. */
  lemma {:induction false} LeafFor(v: View, n: Node, i: Index) returns (leaf: Node)
    requires n in v && Shape(v) && i in v[n].leaves
    ensures leaf in v && leaf.isLeaf && leaf.index == i
    decreases 256 - n.depth
  {
    hide Pow2, SameBits;
    assert NodeOk(v, n);
    if n.isLeaf {
      leaf := n;
    } else {
      leaf := LeafFor(v, if At(i, n.depth) then v[n].right else v[n].left, i);
    }
  }

  /** What a closure's shape says of the subtree it serves. */
  lemma SavesSides(H: HashFn, hs: Hashes, saver: Saver, S: set<Index>, d: Depth, converge: nat)
    requires Saves(H, hs, saver, S, d, converge) && converge < Pow2(256)
    ensures S <= hs.Keys
    ensures saver.SaveLeaf? ==>
              S == {saver.index}
              && forall rest :: Stored(H, hs, S, d, converge, saver.index, saver.converge, rest, rest)
    ensures saver.SaveParent? ==>
              var b := BranchDepth(S, d);
              && b < 256
              && var L, R, c := Side(S, b, false), Side(S, b, true), Converged(converge, b + 1);
                 && L !! R && S == L + R && c < Pow2(256)
                 && (forall i :: i in L ==> !At(i, b)) && (forall i :: i in R ==> At(i, b))
                 && L != {} && R != {} && L <= hs.Keys && R <= hs.Keys
                 && saver.leftHash == RefHash(H, hs, L, b + 1) && saver.rightHash == RefHash(H, hs, R, b + 1)
                 && Saves(H, hs, saver.left, L, b + 1, c) && Saves(H, hs, saver.right, R, b + 1, c)
  {
    hide RefHash;
    if saver.SaveParent? {
      ConvergedBit(converge, BranchDepth(S, d));
    } else {
      forall rest: seq<Digest> ensures [] + rest == rest {}
    }
  }

  /** The padding loop of `#finalizeStep`: depth bytes of the levels from `b - 1` up to `d`. */
  method DepthPads(index: nat, d: nat, b: Depth) returns (left: Bytes, right: Bytes)
    requires d <= b
    ensures left == LeftPad(index, d, b) && right == RightPad(index, d, b)
  {
    left, right := [], [];
    for i := b downto d
      invariant left == LeftPad(index, i, b) && right == RightPad(index, i, b)
    {
      if !At(index, i) { right := right + [i as Byte]; } else { left := [i as Byte] + left; }
    }
  }

  /** The low 256 bits of an integer. */
  function LowBits(i: int): (low: Index)
    ensures 0 <= i < Pow2(256) ==> low == i
  {
    hide Pow2;
    LowPart(i, 256)
  }

  class OptimizedSMT {
    const H: HashFn
    const allowNonInclusion: bool
    var root: Node?
    var rootHash: Option<Digest>
    var proofs: map<Index, ProofRef>

    /** The tree below the root, and the hashes set so far. */
    ghost var view: View
    ghost var hashes: Hashes

    ghost function Keys(): set<Index>
      requires root != null ==> root in view
      reads this`root, this`view
    {
      if root == null then {} else view[root].leaves
    }

    /** Each leaf node belongs to an index of the tree and carries the hash set for it, if any. */
    ghost predicate LeavesHold()
      requires root != null ==> root in view
      reads this`root, this`view, this`hashes, view.Keys`hash
    {
      forall n :: n in view && n.isLeaf ==>
        n.index in Keys() && n.hash == if n.index in hashes then Some(hashes[n.index]) else None
    }

    ghost predicate Built()
      reads this`root, this`view, this`hashes, view.Keys
    {
      && Tied(view) && Shape(view)
      && (root == null ==> view == map[])
      && (root != null ==> root in view && view[root].up == null)
      && hashes.Keys <= Keys()
      && LeavesHold()
    }

    constructor (H: HashFn, allowNonInclusion: bool)
      ensures this.H == H && this.allowNonInclusion == allowNonInclusion
      ensures Built() && Keys() == {} && hashes == map[] && rootHash == None && proofs == map[]
    {
      this.H, this.allowNonInclusion := H, allowNonInclusion;
      root, rootHash, proofs, view, hashes := null, None, map[], map[], map[];
    }

    /**
     * The inner loop of `add`: walk down to where `index` parts from the tree. Without a
     * duplicate it stops on the edge to be split, with the bits and the depth reached.
     */
    method Descend(index: Index)
      returns (duplicate: bool, parent: Node?, node: Node, commonIndex: Index, commonDepth: Depth, ghost v: View)
      requires Built() && root != null
      ensures duplicate <==> index in Keys()
      ensures !duplicate ==> Parting(view, v, root, parent, node, index, commonIndex, commonDepth)
    {
      hide Pow2, Shape, SameBits, Descending, NodeOk, LinksOk, LeavesHold;
      ghost var isNew := index !in Keys();
      v, parent, node, commonIndex, commonDepth := view, null, root, 0, 0;
      CommonPrefixZero(index);
      StartDescent(view, root, index);
      while true
        invariant Tied(v) && v.Keys == view.Keys && v[root].up == null
        invariant Edge(v, root, parent, node, index)
        invariant if isNew then Descending(v, parent, node, index) else v == view && index in v[node].leaves
        invariant commonDepth <= node.depth && (parent != null ==> parent.depth <= commonDepth)
        invariant CommonPrefix(commonIndex, index, commonDepth)
        invariant forall i :: i in v[node].leaves ==> SameBits(index, i, 0, commonDepth)
        invariant v[root].leaves == if isNew && parent != null then Keys() + {index} else Keys()
        decreases 512 - commonDepth - node.depth
      {
        NodeOkOnEdge(v, root, parent, node, index, isNew);
        if commonDepth == node.depth {
          if node.isLeaf {
            LeafReached(v, node, index);
            duplicate := true;
            return;
          }
          var isLeft := !At(index, commonDepth);
          ghost var child;
          if isNew {
            child := StepDown(v, root, parent, node, index);
            v := Count(v, node, index);
          } else {
            child := StepKnown(v, root, parent, node, index);
          }
          parent := node;
          node := if isLeft then node.left else node.right;
        } else if At(node.index, commonDepth) == At(index, commonDepth) {
          PrefixGrows(v, node, index, commonDepth);
          CommonPrefixStep(commonIndex, index, commonDepth);
          commonIndex, commonDepth := OrBit(commonIndex, index, commonDepth), commonDepth + 1;
        } else {
          PartingPoint(v, root, parent, node, index, commonDepth);
          duplicate := false;
          return;
        }
      }
    }

    /** One index of `add`, once the tree is not empty. */
    method Insert(index: Index) returns (duplicate: bool)
      requires Built() && root != null
      modifies this`root, this`view, view.Keys
      ensures Built() && root != null
      ensures fresh(view.Keys - old(view.Keys))
      ensures duplicate <==> index in old(Keys())
      ensures Keys() == old(Keys()) + {index}
    {
      hide Pow2, Tied, Shape, SameBits, Descending, LeavesHold, Edge;
      var leaf := new Node.Leaf(index);
      var parent, node, commonIndex, commonDepth;
      ghost var v;
      duplicate, parent, node, commonIndex, commonDepth, v := Descend(index);
      if duplicate { return; }
      var isLeft := !At(index, commonDepth);
      var fork := new Node.Parent(commonIndex, commonDepth,
                                  if isLeft then leaf else node, if isLeft then node else leaf);
      Graft(index, parent, node, leaf, fork, v);
    }

    /** The end of the loop: hang the new parent where the descent stopped. */
    method Graft(index: Index, parent: Node?, node: Node, leaf: Node, fork: Node, ghost v: View)
      requires Built() && root != null && index !in Keys()
      requires Parting(view, v, root, parent, node, index, fork.index, fork.depth)
      requires leaf !in view && fork !in view && leaf != fork
      requires leaf.isLeaf && leaf.index == index && leaf.depth == 256 && !fork.isLeaf
      requires leaf.hash == None && leaf.left == null && leaf.right == null
      requires fork.left == if At(index, fork.depth) then node else leaf
      requires fork.right == if At(index, fork.depth) then leaf else node
      modifies this`root, this`view, view.Keys
      ensures Built() && root != null
      ensures view.Keys == old(view.Keys) + {leaf, fork}
      ensures Keys() == old(Keys()) + {index}
    {
      hide Pow2, Shape, SameBits, Splice, Descending, LeavesHold, Edge;
      NewIndex(index);
      SpliceDone(view, v, root, parent, node, leaf, fork, index);
      ghost var w := Splice(v, parent, node, leaf, fork, index);
      ReplaceNode(parent, index, fork);
      TiedAgain(v, w, parent, node, leaf, fork, index);
      hide Parting, Tied;
      view := w;
      Regrown(v, old(Keys()), leaf, fork);
    }

    /** The closure `replaceNode`, for the edge on which the descent stands. */
    method ReplaceNode(parent: Node?, index: Index, fork: Node)
      requires parent != null ==> parent.depth < 256
      modifies this`root, if parent == null then {} else {parent}
      ensures root == if parent == null then fork else old(root)
      ensures parent != null ==>
                && parent.left == (if At(index, parent.depth) then old(parent.left) else fork)
                && parent.right == (if At(index, parent.depth) then fork else old(parent.right))
                && parent.hash == old(parent.hash)
    {
      if parent == null {
        root := fork;
      } else if At(index, parent.depth) {
        parent.right := fork;
      } else {
        parent.left := fork;
      }
    }

    /** The new snapshot shows the new pointers. */
    lemma TiedAgain(v: View, w: View, parent: Node?, node: Node, leaf: Node, fork: Node, index: Index)
      requires w.Keys == v.Keys + {leaf, fork} && fork.depth < 256
      requires leaf.left == w[leaf].left && leaf.right == w[leaf].right
      requires fork.left == w[fork].left && fork.right == w[fork].right
      requires parent != null && parent in v ==> parent.left == w[parent].left && parent.right == w[parent].right
      requires forall n :: n in v && n != parent ==> w[n].left == v[n].left && w[n].right == v[n].right
      requires forall n :: n in v && n != parent ==> n.left == v[n].left && n.right == v[n].right
      ensures Tied(w)
    {
    }

    lemma NewIndex(index: Index)
      requires Built() && root != null && index !in Keys()
      ensures forall n :: n in view && n.isLeaf ==> n.index != index
      ensures forall n :: n in view && n.isLeaf ==>
                n.index in Keys() && n.hash == if n.index in hashes then Some(hashes[n.index]) else None
    {
    }

    /** The leaves still hold after the two nodes joined. */
    lemma Regrown(before: View, keys: set<Index>, leaf: Node, fork: Node)
      requires root != null && root in view && view.Keys == before.Keys + {leaf, fork}
      requires Keys() == keys + {leaf.index} && leaf.index !in keys && hashes.Keys <= keys
      requires leaf.isLeaf && leaf.hash == None && !fork.isLeaf
      requires forall n :: n in before && n.isLeaf ==>
                 n.index in keys && n.hash == if n.index in hashes then Some(hashes[n.index]) else None
      ensures LeavesHold()
    {
    }

    // ----- States

    /** Holds between any two calls. */
    ghost predicate Valid()
      reads this, view.Keys
    {
      Built() && proofs.Keys <= Keys() && (rootHash == None ==> proofs == map[])
    }

    /** After `finalize`: the root is the reference root, and each index has its own list and its issued proof. */
    ghost predicate Finalized()
      reads this, view.Keys, set i | i in proofs :: proofs[i].hashes
    {
      && Built() && hashes.Keys == Keys() && rootHash == Some(RefRoot(H, hashes))
      && proofs.Keys == Keys()
      && (forall i :: i in proofs ==> IsIssued(H, hashes, i, SMTProof(proofs[i].converge, proofs[i].hashes.items)))
      && (forall i, j :: i in proofs && j in proofs && i != j ==> proofs[i].hashes != proofs[j].hashes)
    }

    // ----- `add`

    /** One index of `add`, in range. */
    method AddOne(index: Index) returns (duplicate: bool)
      requires Built()
      modifies this`root, this`view, view.Keys
      ensures Built()
      ensures fresh(view.Keys - old(view.Keys))
      ensures duplicate <==> index in old(Keys())
      ensures Keys() == old(Keys()) + {index}
    {
      if root == null {
        var leaf := new Node.Leaf(index);
        root := leaf;
        view := map[leaf := Cell(null, null, {index}, null)];
        duplicate := false;
      } else {
        duplicate := Insert(index);
      }
    }

    /** `add`: indexes in order, until one is out of range or already there. */
    method Add(indexes: seq<int>) returns (r: Result<()>)
      requires Valid()
      modifies this`root, this`view, view.Keys
      ensures Valid()
      ensures old(rootHash).Some? ==> r == Err("SMT already finalized") && root == old(root) && view == old(view)
      ensures old(rootHash).None? ==>
                Valid() && rootHash == None && (r.Ok? <==> Accepted(old(Keys()), indexes) == |indexes|)
      ensures old(rootHash).None? ==>
                Keys() == old(Keys()) + Members(indexes[..Accepted(old(Keys()), indexes)])
    {
      hide Pow2, Tied, Shape, LeavesHold, Accepted, Members;
      if rootHash.Some? { return Err("SMT already finalized"); }
      ghost var keys := Keys();
      var k := 0;
      assert keys + Members(indexes[..0]) == keys by { EmptyMembers(indexes); }
      AcceptedBound(keys, indexes);
      while k < |indexes|
        invariant k <= Accepted(keys, indexes) <= |indexes|
        invariant forall j :: 0 <= j < Accepted(keys, indexes) ==> 0 <= indexes[j] < Pow2(256)
        invariant Valid() && rootHash == None && Keys() == keys + Members(indexes[..k])
        invariant fresh(view.Keys - old(view.Keys))
      {
        AcceptedNext(keys, indexes, k);
        if !(0 <= indexes[k] < Pow2(256)) { return Err("Index out of range"); }
        var duplicate := AddOne(indexes[k]);
        if duplicate {
          assert Keys() == keys + Members(indexes[..k]);
          return Err("Duplicate index");
        }
        k := k + 1;
      }
      r := Ok(());
    }

    // ----- `setHash`

    /**
     * `setHash`: succeeds exactly on a 32-byte hash for an index of the tree whose hash is not set. Bit tests
     * on an integer outside the range see its low 256 bits, in two's complement; the leaf found is then not its own.
     */
    method SetHash(index: int, hash: Bytes) returns (r: Result<()>)
      requires Valid()
      modifies this`hashes, view.Keys`hash
      ensures Valid() && Keys() == old(Keys())
      ensures old(rootHash).Some? ==> r.Err?
      ensures old(rootHash).None? ==>
                (r.Ok? <==> |hash| == 32 && index in Keys() && index !in old(hashes))
      ensures r.Ok? ==> 0 <= index < Pow2(256) && hashes == old(hashes)[index := hash]
      ensures r.Err? ==> hashes == old(hashes)
    {
      hide Pow2, SameBits, Tied, Shape, LowBits;
      if rootHash.Some? { return Err("SMT already finalized"); }
      if |hash| != 32 { return Err("Invalid hash"); }
      if root == null { return Err("Empty SMT"); }
      var node := FindLeaf(LowBits(index));
      if node.index != index { return Err("Index not found"); }
      if node.hash.Some? { return Err("Leaf hash already set"); }
      LeafOnce(node);
      node.hash := Some(hash);
      hashes := hashes[node.index := hash];
      r := Ok(());
    }

    /** The descent of `setHash`: it ends at the leaf of `index` if there is one. */
    method FindLeaf(index: nat) returns (node: Node)
      requires Built() && root != null
      ensures node in view && node.isLeaf && (index in Keys() <==> node.index == index)
    {
      hide Pow2, SameBits, LeavesHold;
      node := root;
      while !node.isLeaf
        invariant node in view && (index in Keys() ==> index in view[node].leaves)
        invariant view[node].leaves <= Keys()
        decreases 256 - node.depth
      {
        assert NodeOk(view, node);
        node := if !At(index, node.depth) then node.left else node.right;
      }
      assert NodeOk(view, node);
    }

    lemma LeafOnce(node: Node)
      requires Shape(view) && node in view && node.isLeaf
      ensures forall n :: n in view && n.isLeaf && n.index == node.index ==> n == node
    {
    }

    // ----- `reset`

    method ResetNode(node: Node)
      requires Tied(view) && Shape(view) && node in view
      modifies view.Keys`hash
      ensures forall n :: n in view && n.isLeaf && n.index in view[node].leaves ==> n.hash == None
      ensures forall n :: n in view && !(n.isLeaf && n.index in view[node].leaves) ==> n.hash == old(n.hash)
      decreases 256 - node.depth
    {
      assert NodeOk(view, node);
      if node.isLeaf {
        node.hash := None;
      } else {
        ResetNode(node.left);
        ResetNode(node.right);
      }
    }

    /** `reset`: hashes and proofs go, the indexes stay. */
    method Reset()
      requires Valid()
      modifies this`rootHash, this`proofs, this`hashes, view.Keys`hash
      ensures Valid() && rootHash == None && Keys() == old(Keys()) && hashes == map[]
    {
      hide Tied, Shape, Pow2, SameBits;
      if root != null { ResetNode(root); }
      rootHash, proofs, hashes := None, map[], map[];
    }

    // ----- `finalize`

    /** Hashes as finalizing completes them: the null hash where none was set. */
    ghost function Completed(): (all: Hashes)
      requires root != null ==> root in view
      reads this`root, this`view, this`hashes
      ensures all.Keys == Keys()
      ensures forall i :: i in all ==> all[i] == if i in hashes then hashes[i] else ZeroBytes(32)
    {
      map i | i in Keys() :: if i in hashes then hashes[i] else NullHash()
    }

    /** The leaves below `node` carry what `all` says, or nothing where it says null. */
    ghost predicate LeavesAgree(node: Node, all: Hashes)
      requires node in view
      reads this, view.Keys`hash
    {
      forall n :: n in view && n.isLeaf && n.index in view[node].leaves ==>
        n.index in all && (if n.hash.Some? then n.hash.value == all[n.index] else all[n.index] == NullHash())
    }

    ghost predicate SomeMissing(node: Node)
      requires node in view
      reads this, view.Keys`hash
    {
      exists n :: n in view && n.isLeaf && n.index in view[node].leaves && n.hash == None
    }

    /** `#finalizeStep`: the hash as seen from `depth`, and the closure that will save the proofs. */
    method FinalizeStep(node: Node, parentConverge: nat, depth: Depth, ghost all: Hashes)
      returns (r: Result<(Digest, Saver)>)
      requires Tied(view) && Shape(view) && node in view && depth <= node.depth
      requires view[node].leaves <= all.Keys && LeavesAgree(node, all)
      modifies view.Keys`hash
      ensures r.Err? <==> !allowNonInclusion && old(SomeMissing(node))
      ensures !allowNonInclusion ==> forall n :: n in view ==> n.hash == old(n.hash)
      ensures allowNonInclusion ==> forall n :: n in view ==>
                n.hash == if n.isLeaf && n.index in view[node].leaves then Some(all[n.index]) else old(n.hash)
      ensures view[node].leaves != {}
      ensures r.Ok? ==> r.value.0 == RefHash(H, all, view[node].leaves, depth)
      ensures r.Ok? ==> Saves(H, all, r.value.1, view[node].leaves, depth, Converged(parentConverge, depth))
      decreases 256 - node.depth
    {
      hide Pow2, SameBits, RefHash, Saves, Shape, Converged, LeftPad, RightPad, AnyOf, BranchDepth;
      NodeFacts(view, node, depth);
      var converge := Converged(parentConverge, depth);
      var hash: Digest;
      var saver: Saver;
      if !node.isLeaf {
        var childDepth := node.depth + 1;
        var left := FinalizeStep(node.left, converge, childDepth, all);
        if left.Err? { return left; }
        var right := FinalizeStep(node.right, converge, childDepth, all);
        if right.Err? { return right; }
        hash := Hash2(H, left.value.0, right.value.0);
        saver := SaveParent(left.value.0, right.value.0, left.value.1, right.value.1);
        ParentSaves(H, all, view, node, depth, converge, left.value.0, right.value.0, left.value.1, right.value.1);
      } else {
        if node.hash == None {
          if !allowNonInclusion { return Err("Hash missing"); }
          node.hash := Some(NullHash());
        }
        hash := node.hash.value;
        saver := SaveLeaf(node.index, converge);
        LeafSaves(H, all, view, node, depth, converge);
      }
      if node.depth != depth {
        var leftPad, rightPad := DepthPads(node.index, depth, node.depth);
        PadLengths(node.index, depth, node.depth);
        hash := H(leftPad + hash + rightPad);
      } else {
        NoPads(node.index, depth);
      }
      r := Ok((hash, saver));
    }

    /** `saveProofs`: the list goes left as it is, right as a copy, each with the other side's hash in front. */
    method SaveProofs(saver: Saver, list: HashList, ghost all: Hashes, ghost S: set<Index>, ghost d: Depth,
                      ghost converge: nat)
      requires Saves(H, all, saver, S, d, converge) && converge < Pow2(256)
      requires forall i :: i in proofs ==> proofs[i].hashes != list
      modifies this`proofs, list
      ensures proofs.Keys == old(proofs).Keys + S
      ensures forall i :: i in old(proofs) && i !in S ==> proofs[i] == old(proofs)[i]
      ensures forall i :: i in S ==>
                Stored(H, all, S, d, converge, i, proofs[i].converge, proofs[i].hashes.items, old(list.items))
      ensures forall i :: i in S ==> proofs[i].hashes == list || fresh(proofs[i].hashes)
      ensures forall i, j :: i in S && j in S && i != j ==> proofs[i].hashes != proofs[j].hashes
      decreases saver
    {
      hide Saves, Pow2, RefHash, ProofHashes, Converges, BranchDepth, Side, Stored, Converged;
      SavesSides(H, all, saver, S, d, converge);
      match saver
      case SaveLeaf(index, c) =>
        proofs := proofs[index := ProofRef(c, list)];
      case SaveParent(leftHash, rightHash, left, right) =>
        ghost var rest, b := list.items, BranchDepth(S, d);
        ghost var L, R, conv := Side(S, b, false), Side(S, b, true), Converged(converge, b + 1);
        var rightList := list.Slice();
        list.Unshift(rightHash);
        rightList.Unshift(leftHash);
        SaveProofs(left, list, all, L, b + 1, conv);
        SaveProofs(right, rightList, all, R, b + 1, conv);
        forall i | i in S
          ensures Stored(H, all, S, d, converge, i, proofs[i].converge, proofs[i].hashes.items, rest)
        {
          StoredUp(H, all, S, d, converge, i, proofs[i].converge, proofs[i].hashes.items, rest);
        }
    }

    /** `finalize`: one hash for each index, then the root and every proof. */
    method Finalize() returns (r: Result<()>)
      requires Valid()
      modifies this`rootHash, this`proofs, this`hashes, view.Keys`hash
      ensures r.Ok? <==> allowNonInclusion || old(hashes).Keys == Keys()
      ensures Keys() == old(Keys())
      ensures r.Ok? ==> Finalized() && hashes == old(Completed())
      ensures r.Err? ==> Valid() && hashes == old(hashes) && rootHash == old(rootHash) && proofs == old(proofs)
    {
      hide Pow2, SameBits, Shape, Tied, LeavesHold, RefHash, Saves, Stored, IsIssued;
      if root == null {
        rootHash := Some(NullHash());
        assert hashes == Completed();
        return Ok(());
      }
      ghost var all := Completed();
      var step := FinalizeRoot();
      if step.Err? { return Err(step.error); }
      rootHash := Some(step.value.0);
      var list := new HashList([]);
      assert Built();
      SaveProofs(step.value.1, list, all, Keys(), 0, 0);
      assert Built();
      FinalizedNow(all);
      r := Ok(());
    }

    /** The recursion of `finalize`, from the root. */
    method FinalizeRoot() returns (r: Result<(Digest, Saver)>)
      requires Built() && root != null
      modifies this`hashes, view.Keys`hash
      ensures Built() && Keys() != {}
      ensures r.Ok? <==> allowNonInclusion || old(hashes).Keys == Keys()
      ensures r.Err? ==> hashes == old(hashes)
      ensures r.Ok? ==> hashes == old(Completed()) && hashes.Keys == Keys()
      ensures r.Ok? ==> r.value.0 == RefHash(H, hashes, Keys(), 0) && Saves(H, hashes, r.value.1, Keys(), 0, 0)
    {
      hide Pow2, SameBits, Shape, Tied, RefHash, Saves, LeavesAgree, SomeMissing;
      ghost var all := Completed();
      CompletedAgrees();
      r := FinalizeStep(root, 0, 0, all);
      if r.Ok? {
        if hashes.Keys == Keys() { assert all == hashes; }
        hashes := all;
      }
    }

    /** A leaf is missing its hash exactly when some index was never given one. */
    lemma CompletedAgrees()
      requires Built() && root != null
      ensures LeavesAgree(root, Completed())
      ensures SomeMissing(root) <==> hashes.Keys != Keys()
    {
      hide Shape, Tied, Pow2;
      if hashes.Keys != Keys() {
        var i :| i in Keys() && i !in hashes;
        var n := LeafFor(view, root, i);
        assert n.hash == None;
      }
    }

    /** From the pieces to the finalized state. */
    lemma FinalizedNow(all: Hashes)
      requires Built() && root != null && hashes == all && all.Keys == Keys() == proofs.Keys
      requires all.Keys != {} && rootHash == Some(RefHash(H, all, Keys(), 0))
      requires forall i :: i in Keys() ==>
                 Stored(H, all, Keys(), 0, 0, i, proofs[i].converge, proofs[i].hashes.items, [])
      requires forall i, j :: i in Keys() && j in Keys() && i != j ==> proofs[i].hashes != proofs[j].hashes
      ensures Finalized()
    {
      hide Built, Stored, RefHash, IsIssued;
      forall i | i in proofs
        ensures IsIssued(H, hashes, i, SMTProof(proofs[i].converge, proofs[i].hashes.items))
      {
        IssuedFromStored(H, all, i, proofs[i].converge, proofs[i].hashes.items);
      }
    }

    /** `proof`: none before `finalize`, and then one for each index, valid against the root. */
    method GetProof(index: int) returns (r: Result<SMTProof>)
      requires Valid()
      ensures rootHash.None? ==> r.Err?
      ensures Finalized() ==> (r.Ok? <==> index in Keys())
      ensures Finalized() && r.Ok? ==> index in hashes && IsIssued(H, hashes, index, r.value)
      ensures Finalized() && r.Ok? ==> IsValid(H, r.value, index, hashes[index], rootHash.value)
    {
      hide Pow2, Shape, Tied, IsIssued, IsValid, RefRoot;
      if index !in proofs { return Err("Proof not found"); }
      var p := proofs[index];
      r := Ok(SMTProof(p.converge, p.hashes.items));
      if Finalized() { IssuedProofIsValid(H, hashes, index, r.value); }
    }
  }

  /** An index has one issued proof: the map of hashes determines it. */
  lemma IssuedIsUnique(H: HashFn, hs: Hashes, index: Index, p: SMTProof, q: SMTProof)
    requires IsIssued(H, hs, index, p) && IsIssued(H, hs, index, q)
    ensures p == q
  {
    hide Pow2, Converges;
    forall k: nat | k < 256 ensures Bit(p.converge, k) == Bit(q.converge, k) {
      assert Bit(p.converge, k) <==> Converges(hs.Keys, 0, index, k);
    }
    BitExtensional(p.converge, q.converge, 256);
  }

  /**
   * Finalized trees with the same hashes have the same root and the same proofs: in whatever order and batches
   * the indexes came, and whether the tree is new or was reset.
   */
  lemma FinalizedIsCanonical(t: OptimizedSMT, u: OptimizedSMT)
    requires t.Finalized() && u.Finalized() && t.H == u.H && t.hashes == u.hashes
    ensures t.rootHash == u.rootHash && t.proofs.Keys == u.proofs.Keys
    ensures forall i :: i in t.proofs ==>
              t.proofs[i].converge == u.proofs[i].converge && t.proofs[i].hashes.items == u.proofs[i].hashes.items
  {
    hide IsIssued;
    forall i | i in t.proofs
      ensures t.proofs[i].converge == u.proofs[i].converge && t.proofs[i].hashes.items == u.proofs[i].hashes.items
    {
      IssuedIsUnique(t.H, t.hashes, i, SMTProof(t.proofs[i].converge, t.proofs[i].hashes.items),
                     SMTProof(u.proofs[i].converge, u.proofs[i].hashes.items));
    }
  }

  lemma NoPads(index: nat, d: Depth)
    ensures LeftPad(index, d, d) == [] && RightPad(index, d, d) == []
  {
  }

  /** What `finalizeStep` needs to know of a node. */
  lemma NodeFacts(v: View, n: Node, d: Depth)
    requires n in v && Shape(v) && d <= n.depth
    ensures v[n].leaves != {} && (n.isLeaf <==> n.depth == 256)
    ensures n.isLeaf ==> v[n].leaves == {n.index}
    ensures n.isLeaf ==> forall m :: m in v && m.isLeaf && m.index in v[n].leaves ==> m == n
    ensures !n.isLeaf ==>
              && v[n].left != null && v[n].left in v && n.depth < v[n].left.depth
              && v[n].right != null && v[n].right in v && n.depth < v[n].right.depth
              && v[n].leaves == v[v[n].left].leaves + v[v[n].right].leaves
              && v[v[n].left].leaves !! v[v[n].right].leaves
  {
    assert NodeOk(v, n);
  }

  lemma RefHashAtNode(H: HashFn, hs: Hashes, v: View, n: Node, d: Depth)
    requires n in v && Shape(v) && d <= n.depth && v[n].leaves <= hs.Keys
    ensures v[n].leaves != {} && BranchDepth(v[n].leaves, d) == n.depth
    ensures RefHash(H, hs, v[n].leaves, d)
         == Padded(H, LeftPad(n.index, d, n.depth), CoreHash(H, hs, v[n].leaves, n.depth),
                   RightPad(n.index, d, n.depth))
  {
    assert NodeOk(v, n);
    NodeAtBranch(v, n, d);
    PadsDependOnBits(AnyOf(v[n].leaves), n.index, d, n.depth);
  }

  lemma LeafSaves(H: HashFn, hs: Hashes, v: View, n: Node, d: Depth, converge: nat)
    requires n in v && Shape(v) && d <= n.depth && v[n].leaves <= hs.Keys && n.isLeaf
    ensures n.index in hs.Keys
    ensures Saves(H, hs, SaveLeaf(n.index, converge), v[n].leaves, d, converge)
    ensures RefHash(H, hs, v[n].leaves, d)
         == Padded(H, LeftPad(n.index, d, n.depth), hs[n.index], RightPad(n.index, d, n.depth))
  {
    RefHashAtNode(H, hs, v, n, d);
    assert NodeOk(v, n);
  }

  lemma ParentSaves(H: HashFn, hs: Hashes, v: View, n: Node, d: Depth, converge: nat, lh: Digest, rh: Digest,
                    l: Saver, r: Saver)
    requires n in v && Shape(v) && d <= n.depth && v[n].leaves <= hs.Keys && !n.isLeaf && n.depth < 256
    requires v[n].left != null && v[n].left in v && v[n].right != null && v[n].right in v
    requires var left, right := v[v[n].left].leaves, v[v[n].right].leaves;
             && left != {} && left <= hs.Keys && right != {} && right <= hs.Keys
             && lh == RefHash(H, hs, left, n.depth + 1) && rh == RefHash(H, hs, right, n.depth + 1)
             && Saves(H, hs, l, left, n.depth + 1, Converged(converge, n.depth + 1))
             && Saves(H, hs, r, right, n.depth + 1, Converged(converge, n.depth + 1))
    ensures Saves(H, hs, SaveParent(lh, rh, l, r), v[n].leaves, d, converge)
    ensures RefHash(H, hs, v[n].leaves, d)
         == Padded(H, LeftPad(n.index, d, n.depth), Hash2(H, lh, rh), RightPad(n.index, d, n.depth))
  {
    hide Shape, SameBits, Converged, Pow2;
    RefHashAtNode(H, hs, v, n, d);
    NodeAtBranch(v, n, d);
  }

  /** The spliced tree has its shape, and its root counts the new index. */
  lemma SpliceDone(view: View, v: View, root: Node, parent: Node?, node: Node, leaf: Node, fork: Node, index: Index)
    requires Parting(view, v, root, parent, node, index, fork.index, fork.depth)
    requires leaf !in v && fork !in v && leaf != fork
    requires leaf.isLeaf && leaf.index == index && leaf.depth == 256 && !fork.isLeaf
    requires forall n :: n in view && n.isLeaf ==> n.index != index
    ensures node in v && (parent != null ==> parent in v && parent.depth < 256)
    ensures var w := Splice(v, parent, node, leaf, fork, index);
            var root' := if parent == null then fork else root;
            && Shape(w) && w.Keys == view.Keys + {leaf, fork}
            && w[root'].up == null && w[root'].leaves == view[root].leaves + {index}
            && w[leaf].left == null && w[leaf].right == null
            && w[fork].left == (if At(index, fork.depth) then node else leaf)
            && w[fork].right == (if At(index, fork.depth) then leaf else node)
            && (parent != null ==>
                  && parent in v
                  && w[parent].left == (if At(index, parent.depth) then v[parent].left else fork)
                  && w[parent].right == if At(index, parent.depth) then fork else v[parent].right)
            && forall n :: n in v && n != parent ==> w[n].left == v[n].left && w[n].right == v[n].right
  {
    hide Shape, Descending, NodeOk;
    assert Spliceable(v, parent, node, leaf, fork, index);
    SpliceCells(v, parent, node, leaf, fork, index);
    SpliceOk(v, root, parent, node, leaf, fork, index);
  }

  /** Where the descent for a new index ends. */
  ghost predicate Parting(view: View, v: View, root: Node, parent: Node?, node: Node, index: Index,
                          commonIndex: Index, commonDepth: Depth)
    reads v.Keys`left, v.Keys`right
  {
    && Tied(v) && v.Keys == view.Keys && root in v && v[root].up == null
    && Edge(v, root, parent, node, index) && Descending(v, parent, node, index)
    && commonDepth < node.depth && (parent != null ==> parent.depth < commonDepth)
    && SameBits(commonIndex, index, 0, commonDepth)
    && (forall i :: i in v[node].leaves ==> SameBits(index, i, 0, commonDepth))
    && (forall i :: i in v[node].leaves ==> At(i, commonDepth) != At(index, commonDepth))
    && root in view && v[root].leaves == if parent != null then view[root].leaves + {index} else view[root].leaves
  }

  lemma StartDescent(v: View, root: Node, index: Index)
    requires Shape(v) && root in v && v[root].up == null
    ensures Edge(v, root, null, root, index)
    ensures index !in v[root].leaves ==> Descending(v, null, root, index)
    ensures forall i :: i in v[root].leaves ==> SameBits(index, i, 0, 0)
  {
  }
}
