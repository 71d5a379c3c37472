/** The nodes of the path-compressed tree, and what links them. */
module SmtNodes {
  import opened Bits
  import opened Hashing
  import opened SmtSpec

  /** `LeafNode` and `ParentNode`. */
  class Node {
    const isLeaf: bool
    const index: Index
    const depth: Depth
    var hash: Option<Digest>
    var left: Node?
    var right: Node?

    constructor Leaf(index: Index)
      ensures isLeaf && this.index == index && depth == 256
      ensures hash == None && left == null && right == null
    {
      isLeaf, this.index, depth := true, index, 256;
      hash, left, right := None, null, null;
    }

    constructor Parent(index: Index, depth: Depth, left: Node, right: Node)
      ensures !isLeaf && this.index == index && this.depth == depth
      ensures hash == None && this.left == left && this.right == right
    {
      isLeaf, this.index, this.depth := false, index, depth;
      hash, this.left, this.right := None, left, right;
    }
  }

  /** What the proofs know of a node: its children, the indexes below it, the node above it. */
  datatype Cell = Cell(left: Node?, right: Node?, leaves: set<Index>, up: Node?)

  /** A snapshot of the whole tree. */
  type View = map<Node, Cell>

  /** The snapshot shows the pointers as they are. */
  ghost predicate Tied(v: View)
    reads v.Keys`left, v.Keys`right
  {
    forall n :: n in v ==> n.left == v[n].left && n.right == v[n].right
  }

  ghost predicate ChildOk(v: View, n: Node, child: Node?, right: bool)
    requires n in v && n.depth < 256
  {
    && child != null && child in v && v[child].up == n && child.depth > n.depth
    && forall i :: i in v[child].leaves ==> At(i, n.depth) == right
  }

  /** What links a node to its children, but for its own `leaves`. */
  ghost predicate LinksOk(v: View, n: Node)
    requires n in v
  {
    && v[n].leaves != {}
    && (n.isLeaf ==> n.depth == 256 && v[n].left == null && v[n].right == null)
    && (!n.isLeaf ==>
          && n.depth < 256 && v[n].left != v[n].right
          && ChildOk(v, n, v[n].left, false) && ChildOk(v, n, v[n].right, true))
    && forall i :: i in v[n].leaves ==> SameBits(i, n.index, 0, n.depth)
  }

  /** The indexes below a node, from its children or itself. */
  ghost function LeavesBelow(v: View, n: Node): set<Index>
    requires n in v && LinksOk(v, n)
  {
    if n.isLeaf then {n.index} else v[v[n].left].leaves + v[v[n].right].leaves
  }

  ghost predicate NodeOk(v: View, n: Node)
    requires n in v
  {
    LinksOk(v, n) && v[n].leaves == LeavesBelow(v, n)
  }

  /** One leaf node for each index. */
  ghost predicate LeavesUnique(v: View) {
    forall n, m :: n in v && m in v && n.isLeaf && m.isLeaf && n.index == m.index ==> n == m
  }

  ghost predicate Shape(v: View) {
    (forall n :: n in v ==> NodeOk(v, n)) && LeavesUnique(v)
  }

  /** A node stands where the indexes below it part, as seen from any depth above it. */
  lemma NodeAtBranch(v: View, n: Node, d: Depth)
    requires n in v && Shape(v) && d <= n.depth
    ensures BranchDepth(v[n].leaves, d) == n.depth
    ensures !n.isLeaf ==> Side(v[n].leaves, n.depth, false) == v[v[n].left].leaves
    ensures !n.isLeaf ==> Side(v[n].leaves, n.depth, true) == v[v[n].right].leaves
    ensures SharePrefix(v[n].leaves, n.depth)
    ensures forall i :: i in v[n].leaves ==> SameBits(i, n.index, d, n.depth)
  {
    var S := v[n].leaves;
    assert NodeOk(v, n);
    forall i, j | i in S && j in S ensures SameBits(i, j, 0, n.depth) {
      assert SameBits(i, n.index, 0, n.depth) && SameBits(j, n.index, 0, n.depth);
    }
    forall i | i in S ensures SameBits(i, n.index, d, n.depth) {
      assert SameBits(i, n.index, 0, n.depth);
    }
    forall i, j | i in S && j in S ensures SameBits(i, j, d, n.depth) {
      assert SameBits(i, j, 0, n.depth);
    }
    if !n.isLeaf {
      assert NodeOk(v, v[n].left) && NodeOk(v, v[n].right);
      assert Side(S, n.depth, false) == v[v[n].left].leaves;
      assert Side(S, n.depth, true) == v[v[n].right].leaves;
    }
    BranchIs(S, d, n.depth);
  }

  // ----- The descent of `add`

  function Toward(v: View, n: Node, right: bool): Node?
    requires n in v
  {
    if right then v[n].right else v[n].left
  }

  /** The edge the descent for `index` stands on: `node` hangs below `parent`. */
  ghost predicate Edge(v: View, root: Node, parent: Node?, node: Node, index: Index) {
    && node in v && v[node].up == parent
    && (parent == null ==> node == root)
    && (parent != null ==>
          && parent in v && !parent.isLeaf && parent.depth < node.depth
          && node == Toward(v, parent, At(index, parent.depth)))
  }

  /**
   * State of the descent for a new `index`: the ancestors of `node` already count it, so only
   * the bottom one is out of step with its children.
   */
  ghost predicate Descending(v: View, parent: Node?, node: Node, index: Index)
    requires node in v
  {
    && LeavesUnique(v)
    && (forall n :: n in v && n != parent ==> NodeOk(v, n))
    && (parent != null ==>
          parent in v && !parent.isLeaf && LinksOk(v, parent) && v[parent].leaves == LeavesBelow(v, parent) + {index})
    && index !in v[node].leaves
  }

  function Count(v: View, n: Node, index: Index): View
    requires n in v
  {
    v[n := v[n].(leaves := v[n].leaves + {index})]
  }

  lemma PrefixOfNode(v: View, n: Node, index: Index)
    requires n in v && LinksOk(v, n)
    requires forall i :: i in v[n].leaves ==> SameBits(index, i, 0, n.depth)
    ensures SameBits(index, n.index, 0, n.depth)
  {
    var i :| i in v[n].leaves;
    assert SameBits(index, i, 0, n.depth) && SameBits(i, n.index, 0, n.depth);
  }

  /** Counting the index at `c` leaves the other nodes in order, and brings its parent into step. */
  lemma CountKeeps(v: View, c: Node, index: Index, n: Node)
    requires n in v && c in v && n != c && LinksOk(v, n)
    requires v[c].up == n ==> v[n].leaves == LeavesBelow(v, n) + {index}
                              && !n.isLeaf && c == Toward(v, n, At(index, n.depth))
    requires v[c].up != n ==> NodeOk(v, n)
    ensures NodeOk(Count(v, c, index), n)
  {
    if v[c].up == n {
      assert v[n].left == c || v[n].right == c;
    } else if !n.isLeaf {
      assert v[n].left != c && v[n].right != c;
    }
  }

  lemma CountSelf(v: View, c: Node, index: Index)
    requires c in v && !c.isLeaf && NodeOk(v, c) && SameBits(index, c.index, 0, c.depth)
    ensures var w := Count(v, c, index);
            LinksOk(w, c) && w[c].leaves == LeavesBelow(w, c) + {index}
  {
    assert v[c].left != c && v[c].right != c;
  }

  lemma StepSelf(v: View, root: Node, parent: Node?, node: Node, index: Index) returns (child: Node)
    requires node in v && !node.isLeaf && NodeOk(v, node) && index !in v[node].leaves
    requires forall i :: i in v[node].leaves ==> SameBits(index, i, 0, node.depth)
    ensures child == Toward(v, node, At(index, node.depth)) && child in v && v[child].leaves <= v[node].leaves
    ensures var w := Count(v, node, index);
            && Edge(w, root, node, child, index)
            && LinksOk(w, node) && w[node].leaves == LeavesBelow(w, node) + {index}
            && index !in w[child].leaves
  {
    child := ChildFacts(v, node, index);
    PrefixOfNode(v, node, index);
    CountSelf(v, node, index);
  }

  /** Step of the descent from `node` to its child. */
  lemma StepDown(v: View, root: Node, parent: Node?, node: Node, index: Index) returns (child: Node)
    requires node in v && !node.isLeaf && Edge(v, root, parent, node, index) && Descending(v, parent, node, index)
    requires forall i :: i in v[node].leaves ==> SameBits(index, i, 0, node.depth)
    ensures child == Toward(v, node, At(index, node.depth)) && child in v && v[child].leaves <= v[node].leaves
    ensures Edge(Count(v, node, index), root, node, child, index)
    ensures Descending(Count(v, node, index), node, child, index)
  {
    hide SameBits, NodeOk, LinksOk, Edge, LeavesBelow;
    NodeIsOk(v, root, parent, node, index);
    child := StepSelf(v, root, parent, node, index);
    var w := Count(v, node, index);
    forall n | n in w && n != node ensures NodeOk(w, n) { StepOthers(v, root, parent, node, index, n); }
  }

  lemma NodeIsOk(v: View, root: Node, parent: Node?, node: Node, index: Index)
    requires Edge(v, root, parent, node, index) && Descending(v, parent, node, index)
    ensures NodeOk(v, node)
  {
  }

  lemma StepOthers(v: View, root: Node, parent: Node?, node: Node, index: Index, n: Node)
    requires node in v && Edge(v, root, parent, node, index) && Descending(v, parent, node, index)
    requires n in v && n != node
    ensures NodeOk(Count(v, node, index), n)
  {
    CountKeeps(v, node, index, n);
  }

  lemma ChildFacts(v: View, node: Node, index: Index) returns (child: Node)
    requires node in v && !node.isLeaf && NodeOk(v, node)
    ensures child == Toward(v, node, At(index, node.depth)) && child != node
    ensures ChildOk(v, node, child, At(index, node.depth)) && v[child].leaves <= v[node].leaves
  {
    child := Toward(v, node, At(index, node.depth));
  }

  /** A `ParentNode` spliced in above `node`, over it and the new leaf. */
  function Splice(v: View, parent: Node?, node: Node, leaf: Node, fork: Node, index: Index): View
    requires node in v && fork.depth < 256
    requires parent != null ==> parent in v && parent.depth < 256
  {
    var right := At(index, fork.depth);
    var w := v[leaf := Cell(null, null, {index}, fork)]
              [node := v[node].(up := fork)]
              [fork := Cell(if right then node else leaf, if right then leaf else node, v[node].leaves + {index},
                            parent)];
    if parent == null then w
    else if At(index, parent.depth) then w[parent := v[parent].(right := fork)]
    else w[parent := v[parent].(left := fork)]
  }

  /** The nodes that may be spliced: fresh, and set up by their constructors. */
  ghost predicate Spliceable(v: View, parent: Node?, node: Node, leaf: Node, fork: Node, index: Index)
    requires node in v
  {
    && leaf !in v && fork !in v && leaf != fork
    && leaf.isLeaf && leaf.index == index && leaf.depth == 256 && !fork.isLeaf
    && fork.depth < node.depth && (parent != null ==> parent.depth < fork.depth)
    && SameBits(index, fork.index, 0, fork.depth)
    && (forall i :: i in v[node].leaves ==> SameBits(index, i, 0, fork.depth))
    && (forall i :: i in v[node].leaves ==> At(i, fork.depth) != At(index, fork.depth))
  }

  /** What splicing changes, node by node. */
  lemma SpliceCells(v: View, parent: Node?, node: Node, leaf: Node, fork: Node, index: Index)
    requires node in v && leaf !in v && fork !in v && leaf != fork && parent != node && fork.depth < 256
    requires parent != null ==> parent in v && parent.depth < 256
    ensures var w := Splice(v, parent, node, leaf, fork, index);
            && w.Keys == v.Keys + {leaf, fork}
            && w[leaf] == Cell(null, null, {index}, fork)
            && w[node] == v[node].(up := fork)
            && w[fork] == (if At(index, fork.depth) then Cell(node, leaf, v[node].leaves + {index}, parent)
                           else Cell(leaf, node, v[node].leaves + {index}, parent))
            && (parent != null ==>
                  w[parent] == if At(index, parent.depth) then v[parent].(right := fork) else v[parent].(left := fork))
            && forall n :: n in v && n != node && n != parent ==> w[n] == v[n]
  {
  }

  /** A node is in order wherever its own cell and its children's say the same. */
  lemma SameCells(v: View, w: View, n: Node)
    requires n in v && n in w && NodeOk(v, n)
    requires w[n].left == v[n].left && w[n].right == v[n].right && w[n].leaves == v[n].leaves
    requires !n.isLeaf ==>
               forall c :: (c == v[n].left || c == v[n].right) && c in v ==>
                 c in w && w[c].up == n && w[c].leaves == v[c].leaves
    ensures NodeOk(w, n)
  {
  }

  lemma SpliceKeeps(v: View, root: Node, parent: Node?, node: Node, leaf: Node, fork: Node, index: Index, n: Node)
    requires Edge(v, root, parent, node, index) && Descending(v, parent, node, index)
    requires Spliceable(v, parent, node, leaf, fork, index)
    requires n in v && n != parent
    ensures NodeOk(Splice(v, parent, node, leaf, fork, index), n)
  {
    hide SameBits, Splice;
    assert NodeOk(v, n);
    SpliceCells(v, parent, node, leaf, fork, index);
    SameCells(v, Splice(v, parent, node, leaf, fork, index), n);
  }

  lemma SpliceParent(v: View, root: Node, parent: Node, node: Node, leaf: Node, fork: Node, index: Index)
    requires Edge(v, root, parent, node, index) && Descending(v, parent, node, index)
    requires Spliceable(v, parent, node, leaf, fork, index)
    ensures NodeOk(Splice(v, parent, node, leaf, fork, index), parent)
  {
    hide SameBits, Splice;
    SpliceCells(v, parent, node, leaf, fork, index);
    assert LinksOk(v, parent);
    var w, other := Splice(v, parent, node, leaf, fork, index), Toward(v, parent, !At(index, parent.depth));
    assert ChildOk(v, parent, node, At(index, parent.depth));
    assert ChildOk(v, parent, other, !At(index, parent.depth));
    assert w[other] == v[other];
    assert ChildOk(w, parent, fork, At(index, parent.depth));
    assert ChildOk(w, parent, other, !At(index, parent.depth));
    assert w[parent].leaves == v[parent].leaves;
  }

  lemma SpliceLeaf(v: View, parent: Node?, node: Node, leaf: Node, fork: Node, index: Index)
    requires node in v && parent != node && Spliceable(v, parent, node, leaf, fork, index)
    requires parent != null ==> parent in v
    ensures NodeOk(Splice(v, parent, node, leaf, fork, index), leaf)
  {
    hide Splice;
    SpliceCells(v, parent, node, leaf, fork, index);
  }

  lemma ForkPrefix(v: View, parent: Node?, node: Node, leaf: Node, fork: Node, index: Index, i: Index)
    requires node in v && Spliceable(v, parent, node, leaf, fork, index) && i in v[node].leaves + {index}
    ensures SameBits(i, fork.index, 0, fork.depth)
  {
    if i != index {
      assert SameBits(index, i, 0, fork.depth);
    }
  }

  lemma SpliceFork(v: View, root: Node, parent: Node?, node: Node, leaf: Node, fork: Node, index: Index)
    requires Edge(v, root, parent, node, index) && Descending(v, parent, node, index)
    requires Spliceable(v, parent, node, leaf, fork, index)
    ensures NodeOk(Splice(v, parent, node, leaf, fork, index), fork)
  {
    hide Splice, SameBits;
    SpliceCells(v, parent, node, leaf, fork, index);
    var w := Splice(v, parent, node, leaf, fork, index);
    forall i | i in w[fork].leaves ensures SameBits(i, fork.index, 0, fork.depth) {
      ForkPrefix(v, parent, node, leaf, fork, index, i);
    }
    assert ChildOk(w, fork, node, !At(index, fork.depth));
    assert ChildOk(w, fork, leaf, At(index, fork.depth));
    hide Descending, Edge, Spliceable, ChildOk;
    assert LinksOk(w, fork);
  }

  /** Splicing completes the insertion: the shape holds, and the root counts one more index. */
  lemma SpliceOk(v: View, root: Node, parent: Node?, node: Node, leaf: Node, fork: Node, index: Index)
    requires root in v && Edge(v, root, parent, node, index) && Descending(v, parent, node, index)
    requires Spliceable(v, parent, node, leaf, fork, index)
    requires forall n :: n in v && n.isLeaf ==> n.index != index
    ensures Shape(Splice(v, parent, node, leaf, fork, index))
  {
    hide NodeOk, SameBits, Splice, LinksOk;
    SpliceCells(v, parent, node, leaf, fork, index);
    var w := Splice(v, parent, node, leaf, fork, index);
    forall n | n in w ensures NodeOk(w, n) {
      if n == leaf {
        SpliceLeaf(v, parent, node, leaf, fork, index);
      } else if n == fork {
        SpliceFork(v, root, parent, node, leaf, fork, index);
      } else if n == parent {
        SpliceParent(v, root, parent, node, leaf, fork, index);
      } else {
        SpliceKeeps(v, root, parent, node, leaf, fork, index, n);
      }
    }
  }
}
