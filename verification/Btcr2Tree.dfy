/** The aggregate-beacon Merkle tree: its lifecycle, and what its proofs are worth. */
module Btcr2Tree {
  import opened Bits
  import opened Hashing
  import opened ZeroHash
  import opened ZeroHashProof
  import opened Btcr2Proof

  datatype TreeEntry = TreeEntry(did: string, nonce: Bytes, signedUpdate: Option<Bytes>)

  function LeafOf(env: Env, e: TreeEntry): Digest {
    match e.signedUpdate
    case Some(u) => env.InclusionLeaf(e.nonce, u)
    case None => env.NonInclusionLeaf(e.nonce)
  }

  /** Entries in insertion order, as a JavaScript `Map` keyed by index holds them. */
  type EntryList = seq<TreeEntry>

  predicate HasIndex(env: Env, es: EntryList, i: Index) {
    exists k :: 0 <= k < |es| && env.DidToIndex(es[k].did) == i
  }

  predicate HasDid(es: EntryList, did: string) {
    exists k :: 0 <= k < |es| && es[k].did == did
  }

  predicate DistinctDids(env: Env, es: EntryList) {
    forall a, b :: 0 <= a < b < |es| ==> env.DidToIndex(es[a].did) != env.DidToIndex(es[b].did)
  }

  function LeavesOf(env: Env, es: EntryList): (r: seq<Entry>)
    ensures |r| == |es|
    ensures forall k :: 0 <= k < |es| ==> r[k] == Entry(env.DidToIndex(es[k].did), LeafOf(env, es[k]))
  {
    seq(|es|, k requires 0 <= k < |es| => Entry(env.DidToIndex(es[k].did), LeafOf(env, es[k])))
  }

  /** Length of the longest prefix of `more` that `addEntries` takes before it meets an index it has. */
  function Accepted(env: Env, es: EntryList, more: EntryList): (n: nat)
    ensures n <= |more|
    decreases |more|
  {
    if more == [] || HasIndex(env, es, env.DidToIndex(more[0].did)) then 0
    else 1 + Accepted(env, es + [more[0]], more[1..])
  }

  lemma {:induction false} AcceptedStep(env: Env, es: EntryList, more: EntryList, k: nat)
    requires k <= |more| && k <= Accepted(env, es, more)
    ensures Accepted(env, es, more) == k + Accepted(env, es + more[..k], more[k..])
    decreases k
  {
    if k == 0 {
      assert es + more[..0] == es && more[0..] == more;
    } else {
      AcceptedStep(env, es + [more[0]], more[1..], k - 1);
      assert es + [more[0]] + more[1..][..k - 1] == es + more[..k];
      assert more[1..][k - 1..] == more[k..];
    }
  }

  /** The loop of `addEntries` stops at position `k` exactly when `Accepted` says so. */
  lemma AcceptedNext(env: Env, es: EntryList, more: EntryList, k: nat)
    requires k < |more| && k <= Accepted(env, es, more)
    ensures HasIndex(env, es + more[..k], env.DidToIndex(more[k].did)) <==> Accepted(env, es, more) == k
    ensures es + more[..k] + [more[k]] == es + more[..k + 1]
  {
    AcceptedStep(env, es, more, k);
    assert more[k..][0] == more[k];
  }

  /** A batch is taken whole exactly when it repeats no index, of its own or of the tree's. */
  lemma {:induction false} AcceptedAll(env: Env, es: EntryList, more: EntryList)
    requires DistinctDids(env, es)
    ensures Accepted(env, es, more) == |more| <==> DistinctDids(env, es + more)
    decreases |more|
  {
    if more == [] {
      assert es + more == es;
    } else {
      var i := env.DidToIndex(more[0].did);
      assert (es + more)[|es|] == more[0];
      if HasIndex(env, es, i) {
        var k :| 0 <= k < |es| && env.DidToIndex(es[k].did) == i;
        assert (es + more)[k] == es[k];
      } else {
        AcceptedAll(env, es + [more[0]], more[1..]);
        assert es + [more[0]] + more[1..] == es + more;
      }
    }
  }

  /** `#indexByDid` names exactly the DIDs of the entries, each with its own index. */
  ghost predicate IndexOk(env: Env, es: EntryList, indexByDid: map<string, Index>) {
    && DistinctDids(env, es)
    && (forall k :: 0 <= k < |es| ==> es[k].did in indexByDid)
    && (forall did :: did in indexByDid ==> indexByDid[did] == env.DidToIndex(did) && HasDid(es, did))
  }

  /** The leaves and the root are those of the entries there were when `finalize` last ran. */
  ghost predicate SnapshotOk(env: Env, es: EntryList, leaves: Option<seq<Entry>>, root: Option<Digest>) {
    && (leaves.None? <==> root.None?)
    && (leaves.Some? ==>
          |leaves.value| <= |es| && leaves.value == LeavesOf(env, es[..|leaves.value|])
          && root.value == ZeroHashRoot(env.H, leaves.value))
  }

  lemma IndexOkAdd(env: Env, es: EntryList, indexByDid: map<string, Index>, entry: TreeEntry)
    requires IndexOk(env, es, indexByDid) && !HasIndex(env, es, env.DidToIndex(entry.did))
    ensures IndexOk(env, es + [entry], indexByDid[entry.did := env.DidToIndex(entry.did)])
  {
    var es' := es + [entry];
    assert es'[|es|] == entry;
    forall did | HasDid(es, did) ensures HasDid(es', did) {
      var k :| 0 <= k < |es| && es[k].did == did;
      assert es'[k] == es[k];
    }
  }

  lemma SnapshotOkAdd(env: Env, es: EntryList, leaves: Option<seq<Entry>>, root: Option<Digest>, entry: TreeEntry)
    requires SnapshotOk(env, es, leaves, root)
    ensures SnapshotOk(env, es + [entry], leaves, root)
  {
    if leaves.Some? {
      assert (es + [entry])[..|leaves.value|] == es[..|leaves.value|];
    }
  }

  /** The loop of `finalize`. */
  method ComputeLeaves(env: Env, es: EntryList) returns (ls: seq<Entry>)
    ensures ls == LeavesOf(env, es)
  {
    ls := [];
    for k := 0 to |es|
      invariant |ls| == k && forall j :: 0 <= j < k ==> ls[j] == LeavesOf(env, es)[j]
    {
      var entry := es[k];
      var leaf := match entry.signedUpdate
                  case Some(u) => env.InclusionLeaf(entry.nonce, u)
                  case None => env.NonInclusionLeaf(entry.nonce);
      ls := ls + [Entry(env.DidToIndex(entry.did), leaf)];
    }
  }

  class BTCR2MerkleTree {
    const env: Env
    const zeros: seq<Digest>
    var entries: EntryList
    var indexByDid: map<string, Index>
    var leaves: Option<seq<Entry>>
    var root: Option<Digest>

    ghost predicate Valid()
      reads this
    {
      && IsZeroTable(env.H, zeros)
      && IndexOk(env, entries, indexByDid)
      && SnapshotOk(env, entries, leaves, root)
    }

    constructor (env: Env)
      ensures Valid() && this.env == env && entries == [] && root == None
    {
      var table := BuildCachedZero(env.H);
      this.env, zeros := env, table;
      entries, indexByDid, leaves, root := [], map[], None, None;
    }

    /**
     * `addEntries`. On a repeated index the entries before it stay, and the snapshot of an
     * earlier `finalize` stays too: it is cleared only after the whole batch went in.
     */
    method AddEntries(more: EntryList) returns (r: Result<()>)
      requires Valid()
      modifies this
      ensures Valid()
      ensures entries == old(entries) + more[..Accepted(env, old(entries), more)]
      ensures r.Ok? <==> Accepted(env, old(entries), more) == |more|
      ensures r.Ok? ==> leaves == None && root == None
      ensures r.Err? ==> leaves == old(leaves) && root == old(root)
    {
      hide IndexOk, IsZeroTable, LeavesOf;
      var k := 0;
      while k < |more|
        invariant k <= Accepted(env, old(entries), more)
        invariant entries == old(entries) + more[..k]
        invariant leaves == old(leaves) && root == old(root)
        invariant Valid()
      {
        AcceptedNext(env, old(entries), more, k);
        var entry := more[k];
        var index := env.DidToIndex(entry.did);
        if HasIndex(env, entries, index) {
          return Err("Duplicate DID index");
        }
        IndexOkAdd(env, entries, indexByDid, entry);
        SnapshotOkAdd(env, entries, leaves, root, entry);
        entries, indexByDid := entries + [entry], indexByDid[entry.did := index];
        k := k + 1;
      }
      assert more[..|more|] == more;
      leaves, root := None, None;
      r := Ok(());
    }

    /** `finalize` */
    method Finalize()
      requires Valid()
      modifies this`leaves, this`root
      ensures Valid()
      ensures leaves == Some(LeavesOf(env, entries))
      ensures root == Some(ZeroHashRoot(env.H, LeavesOf(env, entries)))
    {
      hide IndexOk, IsZeroTable;
      var ls := ComputeLeaves(env, entries);
      assert entries[..|entries|] == entries;
      var h := ComputeSubtree(env.H, zeros, ls, TREE_DEPTH);
      leaves, root := Some(ls), Some(h);
    }

    /** `rootHash`: the root of what went in before the last `finalize`, so perhaps not of everything. */
    method RootHash() returns (r: Result<Digest>)
      requires Valid()
      ensures r.Ok? <==> leaves.Some?
      ensures r.Ok? ==> |leaves.value| <= |entries|
                        && r.value == ZeroHashRoot(env.H, LeavesOf(env, entries[..|leaves.value|]))
      ensures r.Err? ==> r.error == "Tree not finalized"
    {
      r := if root.Some? then Ok(root.value) else Err("Tree not finalized");
    }

    /** `proof`: of the snapshot, for any DID that is in the tree. */
    method GetProof(did: string) returns (r: Result<SerializedProof>)
      requires Valid()
      ensures !HasDid(entries, did) ==> r == Err("DID not in tree")
      ensures HasDid(entries, did) && leaves.None? ==> r == Err("Tree not finalized")
      ensures leaves.Some? ==> forall k :: 0 <= k < |entries| && entries[k].did == did ==>
                exists proof :: IsProofFor(env.H, leaves.value, env.DidToIndex(did), proof)
                  && r == Serialize(env, root.value, proof, Some(entries[k].nonce), UpdateId(env, entries[k]))
    {
      hide IsZeroTable, Pow2, Serialize;
      if did !in indexByDid { return Err("DID not in tree"); }
      if leaves.None? || root.None? { return Err("Tree not finalized"); }
      var index := indexByDid[did];
      var k := Find(did);
      var entry := entries[k];
      var proof := GenerateProof(env.H, zeros, leaves.value, index);
      r := Serialize(env, root.value, proof, Some(entry.nonce), UpdateId(env, entry));
    }

    /** Lookup in the index-keyed map. */
    method Find(did: string) returns (k: nat)
      requires Valid() && HasDid(entries, did)
      ensures k < |entries| && entries[k].did == did
      ensures forall j :: 0 <= j < |entries| && entries[j].did == did ==> j == k
    {
      var index := env.DidToIndex(did);
      k := 0;
      while env.DidToIndex(entries[k].did) != index
        invariant k < |entries|
        invariant forall j :: 0 <= j < k ==> env.DidToIndex(entries[j].did) != index
        decreases |entries| - k
      {
        k := k + 1;
      }
    }

    /** `reset` */
    method Reset()
      requires Valid()
      modifies this`leaves, this`root
      ensures Valid() && leaves == None && root == None
    {
      leaves, root := None, None;
    }
  }

  function UpdateId(env: Env, e: TreeEntry): Option<Bytes> {
    match e.signedUpdate
    case Some(u) => Some(env.H(u))
    case None => None
  }

  // ----- What the tree's proofs are worth

  lemma LeavesDistinct(env: Env, es: EntryList)
    requires DistinctDids(env, es)
    ensures DistinctIndexes(LeavesOf(env, es))
  {
  }

  /** The root is a function of the set of entries: order and batching do not matter. */
  lemma RootOfEntrySet(env: Env, xs: EntryList, ys: EntryList)
    requires DistinctDids(env, xs) && DistinctDids(env, ys)
    requires forall e :: e in xs <==> e in ys
    ensures ZeroHashRoot(env.H, LeavesOf(env, xs)) == ZeroHashRoot(env.H, LeavesOf(env, ys))
  {
    var ls, ms := LeavesOf(env, xs), LeavesOf(env, ys);
    LeavesInclude(env, xs, ys);
    LeavesInclude(env, ys, xs);
    RootIsCanonical(env.H, ls, ms);
  }

  lemma LeavesInclude(env: Env, xs: EntryList, ys: EntryList)
    requires forall e :: e in xs ==> e in ys
    ensures forall l :: l in LeavesOf(env, xs) ==> l in LeavesOf(env, ys)
  {
    forall l | l in LeavesOf(env, xs) ensures l in LeavesOf(env, ys) {
      var k :| 0 <= k < |xs| && LeavesOf(env, xs)[k] == l;
      assert xs[k] in ys;
      var j :| 0 <= j < |ys| && ys[j] == xs[k];
      assert LeavesOf(env, ys)[j] == l;
    }
  }

  lemma GeneratedSerializable(env: Env, ls: seq<ZeroHash.Entry>, index: Index, root: Digest, proof: Proof,
                              nonce: Bytes, updateId: Option<Bytes>)
    requires IsProofFor(env.H, ls, index, proof) && |nonce| == 32 && Is32(updateId)
    ensures Serializable(root, proof, Some(nonce), updateId)
  {
    hide Pow2, SiblingHashes, Below;
  }

  lemma GeneratedVerifies(env: Env, es: EntryList, k: nat, proof: Proof)
    requires DistinctDids(env, es) && k < |es|
    requires IsProofFor(env.H, LeavesOf(env, es), env.DidToIndex(es[k].did), proof)
    ensures Verifies(env.H, proof, env.DidToIndex(es[k].did), LeafOf(env, es[k]),
                     ZeroHashRoot(env.H, LeavesOf(env, es)))
  {
    hide IsProofFor, ZeroHashRoot, Verifies, LeafAt;
    var ls := LeavesOf(env, es);
    LeavesDistinct(env, es);
    LeafAtIs(env.H, ls, k);
    Completeness(env.H, ls, env.DidToIndex(es[k].did), proof);
  }

  /** A finalized tree's serialized proof verifies the entry's own leaf. */
  lemma TreeProofVerifies(env: Env, es: EntryList, k: nat, proof: Proof)
    requires env.Lawful() && DistinctDids(env, es) && k < |es| && |es[k].nonce| == 32
    requires IsProofFor(env.H, LeavesOf(env, es), env.DidToIndex(es[k].did), proof)
    ensures var root := ZeroHashRoot(env.H, LeavesOf(env, es));
            var s := Serialize(env, root, proof, Some(es[k].nonce), UpdateId(env, es[k]));
            && s.Ok?
            && VerifySerialized(env, s.value, env.DidToIndex(es[k].did), LeafOf(env, es[k])) == Ok(true)
  {
    hide Serializable, IsProofFor, Serialize, VerifySerialized, ZeroHashRoot, Verifies, LeafAt, DistinctDids;
    var index := env.DidToIndex(es[k].did);
    var root := ZeroHashRoot(env.H, LeavesOf(env, es));
    GeneratedVerifies(env, es, k, proof);
    GeneratedSerializable(env, LeavesOf(env, es), index, root, proof, es[k].nonce, UpdateId(env, es[k]));
    SerializeRoundTrip(env, root, proof, Some(es[k].nonce), UpdateId(env, es[k]));
    SerializedVerdict(env, root, proof, Some(es[k].nonce), UpdateId(env, es[k]), index, LeafOf(env, es[k]));
  }

  /**
   * The stale snapshot. When a batch throws after `finalize`, the entries it left behind are in
   * the tree but not among the leaves. A proof for such a DID still comes out, and it verifies
   * the DID's leaf exactly when that leaf is the empty leaf; for the DIDs of the snapshot it is
   * right as before.
   */
  lemma StaleProof(env: Env, es: EntryList, n: nat, k: nat, proof: Proof)
    requires DistinctDids(env, es) && n <= |es| && k < |es|
    requires IsProofFor(env.H, LeavesOf(env, es[..n]), env.DidToIndex(es[k].did), proof)
    requires PathResists(env.H, LeavesOf(env, es[..n]), env.DidToIndex(es[k].did))
    ensures Verifies(env.H, proof, env.DidToIndex(es[k].did), LeafOf(env, es[k]),
                     ZeroHashRoot(env.H, LeavesOf(env, es[..n])))
       <==> k < n || LeafOf(env, es[k]) == CachedZero(env.H, 0)
  {
    var ls, index := LeavesOf(env, es[..n]), env.DidToIndex(es[k].did);
    LeavesDistinct(env, es[..n]);
    Completeness(env.H, ls, index, proof);
    if k < n { LeafAtIs(env.H, ls, k); } else { LeafAtAbsent(env.H, ls, index); }
    if Verifies(env.H, proof, index, LeafOf(env, es[k]), ZeroHashRoot(env.H, ls)) {
      Soundness(env.H, ls, proof, index, LeafOf(env, es[k]));
    }
  }
}
