/** Batch validation: what its cache may do to a verdict. */
module SmtBatch {
  import opened Bits
  import opened Hashing
  import opened SmtSpec
  import opened SmtWalk
  import opened SmtBinding
  import opened SmtProof

  datatype Candidate = Candidate(index: Index, hash: Bytes, proof: SMTProof)

  function StartOf(c: Candidate): State { Start(c.proof, c.hash) }

  predicate Verdict(H: HashFn, c: Candidate, cache: Cache, root: Bytes) {
    Scan(H, Outer(c.index), StartOf(c), cache, root)
  }

  /** The cache after a candidate: only a valid one leaves its merges behind. */
  function CacheAfter(H: HashFn, c: Candidate, cache: Cache, root: Bytes): Cache {
    if Verdict(H, c, cache, root) then Store(cache, Outer(c.index), Added(H, Outer(c.index), StartOf(c), cache))
    else cache
  }

  function Verdicts(H: HashFn, cs: seq<Candidate>, cache: Cache, root: Bytes): (r: seq<bool>)
    ensures |r| == |cs|
    decreases |cs|
  {
    if cs == [] then []
    else [Verdict(H, cs[0], cache, root)] + Verdicts(H, cs[1..], CacheAfter(H, cs[0], cache, root), root)
  }

  function CacheAt(H: HashFn, cs: seq<Candidate>, cache: Cache, root: Bytes, k: nat): Cache
    requires k <= |cs|
    decreases k
  {
    if k == 0 then cache
    else CacheAfter(H, cs[k - 1], CacheAt(H, cs, cache, root, k - 1), root)
  }

  lemma {:induction false} VerdictAt(H: HashFn, cs: seq<Candidate>, cache: Cache, root: Bytes, k: nat)
    requires k < |cs|
    ensures Verdicts(H, cs, cache, root)[k] == Verdict(H, cs[k], CacheAt(H, cs, cache, root, k), root)
    decreases |cs|
  {
    if k > 0 {
      CacheAtTail(H, cs, cache, root, k);
      VerdictAt(H, cs[1..], CacheAfter(H, cs[0], cache, root), root, k - 1);
    }
  }

  lemma {:induction false} CacheAtTail(H: HashFn, cs: seq<Candidate>, cache: Cache, root: Bytes, k: nat)
    requires 0 < k <= |cs|
    ensures CacheAt(H, cs, cache, root, k) == CacheAt(H, cs[1..], CacheAfter(H, cs[0], cache, root), root, k - 1)
    decreases k
  {
    if k > 1 { CacheAtTail(H, cs, cache, root, k - 1); }
  }

  /** Deleting the keys a failed candidate added restores the cache. */
  lemma RollBack(H: HashFn, c: Candidate, cache: Cache)
    ensures var ts := Added(H, Outer(c.index), StartOf(c), cache);
            Store(cache, Outer(c.index), ts) - (set key | key in Keys(Outer(c.index), ts)) == cache
  {
    var ts := Added(H, Outer(c.index), StartOf(c), cache);
    StoreKeys(cache, Outer(c.index), ts);
  }

  /** `isValidBatch`: the results in order. */
  method IsValidBatch(H: HashFn, candidates: seq<Candidate>, root: Bytes) returns (results: seq<(Index, bool)>)
    ensures |results| == |candidates|
    ensures forall k :: 0 <= k < |candidates| ==>
              results[k] == (candidates[k].index, Verdicts(H, candidates, map[], root)[k])
  {
    hide Pow2, Scan, Added, Store, Verdicts, KeyOf;
    var cache: Cache := map[];
    results := [];
    for k := 0 to |candidates|
      invariant |results| == k
      invariant cache == CacheAt(H, candidates, map[], root, k)
      invariant forall j :: 0 <= j < k ==>
                  results[j] == (candidates[j].index, Verdicts(H, candidates, map[], root)[j])
    {
      var c := candidates[k];
      VerdictAt(H, candidates, map[], root, k);
      RollBack(H, c, cache);
      var valid, cache', added := Validate(H, c.proof, Outer(c.index), c.hash, root, true, cache);
      cache := if valid then cache' else cache' - (set key | key in added);
      results := results + [(c.index, valid)];
    }
  }

  // ----- Soundness: no assumption on the hash

  function StateOf(e: Depth, p: Partial): State { State(e, p.hash, [], [], p.converge, p.hashes) }

  ghost predicate Anchored(H: HashFn, key: nat, p: Partial, root: Bytes, index: Index, e: Depth) {
    key == KeyOf(Outer(index), e) && Reaches(H, index, StateOf(e, p), root)
  }

  /** Every cached partial continues to the root from its own node. */
  ghost predicate CacheSound(H: HashFn, cache: Cache, root: Bytes) {
    forall key :: key in cache ==> exists index: Index, e: Depth :: Anchored(H, key, cache[key], root, index, e)
  }

  lemma CacheHit(H: HashFn, index: Index, t: State, cache: Cache, root: Bytes)
    requires CacheSound(H, cache, root) && KeyOf(Outer(index), t.e) in cache
    requires t.left == [] && t.right == [] && PartialsEqual(PartialOf(t), cache[KeyOf(Outer(index), t.e)])
    ensures Reaches(H, index, t, root)
  {
    hide Pow2, KeyOf, Climb;
    var key := KeyOf(Outer(index), t.e);
    var j: Index, e: Depth :| Anchored(H, key, cache[key], root, j, e);
    KeyDetermines(index, t.e, j, e);
    assert t == StateOf(e, cache[key]);
    ClimbDependsOnIndex(H, index, j, t);
  }

  lemma {:induction false} ScanSound(H: HashFn, index: Index, s: State, cache: Cache, root: Bytes)
    requires CacheSound(H, cache, root) && Scan(H, Outer(index), s, cache, root)
    ensures Reaches(H, index, s, root)
    decreases s.e
  {
    if s.e > 0 {
      NextOuter(H, index, s);
      var t := Next(H, Outer(index), s).value;
      if s.Merges() && KeyOf(Outer(index), t.e) in cache {
        CacheHit(H, index, t, cache, root);
      } else {
        ScanSound(H, index, t, cache, root);
      }
    }
  }

  lemma NextOuter(H: HashFn, index: Index, s: State)
    requires s.e > 0
    ensures Next(H, Outer(index), s) == Next(H, index, s)
  {
    BitBelowSentinel(index, 256, 256 - s.e);
  }

  lemma {:induction false} AddedReach(H: HashFn, index: Index, s: State, cache: Cache, root: Bytes)
    requires Reaches(H, index, s, root)
    ensures forall k :: 0 <= k < |Added(H, Outer(index), s, cache)| ==>
              var t := Added(H, Outer(index), s, cache)[k];
              t.left == [] && t.right == [] && Reaches(H, index, t, root)
    decreases s.e
  {
    if s.e > 0 {
      NextOuter(H, index, s);
      AddedReach(H, index, Next(H, index, s).value, cache, root);
    }
  }

  lemma {:induction false} StoreSound(H: HashFn, index: Index, cache: Cache, ts: seq<State>, root: Bytes)
    requires CacheSound(H, cache, root)
    requires forall k :: 0 <= k < |ts| ==>
               ts[k].left == [] && ts[k].right == [] && Reaches(H, index, ts[k], root)
    ensures CacheSound(H, Store(cache, Outer(index), ts), root)
    decreases |ts|
  {
    if ts != [] {
      var key, p := KeyOf(Outer(index), ts[0].e), PartialOf(ts[0]);
      assert StateOf(ts[0].e, p) == ts[0];
      assert Anchored(H, key, p, root, index, ts[0].e);
      StoreSound(H, index, cache[key := p], ts[1..], root);
    }
  }

  lemma {:induction false} CacheStaysSound(H: HashFn, cs: seq<Candidate>, root: Bytes, k: nat)
    requires k <= |cs|
    ensures CacheSound(H, CacheAt(H, cs, map[], root, k), root)
    decreases k
  {
    if k > 0 {
      var c, cache := cs[k - 1], CacheAt(H, cs, map[], root, k - 1);
      CacheStaysSound(H, cs, root, k - 1);
      if Verdict(H, c, cache, root) {
        ScanSound(H, c.index, StartOf(c), cache, root);
        AddedReach(H, c.index, StartOf(c), cache, root);
        StoreSound(H, c.index, cache, Added(H, Outer(c.index), StartOf(c), cache), root);
      }
    }
  }

  /** Whatever the batch accepts is valid on its own: the cache never lets a bad proof through. */
  lemma BatchIsSound(H: HashFn, cs: seq<Candidate>, root: Bytes, k: nat)
    requires k < |cs| && Verdicts(H, cs, map[], root)[k]
    ensures IsValid(H, cs[k].proof, cs[k].index, cs[k].hash, root)
  {
    VerdictAt(H, cs, map[], root, k);
    CacheStaysSound(H, cs, root, k);
    ScanSound(H, cs[k].index, StartOf(cs[k]), CacheAt(H, cs, map[], root, k), root);
  }

  // ----- Exactness for proofs of one tree

  /** Nothing else hashes to what this run hashes. */
  ghost predicate RunResists(H: HashFn, index: nat, s: State)
    decreases s.e
  {
    && (Pads(s) ==> NoSecondPreimage(H, s.left + s.hash + s.right))
    && (s.Merges() && s.hashes != [] ==> NoSecondPreimage(H, MergeInput(H, index, s)))
    && (s.e > 0 && Next(H, index, s).Some? ==> RunResists(H, index, Next(H, index, s).value))
  }

  lemma {:induction false} ResistsNoCollision(H: HashFn, index: nat, s: State, t: State)
    requires RunResists(H, index, s)
    ensures !RunCollision(H, index, s, t)
    decreases s.e
  {
    if s.e > 0 && t.e > 0 && Next(H, index, s).Some? && Next(H, index, t).Some? {
      ResistsNoCollision(H, index, Next(H, index, s).value, Next(H, index, t).value);
    }
  }

  /** `t` is a merged state on the run from `s`. */
  ghost predicate OnRun(H: HashFn, index: nat, s: State, t: State)
    decreases s.e
  {
    s.e > 0 && Next(H, index, s).Some?
    && ((s.Merges() && t == Next(H, index, s).value) || OnRun(H, index, Next(H, index, s).value, t))
  }

  /** What a run keeps: bits and siblings are consumed in order, and it still reaches the root. */
  lemma {:induction false} OnRunFacts(H: HashFn, index: nat, s: State, t: State, root: Bytes)
    requires Reaches(H, index, s, root) && RunResists(H, index, s) && OnRun(H, index, s, t) && All32(s.hashes)
    ensures t.e < s.e && t.left == [] && t.right == [] && |t.hash| == 32 && All32(t.hashes)
    ensures Reaches(H, index, t, root) && RunResists(H, index, t)
    ensures forall k: nat :: Bit(t.remaining, k) == (Bit(s.remaining, k) && !(t.e <= k < s.e))
    decreases s.e
  {
    var n := Next(H, index, s).value;
    forall k: nat ensures Bit(n.remaining, k) == (Bit(s.remaining, k) && k != s.e - 1) {
      if s.Merges() { BitClearBit(s.remaining, s.e - 1, k); }
    }
    if !(s.Merges() && t == n) { OnRunFacts(H, index, n, t, root); }
  }

  lemma {:induction false} ConvergesAbove(S: set<Index>, d: Depth, i: Index, j: Index, e: nat, k: nat)
    requires i in S && j in S && d <= e <= 256 && SameBits(i, j, 0, e) && k < e
    ensures Converges(S, d, i, k) == Converges(S, d, j, k)
    decreases 256 - d
  {
    var b := BranchDepth(S, d);
    if b < 256 {
      if b < e {
        assert At(i, b) == At(j, b);
        ConvergesAbove(Side(S, b, At(i, b)), b + 1, i, j, e, k);
      } else {
        if Converges(S, d, i, k) { ConvergesFrom(S, d, i, k); }
        if Converges(S, d, j, k) { ConvergesFrom(S, d, j, k); }
      }
    }
  }

  lemma ConvergesFrom(S: set<Index>, d: Depth, i: Index, k: nat)
    requires i in S && Converges(S, d, i, k)
    ensures k >= BranchDepth(S, d)
  {
    var b := BranchDepth(S, d);
    if k != b { ConvergesBelow(Side(S, b, At(i, b)), b + 1, i, k); }
  }

  /** A leaf of the tree whose issued proof hashes nothing with a second preimage. */
  ghost predicate Sturdy(H: HashFn, hs: Hashes, index: Index, proof: SMTProof) {
    IsIssued(H, hs, index, proof) && RunResists(H, index, Start(proof, hs[index]))
  }

  lemma IssuedReaches(H: HashFn, hs: Hashes, index: Index, proof: SMTProof)
    requires IsIssued(H, hs, index, proof)
    ensures Reaches(H, index, Start(proof, hs[index]), RefRoot(H, hs)) && All32(proof.hashes)
  {
    IssuedProofIsValid(H, hs, index, proof);
  }

  /** Two runs of the tree that meet in a node agree on all that is left there. */
  lemma RunsMeet(H: HashFn, hs: Hashes, i: Index, p: SMTProof, t: State, j: Index, q: SMTProof, u: State)
    requires Sturdy(H, hs, i, p) && OnRun(H, i, Start(p, hs[i]), t)
    requires Sturdy(H, hs, j, q) && OnRun(H, j, Start(q, hs[j]), u)
    requires t.e == u.e && SameBits(i, j, 0, t.e)
    ensures t == u
  {
    hide Pow2, Climb, Next, OnRun, RunResists, ConvergeBits, RefRoot, All32;
    var root := RefRoot(H, hs);
    IssuedReaches(H, hs, i, p);
    IssuedReaches(H, hs, j, q);
    OnRunFacts(H, i, Start(p, hs[i]), t, root);
    OnRunFacts(H, j, Start(q, hs[j]), u, root);
    SameRemaining(hs.Keys, i, p.converge, t.remaining, j, q.converge, u.remaining, t.e);
    ClimbDependsOnIndex(H, i, j, u);
    ResistsNoCollision(H, i, t, u);
    RunsBind(H, i, t, u, root);
  }

  lemma SameRemaining(S: set<Index>, i: Index, p: nat, x: nat, j: Index, q: nat, y: nat, e: Depth)
    requires i in S && j in S && SameBits(i, j, 0, e)
    requires p < Pow2(256) && ConvergeBits(S, 0, i, p) && q < Pow2(256) && ConvergeBits(S, 0, j, q)
    requires ClearedFrom(p, x, e) && ClearedFrom(q, y, e)
    ensures x == y
  {
    forall k: nat ensures Bit(x, k) == Bit(y, k) {
      if k < e {
        ConvergesAbove(S, 0, i, j, e, k);
      } else if k >= 256 {
        BitAboveWidth(p, 256, k);
        BitAboveWidth(q, 256, k);
      }
    }
    BitsDetermine(x, y);
  }

  /** Where the cache knows a node of an issued run, it knows it as the run has it. */
  ghost predicate CacheAgrees(H: HashFn, hs: Hashes, cache: Cache) {
    forall i: Index, p: SMTProof, t: State ::
      (Sturdy(H, hs, i, p) && OnRun(H, i, Start(p, hs[i]), t) && KeyOf(Outer(i), t.e) in cache) ==>
        cache[KeyOf(Outer(i), t.e)] == PartialOf(t)
  }

  /** On an issued run every cache hit is a match, so the batch accepts it. */
  lemma {:induction false} ScanComplete(H: HashFn, hs: Hashes, index: Index, proof: SMTProof, s: State, cache: Cache)
    requires Sturdy(H, hs, index, proof) && CacheAgrees(H, hs, cache)
    requires Reaches(H, index, s, RefRoot(H, hs)) && RunResists(H, index, s) && All32(s.hashes)
    requires forall t :: OnRun(H, index, s, t) ==> OnRun(H, index, Start(proof, hs[index]), t)
    ensures Scan(H, Outer(index), s, cache, RefRoot(H, hs))
    decreases s.e
  {
    if s.e > 0 {
      NextOuter(H, index, s);
      var t := Next(H, index, s).value;
      if s.Merges() && KeyOf(Outer(index), t.e) in cache {
        assert OnRun(H, index, s, t);
        assert PartialsEqual(PartialOf(t), PartialOf(t));
      } else {
        ScanComplete(H, hs, index, proof, t, cache);
      }
    }
  }

  lemma {:induction false} AddedOnRun(H: HashFn, index: Index, s: State, cache: Cache, k: nat)
    requires k < |Added(H, Outer(index), s, cache)|
    ensures OnRun(H, index, s, Added(H, Outer(index), s, cache)[k])
    decreases s.e
  {
    NextOuter(H, index, s);
    var t := Next(H, index, s).value;
    if s.Merges() {
      if k > 0 { AddedOnRun(H, index, t, cache, k - 1); }
    } else {
      AddedOnRun(H, index, t, cache, k);
    }
  }

  lemma {:induction false} StoreAgrees(H: HashFn, hs: Hashes, index: Index, proof: SMTProof, cache: Cache,
                                       ts: seq<State>)
    requires Sturdy(H, hs, index, proof) && CacheAgrees(H, hs, cache)
    requires forall k :: 0 <= k < |ts| ==> OnRun(H, index, Start(proof, hs[index]), ts[k])
    ensures CacheAgrees(H, hs, Store(cache, Outer(index), ts))
    decreases |ts|
  {
    if ts != [] {
      var u := ts[0];
      var cache' := cache[KeyOf(Outer(index), u.e) := PartialOf(u)];
      forall i: Index, p: SMTProof, t: State | Sturdy(H, hs, i, p) && OnRun(H, i, Start(p, hs[i]), t)
        && KeyOf(Outer(i), t.e) in cache'
        ensures cache'[KeyOf(Outer(i), t.e)] == PartialOf(t)
      {
        KeyDetermines(i, t.e, index, u.e);
        if KeyOf(Outer(i), t.e) == KeyOf(Outer(index), u.e) {
          RunsMeet(H, hs, i, p, t, index, proof, u);
        }
      }
      StoreAgrees(H, hs, index, proof, cache', ts[1..]);
    }
  }

  /** A candidate valid under an issued proof carries the leaf of the tree. */
  lemma ValidIsLeaf(H: HashFn, hs: Hashes, index: Index, proof: SMTProof, candidate: Bytes)
    requires Sturdy(H, hs, index, proof) && IsValid(H, proof, index, candidate, RefRoot(H, hs))
    ensures candidate == hs[index]
  {
    IssuedReaches(H, hs, index, proof);
    ResistsNoCollision(H, index, Start(proof, hs[index]), Start(proof, candidate));
    RunsBind(H, index, Start(proof, hs[index]), Start(proof, candidate), RefRoot(H, hs));
  }

  lemma {:induction false} CacheStaysAgreed(H: HashFn, hs: Hashes, cs: seq<Candidate>, k: nat)
    requires k <= |cs| && forall c :: c in cs ==> Sturdy(H, hs, c.index, c.proof)
    ensures CacheAgrees(H, hs, CacheAt(H, cs, map[], RefRoot(H, hs), k))
    decreases k
  {
    hide Pow2, Climb, Next, OnRun, RunResists, Added, Scan, Store, KeyOf;
    if k > 0 {
      var root := RefRoot(H, hs);
      var c, cache := cs[k - 1], CacheAt(H, cs, map[], root, k - 1);
      CacheStaysAgreed(H, hs, cs, k - 1);
      if Verdict(H, c, cache, root) {
        CacheStaysSound(H, cs, root, k - 1);
        ScanSound(H, c.index, StartOf(c), cache, root);
        ValidIsLeaf(H, hs, c.index, c.proof, c.hash);
        var ts := Added(H, Outer(c.index), StartOf(c), cache);
        forall j | 0 <= j < |ts| ensures OnRun(H, c.index, StartOf(c), ts[j]) {
          AddedOnRun(H, c.index, StartOf(c), cache, j);
        }
        StoreAgrees(H, hs, c.index, c.proof, cache, ts);
      }
    }
  }

  /**
   * For proofs issued by one tree, with any candidate hashes, in any order and with repeats, the
   * batch gives every candidate the verdict it has on its own.
   */
  lemma BatchIsExact(H: HashFn, hs: Hashes, cs: seq<Candidate>, k: nat)
    requires k < |cs| && forall c :: c in cs ==> Sturdy(H, hs, c.index, c.proof)
    ensures Verdicts(H, cs, map[], RefRoot(H, hs))[k]
       <==> IsValid(H, cs[k].proof, cs[k].index, cs[k].hash, RefRoot(H, hs))
  {
    var root := RefRoot(H, hs);
    var c, cache := cs[k], CacheAt(H, cs, map[], root, k);
    VerdictAt(H, cs, map[], root, k);
    if Verdicts(H, cs, map[], root)[k] { BatchIsSound(H, cs, root, k); }
    if IsValid(H, c.proof, c.index, c.hash, root) {
      ValidIsLeaf(H, hs, c.index, c.proof, c.hash);
      CacheStaysAgreed(H, hs, cs, k);
      IssuedReaches(H, hs, c.index, c.proof);
      ScanComplete(H, hs, c.index, c.proof, StartOf(c), cache);
    }
  }
}
