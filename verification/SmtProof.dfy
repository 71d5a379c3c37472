/** Checking proofs of the path-compressed tree, one at a time and in batches with a cache. */
module SmtProof {
  import opened Bits
  import opened Hashing
  import opened SmtSpec
  import opened SmtWalk

  datatype Partial = Partial(hash: Bytes, converge: nat, hashes: seq<Bytes>)

  type Cache = map<nat, Partial>

  function PartialOf(s: State): Partial { Partial(s.hash, s.remaining, s.hashes) }

  predicate PartialsEqual(p: Partial, q: Partial) {
    && HashesEqual(p.hash, q.hash)
    && p.converge == q.converge
    && |p.hashes| == |q.hashes|
    && forall k :: 0 <= k < |p.hashes| ==> HashesEqual(p.hashes[k], q.hashes[k])
  }

  /** Equal to a cached result is only what is the same, with a hash and siblings of 32 bytes each. */
  lemma PartialsEqualIff(p: Partial, q: Partial)
    ensures PartialsEqual(p, q) <==> p == q && |p.hash| == 32 && All32(p.hashes)
  {
    if PartialsEqual(p, q) { assert p.hashes == q.hashes; }
  }

  /** `index | OUTER_BIT`. */
  function Outer(index: Index): nat { index + Pow2(256) }

  /** Cache key of the node at depth `e` on the way to `index`: the sentinel tells the depth apart. */
  function KeyOf(outer: nat, e: Depth): nat { Shr(outer, 256 - e) }

  /** Equal keys at equal depths mean equal bits above that depth. */
  lemma {:induction false} SameShift(x: nat, y: nat, n: nat, s: nat)
    requires x < Pow2(n) && y < Pow2(n) && s <= n
    requires forall k :: s <= k < n ==> Bit(x, k) == Bit(y, k)
    ensures Shr(x + Pow2(n), s) == Shr(y + Pow2(n), s)
  {
    if s == 0 {
      BitExtensional(x, y, n);
    } else {
      assert (x + Pow2(n)) / 2 == x / 2 + Pow2(n - 1) && (y + Pow2(n)) / 2 == y / 2 + Pow2(n - 1);
      forall k | s - 1 <= k < n - 1 ensures Bit(x / 2, k) == Bit(y / 2, k) { assert Bit(x, k + 1) == Bit(y, k + 1); }
      SameShift(x / 2, y / 2, n - 1, s - 1);
    }
  }

  lemma ShiftedBit(x: nat, n: nat, s: nat, k: nat)
    requires s <= k < n
    ensures Bit(Shr(x + Pow2(n), s), k - s) == Bit(x, k)
  {
    BitShr(x + Pow2(n), s, k - s);
    BitBelowSentinel(x, n, k);
  }

  lemma ShiftTellsDepth(x: nat, y: nat, n: nat, s: nat, t: nat)
    requires x < Pow2(n) && y < Pow2(n) && s <= n && t <= n
    requires Shr(x + Pow2(n), s) == Shr(y + Pow2(n), t)
    ensures s == t
  {
    ShrSentinelRange(x, n, s);
    ShrSentinelRange(y, n, t);
    if s < t { Pow2Monotone(n - t, n - s); }
    if t < s { Pow2Monotone(n - s, n - t); }
  }

  /** A cache key names a depth and the bits of the path above it. */
  lemma KeyDetermines(i: Index, d: Depth, j: Index, e: Depth)
    ensures KeyOf(Outer(i), d) == KeyOf(Outer(j), e) <==> d == e && SameBits(i, j, 0, d)
  {
    if KeyOf(Outer(i), d) == KeyOf(Outer(j), e) {
      ShiftTellsDepth(i, j, 256, 256 - d, 256 - e);
      forall k | 0 <= k < d ensures At(i, k) == At(j, k) {
        ShiftedBit(i, 256, 256 - d, 255 - k);
        ShiftedBit(j, 256, 256 - d, 255 - k);
      }
    }
    if d == e && SameBits(i, j, 0, d) {
      forall k | 256 - d <= k < 256 ensures Bit(i, k) == Bit(j, k) { assert At(i, 255 - k) == At(j, 255 - k); }
      SameShift(i, j, 256, 256 - d);
    }
  }

  /** The sentinel bit of the batch mode changes nothing in a walk. */
  lemma ClimbOuter(H: HashFn, index: Index, s: State)
    ensures Climb(H, Outer(index), s) == Climb(H, index, s)
  {
    forall k | 0 <= k < s.e ensures At(Outer(index), k) == At(index, k) { BitBelowSentinel(index, 256, 255 - k); }
    ClimbDependsOnIndex(H, Outer(index), index, s);
  }

  // ----- One candidate against the cache

  /** Verdict of the walk when merges are looked up in `cache`. */
  predicate Scan(H: HashFn, outer: nat, s: State, cache: Cache, root: Bytes)
    decreases s.e
  {
    if s.e == 0 then s.hashes == [] && HashesEqual(PaddedHash(H, s), root) else
    match Next(H, outer, s)
    case None => false
    case Some(t) =>
      if s.Merges() && KeyOf(outer, t.e) in cache then PartialsEqual(PartialOf(t), cache[KeyOf(outer, t.e)])
      else Scan(H, outer, t, cache, root)
  }

  /** The merged states the walk adds on its way: those before the first one found in `cache`. */
  function Added(H: HashFn, outer: nat, s: State, cache: Cache): (r: seq<State>)
    ensures forall k :: 0 <= k < |r| ==> r[k].e < s.e
    ensures forall k :: 0 <= k < |r| ==> KeyOf(outer, r[k].e) !in cache
    decreases s.e
  {
    if s.e == 0 then [] else
    match Next(H, outer, s)
    case None => []
    case Some(t) =>
      if !s.Merges() then Added(H, outer, t, cache)
      else if KeyOf(outer, t.e) in cache then []
      else [t] + Added(H, outer, t, cache)
  }

  function Keys(outer: nat, ts: seq<State>): (r: seq<nat>)
    ensures |r| == |ts| && forall k :: 0 <= k < |ts| ==> r[k] == KeyOf(outer, ts[k].e)
  {
    seq(|ts|, k requires 0 <= k < |ts| => KeyOf(outer, ts[k].e))
  }

  function Store(cache: Cache, outer: nat, ts: seq<State>): Cache
    decreases |ts|
  {
    if ts == [] then cache else Store(cache[KeyOf(outer, ts[0].e) := PartialOf(ts[0])], outer, ts[1..])
  }

  lemma {:induction false} StoreAppend(cache: Cache, outer: nat, ts: seq<State>, t: State)
    ensures Store(cache, outer, ts + [t])
         == Store(cache, outer, ts)[KeyOf(outer, t.e) := PartialOf(t)]
    decreases |ts|
  {
    if ts != [] {
      assert (ts + [t])[1..] == ts[1..] + [t];
      StoreAppend(cache[KeyOf(outer, ts[0].e) := PartialOf(ts[0])], outer, ts[1..], t);
    } else {
      assert [t][1..] == [] && ts + [t] == [t];
    }
  }

  lemma {:induction false} StoreKeys(cache: Cache, outer: nat, ts: seq<State>)
    ensures forall key :: key in Store(cache, outer, ts) <==> key in cache || key in Keys(outer, ts)
    ensures forall key :: key in cache && key !in Keys(outer, ts) ==> Store(cache, outer, ts)[key] == cache[key]
    decreases |ts|
  {
    if ts != [] {
      var first := KeyOf(outer, ts[0].e);
      StoreKeys(cache[first := PartialOf(ts[0])], outer, ts[1..]);
      assert Keys(outer, ts) == [first] + Keys(outer, ts[1..]);
    }
  }

  // ----- `#validate`

  /** What the loop of `Validate` keeps: from `s` on, everything comes out as from the start. */
  ghost predicate Pending(H: HashFn, index: nat, start: State, s: State, root: Bytes, batch: bool, cache: Cache,
                          stored: seq<State>)
  {
    && (!batch ==> Climb(H, index, start) == Climb(H, index, s))
    && (batch ==> Scan(H, index, start, cache, root) == Scan(H, index, s, cache, root))
    && (batch ==> Added(H, index, start, cache) == stored + Added(H, index, s, cache))
  }

  /** What was stored so far, in the cache and in the list of keys. */
  ghost predicate Recorded(index: nat, batch: bool, cache: Cache, cache': Cache, added: seq<nat>, stored: seq<State>) {
    if batch then cache' == Store(cache, index, stored) && added == Keys(index, stored) else cache' == cache
  }

  /** The verdict, the cache and the added keys of one call. */
  ghost predicate Outcome(H: HashFn, index: nat, start: State, root: Bytes, batch: bool, cache: Cache,
                          valid: bool, cache': Cache, added: seq<nat>)
  {
    && valid == (if batch then Scan(H, index, start, cache, root) else Reaches(H, index, start, root))
    && Recorded(index, batch, cache, cache', added, Added(H, index, start, cache))
  }

  lemma PendingNext(H: HashFn, index: nat, start: State, s: State, t: State, root: Bytes, batch: bool, cache: Cache,
                    stored: seq<State>)
    requires Pending(H, index, start, s, root, batch, cache, stored)
    requires s.e > 0 && Next(H, index, s) == Some(t)
    requires batch && s.Merges() ==> KeyOf(index, t.e) !in cache
    ensures Pending(H, index, start, t, root, batch, cache, if batch && s.Merges() then stored + [t] else stored)
  {
    if batch && s.Merges() {
      assert stored + Added(H, index, s, cache) == stored + [t] + Added(H, index, t, cache);
    }
  }

  /** The three ways a walk ends: out of siblings, at a cached node, at the root. */
  lemma PendingEnd(H: HashFn, index: nat, start: State, s: State, root: Bytes, batch: bool, cache: Cache,
                   cache': Cache, added: seq<nat>, stored: seq<State>)
    requires Pending(H, index, start, s, root, batch, cache, stored)
    requires Recorded(index, batch, cache, cache', added, stored)
    ensures s.e > 0 && Next(H, index, s) == None ==>
              Outcome(H, index, start, root, batch, cache, false, cache', added)
    ensures s.e > 0 && s.Merges() && Next(H, index, s).Some? && batch
            && KeyOf(index, Next(H, index, s).value.e) in cache ==>
              Outcome(H, index, start, root, batch, cache,
                      PartialsEqual(PartialOf(Next(H, index, s).value), cache[KeyOf(index, s.e - 1)]), cache', added)
    ensures s.e == 0 ==>
              Outcome(H, index, start, root, batch, cache,
                      s.hashes == [] && HashesEqual(PaddedHash(H, s), root), cache', added)
  {
    hide Store, Keys;
    assert stored + [] == stored;
  }

  /** A walk climbs, so it never meets a key it stored itself. */
  lemma OwnKeysAreNew(outer: nat, e: Depth, stored: seq<State>)
    requires Pow2(256) <= outer < 2 * Pow2(256)
    requires forall k :: 0 <= k < |stored| ==> stored[k].e > e
    ensures KeyOf(outer, e) !in Keys(outer, stored)
  {
    var index: Index := outer - Pow2(256);
    forall k | 0 <= k < |stored| ensures KeyOf(outer, e) != KeyOf(outer, stored[k].e) {
      KeyDetermines(index, e, index, stored[k].e);
    }
  }

  /**
   * `#validate`. With `batch` unset no callback is given and the cache is left alone; with it set
   * the index carries the sentinel bit, each merge is looked up, and new merges are recorded.
   */
  method Validate(H: HashFn, proof: SMTProof, index: nat, candidate: Bytes, root: Bytes, batch: bool, cache: Cache)
    returns (valid: bool, cache': Cache, added: seq<nat>)
    requires batch ==> Pow2(256) <= index < 2 * Pow2(256)
    ensures Outcome(H, index, Start(proof, candidate), root, batch, cache, valid, cache', added)
  {
    hide Climb, Scan, Added, Next, MergeInput, KeyOf, Pow2, Outcome;
    ghost var start := Start(proof, candidate);
    var nodeIndex, nodeHash, remaining, hi := index, candidate, proof.converge, 0;
    var leftPad: Bytes, rightPad: Bytes := [], [];
    cache', added := cache, [];
    ghost var stored: seq<State> := [];
    var i := 0;
    ghost var s := start;
    assert proof.hashes[0..] == proof.hashes;
    assert Pending(H, index, start, s, root, batch, cache, stored);
    while i < 256
      invariant 0 <= i <= 256 && 0 <= hi <= |proof.hashes|
      invariant nodeIndex == Shr(index, i)
      invariant s == State(256 - i, nodeHash, leftPad, rightPad, remaining, proof.hashes[hi..])
      invariant Pending(H, index, start, s, root, batch, cache, stored)
      invariant Recorded(index, batch, cache, cache', added, stored)
      invariant forall k :: 0 <= k < |stored| ==> stored[k].e >= 256 - i
    {
      var isLeft := nodeIndex % 2 == 0;
      nodeIndex := nodeIndex / 2;
      StepIndex(index, i);
      PendingEnd(H, index, start, s, root, batch, cache, cache', added, stored);
      ghost var t;
      if Bit(remaining, 255 - i) {
        if hi >= |proof.hashes| {
          NextIs(H, index, s);
          return false, cache', added;
        }
        remaining := ClearBit(remaining, 255 - i);
        nodeHash := Padded(H, leftPad, nodeHash, rightPad);
        leftPad, rightPad := [], [];
        var peer := proof.hashes[hi];
        hi := hi + 1;
        nodeHash := if isLeft then Hash2(H, nodeHash, peer) else Hash2(H, peer, nodeHash);
        t := State(255 - i, nodeHash, [], [], remaining, proof.hashes[hi..]);
        NextIs(H, index, s);
        assert Next(H, index, s) == Some(t);
        if batch {
          var partial := Partial(nodeHash, remaining, proof.hashes[hi..]);
          OwnKeysAreNew(index, t.e, stored);
          StoreKeys(cache, index, stored);
          if nodeIndex in cache' {
            return PartialsEqual(partial, cache'[nodeIndex]), cache', added;
          }
          PendingNext(H, index, start, s, t, root, batch, cache, stored);
          StoreAppend(cache, index, stored, t);
          cache', added := cache'[nodeIndex := partial], added + [nodeIndex];
          stored := stored + [t];
        } else {
          PendingNext(H, index, start, s, t, root, batch, cache, stored);
        }
      } else {
        if isLeft {
          rightPad := rightPad + [(255 - i) as Byte];
        } else {
          leftPad := [(255 - i) as Byte] + leftPad;
        }
        t := s.(e := 255 - i, left := leftPad, right := rightPad);
        NextIs(H, index, s);
        assert Next(H, index, s) == Some(t);
        PendingNext(H, index, start, s, t, root, batch, cache, stored);
      }
      s := t;
      i := i + 1;
    }
    PendingEnd(H, index, start, s, root, batch, cache, cache', added, stored);
    nodeHash := Padded(H, leftPad, nodeHash, rightPad);
    valid := hi == |proof.hashes| && HashesEqual(nodeHash, root);
  }

  lemma StepIndex(index: nat, i: nat)
    requires i < 256
    ensures Shr(index, i) % 2 == 0 <==> !At(index, 255 - i)
    ensures Shr(index, i) / 2 == Shr(index, i + 1) == KeyOf(index, 255 - i)
  {
    BitShr(index, i, 0);
    ShrOne(index, i);
  }

  lemma NextIs(H: HashFn, index: nat, s: State)
    requires s.e > 0
    ensures var d := s.e - 1;
            Next(H, index, s)
            == if s.Merges() then
                 if s.hashes == [] then None
                 else var p := Padded(H, s.left, s.hash, s.right);
                      Some(State(d, if At(index, d) then Hash2(H, s.hashes[0], p) else Hash2(H, p, s.hashes[0]),
                                 [], [], ClearBit(s.remaining, d), s.hashes[1..]))
               else if At(index, d) then Some(s.(e := d, left := [d as Byte] + s.left))
               else Some(s.(e := d, right := s.right + [d as Byte]))
  {
  }
}
