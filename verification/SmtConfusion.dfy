/**
 * What the bitmap guard of `SmtBinding` is for: next to every proof whose lowest run skips exactly
 * 32 levels there is a proof under another bitmap, with which a different candidate is valid at
 * the same index against the same root, although the two walks need not collide anywhere.
 */
module SmtConfusion {
  import opened Bits
  import opened Hashing
  import opened SmtSpec
  import opened SmtWalk
  import opened SmtBinding

  /** Where a path turns the same way at every level from `a` on, the pad bytes are on one side of the hash. */
  predicate OneWay(index: nat, a: nat) {
    forall k :: a <= k < 256 ==> At(index, k) == At(index, a)
  }

  predicate AllSet(x: nat, d: nat, e: nat) {
    forall k: nat :: d <= k < e ==> Bit(x, k)
  }

  /** The lowest skipped run is `[a, a + 32)`: every level below it has a sibling. */
  predicate LowestRun(converge: nat, a: nat) {
    a <= 224 && Skips(converge, a, a + 32) && AllSet(converge, a + 32, 256)
  }

  /** The other bitmap: siblings from depth `a` to 224, and none in the 31 levels above the leaf. */
  ghost predicate Raised(converge: nat, raised: nat, a: nat) {
    forall k: nat :: Bit(raised, k) <==> (a <= k < 225 || (Bit(converge, k) && !(225 <= k < 256)))
  }

  /** The pad bytes of the levels `[d, b)` around a hash. */
  function Around(index: nat, d: nat, b: Depth, hash: Bytes): Bytes
    requires d <= b
  {
    LeftPad(index, d, b) + hash + RightPad(index, d, b)
  }

  /** The candidate that is confused with `x`. */
  function Twin(H: HashFn, index: nat, x: Bytes): Digest { H(Around(index, 225, 256, x)) }

  /** The sibling made of depth bytes. */
  function Peer(index: nat, a: nat): (p: Bytes)
    requires a <= 224
    ensures |p| == 32
  {
    PadLengths(index, a, a + 32);
    hide LeftPad, RightPad;
    Around(index, a, a + 32, [])
  }

  // ----- Two bitmaps

  /** The bits in `[lo, hi)` set to one value. */
  lemma {:induction false} WithBits(x: nat, lo: nat, hi: nat, value: bool) returns (y: nat)
    requires lo <= hi
    ensures forall k: nat :: Bit(y, k) == (if lo <= k < hi then value else Bit(x, k))
    decreases hi - lo
  {
    if lo == hi {
      y := x;
    } else {
      var z := WithBits(x, lo + 1, hi, value);
      y := if value then SetBit(z, lo) else ClearBit(z, lo);
      forall k: nat ensures Bit(y, k) == (if lo <= k < hi then value else Bit(x, k)) {
        BitSetBit(z, lo, k);
        BitClearBit(z, lo, k);
      }
    }
  }

  lemma RaisedBitmap(converge: nat, a: nat) returns (raised: nat)
    requires LowestRun(converge, a)
    ensures Raised(converge, raised, a) && raised != converge
  {
    var cleared := WithBits(converge, 225, 256, false);
    raised := WithBits(cleared, a, 225, true);
    assert Bit(raised, a) && !Bit(converge, a);
  }

  /** The other bitmap has no run of 32 but those further up. */
  lemma RunsOf(converge: nat, raised: nat, a: nat)
    requires LowestRun(converge, a) && Raised(converge, raised, a)
    requires forall c: nat, d: Depth :: Skips(converge, c, d) && d < a ==> d - c != 32
    ensures NoRunOf32(raised)
  {
    forall c: nat, d: Depth | Skips(raised, c, d) ensures d - c != 32 {
      if d < a {
        assert Skips(converge, c, d);
      } else {
        assert !Bit(raised, c) && Bit(raised, a) && (a > 0 ==> Bit(raised, a - 1));
        assert c >= 225;
      }
    }
  }

  // ----- Two walks

  /** From `s` and from `t` on the same roots are reached, and from `s` on `inputs` is hashed besides. */
  ghost predicate Leads(H: HashFn, index: nat, s: State, t: State, inputs: set<Bytes>) {
    && (forall root: Bytes :: Reaches(H, index, s, root) == Reaches(H, index, t, root))
    && Inputs(H, index, s) == inputs + Inputs(H, index, t)
  }

  lemma LeadsOn(H: HashFn, index: nat, s: State, t: State, u: State, first: set<Bytes>, then': set<Bytes>)
    requires Leads(H, index, s, t, first) && Leads(H, index, t, u, then')
    ensures Leads(H, index, s, u, first + then')
  {
    hide Reaches, Inputs;
  }

  /** Levels without a sibling hash nothing. */
  lemma {:induction false} SkipsHashNothing(H: HashFn, index: nat, hash: Bytes, b: Depth, e: Depth, d: Depth,
                                            remaining: nat, hashes: seq<Bytes>)
    requires d <= e <= b
    requires forall k :: d <= k < e ==> !Bit(remaining, k)
    ensures Inputs(H, index, State(e, hash, LeftPad(index, e, b), RightPad(index, e, b), remaining, hashes))
         == Inputs(H, index, State(d, hash, LeftPad(index, d, b), RightPad(index, d, b), remaining, hashes))
    decreases e - d
  {
    if d < e {
      var s := State(e, hash, LeftPad(index, e, b), RightPad(index, e, b), remaining, hashes);
      var t := State(e - 1, hash, LeftPad(index, e - 1, b), RightPad(index, e - 1, b), remaining, hashes);
      assert [] + s.left == s.left && s.right + [] == s.right;
      assert Next(H, index, s) == Some(t);
      SkipsHashNothing(H, index, hash, b, e - 1, d, remaining, hashes);
    }
  }

  /** A skipped run `[d, b)`, padded at its upper end. */
  lemma SkipThenPad(H: HashFn, index: nat, hash: Bytes, b: Depth, d: Depth, remaining: nat, hashes: seq<Bytes>)
    requires d < b && (forall k :: d <= k < b ==> !Bit(remaining, k)) && (d == 0 || Bit(remaining, d - 1))
    ensures var s := State(b, hash, [], [], remaining, hashes);
            var t := State(d, H(Around(index, d, b, hash)), [], [], remaining, hashes);
            Leads(H, index, s, t, {Around(index, d, b, hash)})
  {
    hide Climb, Inputs;
    NoPadsAt(index, b);
    PadLengths(index, d, b);
    hide LeftPad, RightPad;
    ClimbSkips(H, index, hash, b, b, d, remaining, hashes);
    SkipsHashNothing(H, index, hash, b, b, d, remaining, hashes);
    var s := State(d, hash, LeftPad(index, d, b), RightPad(index, d, b), remaining, hashes);
    PadLeads(H, index, s, State(d, H(Around(index, d, b, hash)), [], [], remaining, hashes));
  }

  lemma NoPadsAt(index: nat, b: Depth)
    ensures LeftPad(index, b, b) == [] && RightPad(index, b, b) == []
  {
  }

  /** Pads pending or hashed in already: from there on the walks are the same. */
  lemma PadLeads(H: HashFn, index: nat, s: State, t: State)
    requires s.e == t.e && s.remaining == t.remaining && s.hashes == t.hashes && Pads(s)
    requires t.left == [] && t.right == [] && t.hash == PaddedHash(H, s)
    ensures Leads(H, index, s, t, {PadInput(s)})
  {
    if s.e > 0 && s.hashes != [] { assert Next(H, index, s) == Next(H, index, t); }
  }

  function Joined(right: bool, hash: Bytes, sibling: Bytes): Bytes {
    if right then sibling + hash else hash + sibling
  }

  /** A hash merged with one sibling after the other, all on one side. */
  function MergeAll(H: HashFn, right: bool, hash: Bytes, low: seq<Bytes>): Bytes
    decreases |low|
  {
    if low == [] then hash else MergeAll(H, right, H(Joined(right, hash, low[0])), low[1..])
  }

  function Merged(H: HashFn, right: bool, hash: Bytes, low: seq<Bytes>): set<Bytes>
    decreases |low|
  {
    if low == [] then {}
    else {Joined(right, hash, low[0])} + Merged(H, right, H(Joined(right, hash, low[0])), low[1..])
  }

  ghost predicate Cleared(x: nat, y: nat, d: nat, e: nat) {
    forall k: nat :: Bit(y, k) <==> Bit(x, k) && !(d <= k < e)
  }

  lemma ClearTop(x: nat, d: nat, e: nat)
    requires d < e && AllSet(x, d, e)
    ensures Bit(x, e - 1) && AllSet(ClearBit(x, e - 1), d, e - 1) && Cleared(x, ClearBit(x, e - 1), e - 1, e)
  {
    var y := ClearBit(x, e - 1);
    forall k: nat ensures Bit(y, k) <==> k != e - 1 && Bit(x, k) { BitClearBit(x, e - 1, k); }
  }

  lemma ClearedOn(x: nat, y: nat, z: nat, d: nat, m: nat, e: nat)
    requires d <= m <= e && Cleared(x, y, m, e) && Cleared(y, z, d, m)
    ensures Cleared(x, z, d, e)
  {
    forall k: nat ensures Bit(z, k) <==> Bit(x, k) && !(d <= k < e) {
      assert Bit(y, k) <==> Bit(x, k) && !(m <= k < e);
    }
  }

  /** Levels `[d, e)` that all have a sibling. Where they are does not matter, only which way they turn. */
  lemma {:induction false} MergesFollow(H: HashFn, index: nat, hash: Bytes, e: Depth, d: Depth, remaining: nat,
                                        low: seq<Bytes>, rest: seq<Bytes>, right: bool) returns (r: nat)
    requires d <= e && |low| == e - d
    requires AllSet(remaining, d, e) && forall k :: d <= k < e ==> At(index, k) == right
    ensures Cleared(remaining, r, d, e)
    ensures var s, t := State(e, hash, [], [], remaining, low + rest),
                        State(d, MergeAll(H, right, hash, low), [], [], r, rest);
            Leads(H, index, s, t, Merged(H, right, hash, low))
    decreases e - d
  {
    if d == e {
      r := remaining;
      NothingToMerge(H, right, hash, low, rest);
    } else {
      var hash' := H(Joined(right, hash, low[0]));
      assert (low + rest)[1..] == low[1..] + rest;
      ClearTop(remaining, d, e);
      var s, t := State(e, hash, [], [], remaining, low + rest),
                  State(e - 1, hash', [], [], ClearBit(remaining, e - 1), low[1..] + rest);
      OneMerge(H, index, s, right);
      hide Leads, Bit, At, AllSet, Cleared;
      r := MergesFollow(H, index, hash', e - 1, d, ClearBit(remaining, e - 1), low[1..], rest, right);
      ClearedOn(remaining, ClearBit(remaining, e - 1), r, d, e - 1, e);
      LeadsOn(H, index, s, t, State(d, MergeAll(H, right, hash, low), [], [], r, rest),
              {Joined(right, hash, low[0])}, Merged(H, right, hash', low[1..]));
    }
  }

  lemma NothingToMerge(H: HashFn, right: bool, hash: Bytes, low: seq<Bytes>, rest: seq<Bytes>)
    requires low == []
    ensures low + rest == rest && MergeAll(H, right, hash, low) == hash && Merged(H, right, hash, low) == {}
  {
  }

  lemma OneMerge(H: HashFn, index: nat, s: State, right: bool)
    requires s.Merges() && s.hashes != [] && s.left == [] && s.right == [] && At(index, s.e - 1) == right
    ensures var input := Joined(right, s.hash, s.hashes[0]);
            var t := State(s.e - 1, H(input), [], [], ClearBit(s.remaining, s.e - 1), s.hashes[1..]);
            Leads(H, index, s, t, {input})
  {
  }

  /** The pads of a run of 32 levels are what a merge with `Peer` puts beside a hash. */
  lemma PeerPads(index: nat, a: nat, hash: Bytes)
    requires a <= 224 && OneWay(index, a)
    ensures Around(index, a, a + 32, hash) == Joined(At(index, a), hash, Peer(index, a))
  {
    PadsOneSided(index, a, a + 32, At(index, a));
    hide LeftPad, RightPad;
    var l, r := LeftPad(index, a, a + 32), RightPad(index, a, a + 32);
    assert if At(index, a) then l + [] + r + hash == l + hash + r else hash + (l + [] + r) == l + hash + r;
  }

  lemma {:induction false} PadsOneSided(index: nat, d: nat, b: Depth, right: bool)
    requires d <= b && forall k :: d <= k < b ==> At(index, k) == right
    ensures if right then RightPad(index, d, b) == [] else LeftPad(index, d, b) == []
    decreases b - d
  {
    if d < b { PadsOneSided(index, d + 1, b, right); }
  }

  /** Where both walks stand at depth `a`, with the siblings above still to come. */
  function Meeting(H: HashFn, index: nat, a: nat, y: Bytes, low: seq<Bytes>, remaining: nat, rest: seq<Bytes>): State
    requires a <= 224
  {
    State(a, H(Around(index, a, a + 32, MergeAll(H, At(index, a), y, low))), [], [], remaining, rest)
  }

  /** All they hash below it; the second walk hashes one input more. */
  function Below(H: HashFn, index: nat, a: nat, y: Bytes, low: seq<Bytes>): set<Bytes>
    requires a <= 224
  {
    Merged(H, At(index, a), y, low) + {Around(index, a, a + 32, MergeAll(H, At(index, a), y, low))}
  }

  /** The candidate `y` goes through the siblings at the bottom and then skips 32 levels ... */
  lemma SkippingWalk(H: HashFn, index: nat, a: nat, converge: nat, low: seq<Bytes>, rest: seq<Bytes>, y: Bytes)
    returns (r: nat)
    requires OneWay(index, a) && LowestRun(converge, a) && |low| == 224 - a
    ensures Cleared(converge, r, a, 256)
    ensures var s, t := Start(SMTProof(converge, low + rest), y), Meeting(H, index, a, y, low, r, rest);
            Leads(H, index, s, t, Below(H, index, a, y, low))
  {
    hide Leads, Around, MergeAll, Merged;
    r := MergesFollow(H, index, y, 256, a + 32, converge, low, rest, At(index, a));
    var h := MergeAll(H, At(index, a), y, low);
    SkipThenPad(H, index, h, a + 32, a, r, rest);
    LeadsOn(H, index, Start(SMTProof(converge, low + rest), y), State(a + 32, h, [], [], r, rest),
            Meeting(H, index, a, y, low, r, rest), Merged(H, At(index, a), y, low), {Around(index, a, a + 32, h)});
  }

  /** ... while `x` skips 31 levels, which makes it `y`, goes through the same siblings and is merged with the peer. */
  lemma MergingWalk(H: HashFn, index: nat, a: nat, converge: nat, raised: nat, low: seq<Bytes>, rest: seq<Bytes>,
                    x: Bytes)
    returns (r: nat)
    requires OneWay(index, a) && LowestRun(converge, a) && Raised(converge, raised, a) && |low| == 224 - a
    ensures Cleared(raised, r, a, 256)
    ensures var s := Start(SMTProof(raised, low + [Peer(index, a)] + rest), x);
            var t := Meeting(H, index, a, Twin(H, index, x), low, r, rest);
            Leads(H, index, s, t, {Around(index, 225, 256, x)} + Below(H, index, a, Twin(H, index, x), low))
  {
    var y, peer := Twin(H, index, x), Peer(index, a);
    PeerPads(index, a, MergeAll(H, At(index, a), y, low));
    RaisedBits(converge, raised, a);
    ConcatAssoc(low, [peer], rest);
    hide Leads, Around, Peer, AllSet, Bit, Raised, LowestRun, Cleared, MergeAll, Merged;
    var h, s := MergeAll(H, At(index, a), y, low), Start(SMTProof(raised, low + [peer] + rest), x);
    SkipThenPad(H, index, x, 256, 225, raised, low + [peer] + rest);
    var r1 := MergesFollow(H, index, y, 225, a + 1, raised, low, [peer] + rest, At(index, a));
    ClearedButOne(raised, r1, a);
    r := MergePeer(H, index, h, a, r1, peer, rest);
    ClearedAll(raised, r1, r, a);
    var t, u := State(a + 1, h, [], [], r1, [peer] + rest), Meeting(H, index, a, y, low, r, rest);
    LeadsOn(H, index, State(225, y, [], [], raised, low + ([peer] + rest)), t, u,
            Merged(H, At(index, a), y, low), {Around(index, a, a + 32, h)});
    LeadsOn(H, index, s, State(225, y, [], [], raised, low + ([peer] + rest)), u,
            {Around(index, 225, 256, x)}, Below(H, index, a, y, low));
  }

  lemma RaisedBits(converge: nat, raised: nat, a: nat)
    requires LowestRun(converge, a) && Raised(converge, raised, a)
    ensures AllSet(raised, a + 1, 225) && Bit(raised, a) && Bit(raised, 224)
    ensures forall k :: 225 <= k < 256 ==> !Bit(raised, k)
  {
  }

  lemma ClearedButOne(raised: nat, r: nat, a: nat)
    requires a <= 224 && Bit(raised, a) && Cleared(raised, r, a + 1, 225)
    ensures AllSet(r, a, a + 1)
  {
  }

  lemma ClearedAll(raised: nat, r: nat, r': nat, a: nat)
    requires a <= 224 && Cleared(raised, r, a + 1, 225) && Cleared(r, r', a, a + 1)
    requires forall k :: 225 <= k < 256 ==> !Bit(raised, k)
    ensures Cleared(raised, r', a, 256)
  {
  }

  lemma MergePeer(H: HashFn, index: nat, hash: Bytes, a: nat, remaining: nat, peer: Bytes, rest: seq<Bytes>)
    returns (r: nat)
    requires a <= 224 && AllSet(remaining, a, a + 1)
    ensures Cleared(remaining, r, a, a + 1)
    ensures var s := State(a + 1, hash, [], [], remaining, [peer] + rest);
            var input := Joined(At(index, a), hash, peer);
            var t := State(a, H(input), [], [], r, rest);
            Leads(H, index, s, t, {input})
  {
    r := ClearBit(remaining, a);
    ClearTop(remaining, a, a + 1);
    assert ([peer] + rest)[1..] == rest;
    OneMerge(H, index, State(a + 1, hash, [], [], remaining, [peer] + rest), At(index, a));
  }

  lemma SameRest(converge: nat, raised: nat, a: nat, r: nat, r': nat)
    requires LowestRun(converge, a) && Raised(converge, raised, a)
    requires Cleared(converge, r, a, 256) && Cleared(raised, r', a, 256)
    ensures r == r'
  {
    forall k: nat ensures Bit(r, k) == Bit(r', k) {}
    BitsDetermine(r, r');
  }

  // ----- The confusion

  /** A walk that ends with every sibling used does so from any other 32-byte hash, at some root. */
  lemma {:induction false} ReachesElsewhere(H: HashFn, index: nat, s: State, root: Bytes, t: State)
    returns (other: Bytes)
    requires Reaches(H, index, s, root) && |t.hash| == 32
    requires t.e == s.e && t.remaining == s.remaining && t.hashes == s.hashes
    ensures Reaches(H, index, t, other)
    decreases s.e
  {
    if s.e == 0 {
      other := PaddedHash(H, t);
    } else {
      other := ReachesElsewhere(H, index, Next(H, index, s).value, root, Next(H, index, t).value);
    }
  }

  /** A walk that gets to the root had a sibling for every level that needs one. */
  lemma {:induction false} EnoughSiblings(H: HashFn, index: nat, s: State, d: Depth)
    requires d <= s.e && Climb(H, index, s).Some? && AllSet(s.remaining, d, s.e)
    ensures |s.hashes| >= s.e - d
    decreases s.e
  {
    if d < s.e {
      ClearTop(s.remaining, d, s.e);
      EnoughSiblings(H, index, Next(H, index, s).value, d);
    }
  }

  /**
   * The guard on the bitmaps is needed. Thirty-two pad bytes are as long as a sibling, so the digest after skipping
   * 32 levels is also that of a merge. Take any proof `q` that is valid for something and whose lowest run is of
   * exactly 32 levels, at an index that turns one way below it. For every hash function and every candidate `x`, the
   * proof `p` below is valid for `x` where `q` is valid for the twin of `x`: at one index, against one root. All that
   * the one walk hashes the other walk hashes too, so there is no collision between them that is not within one walk.
   * And `p` meets the guard unless `q` has another run of 32 levels further up.
   */
  lemma ConvergeMatters(H: HashFn, index: nat, a: nat, q: SMTProof, z: Bytes, root: Bytes, x: Digest)
    returns (p: SMTProof, shared: Bytes)
    requires OneWay(index, a) && LowestRun(q.converge, a) && IsValid(H, q, index, z, root)
    ensures p.converge != q.converge && Raised(q.converge, p.converge, a)
    ensures 224 - a <= |q.hashes| && p.hashes == q.hashes[..224 - a] + [Peer(index, a)] + q.hashes[224 - a..]
    ensures IsValid(H, p, index, x, shared) && IsValid(H, q, index, Twin(H, index, x), shared)
    ensures Inputs(H, index, Start(q, Twin(H, index, x))) <= Inputs(H, index, Start(p, x))
    ensures (forall c: nat, d: Depth :: Skips(q.converge, c, d) && d < a ==> d - c != 32) ==> NoRunOf32(p.converge)
  {
    var c := RaisedBitmap(q.converge, a);
    if forall c: nat, d: Depth :: Skips(q.converge, c, d) && d < a ==> d - c != 32 { RunsOf(q.converge, c, a); }
    EnoughSiblings(H, index, Start(q, z), a + 32);
    var y, low, rest := Twin(H, index, x), q.hashes[..224 - a], q.hashes[224 - a..];
    p := SMTProof(c, low + [Peer(index, a)] + rest);
    assert q == SMTProof(q.converge, low + rest);
    hide Climb, Inputs, Skips, LowestRun, OneWay, NoRunOf32, Around, Twin, Peer, Raised, Cleared;
    shared := ReachesElsewhere(H, index, Start(q, z), root, Start(q, y));
    hide Reaches;
    var r := SkippingWalk(H, index, a, q.converge, low, rest, y);
    var r' := MergingWalk(H, index, a, q.converge, c, low, rest, x);
    SameRest(q.converge, c, a, r, r');
  }
}
