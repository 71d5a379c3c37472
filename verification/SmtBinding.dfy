/** What a valid proof of the path-compressed tree binds: one leaf for each bitmap, and not more. */
module SmtBinding {
  import opened Bits
  import opened Hashing
  import opened SmtSpec
  import opened SmtWalk

  /** The pads pending at `s` are hashed in here. */
  predicate Pads(s: State) {
    (s.Merges() || s.e == 0) && (s.left != [] || s.right != [])
  }

  /** Two runs hash different inputs to one digest in this step. */
  predicate StepCollision(H: HashFn, index: nat, s: State, t: State) {
    || (Pads(s) && Pads(t) && Collides(H, s.left + s.hash + s.right, t.left + t.hash + t.right))
    || (s.Merges() && t.Merges() && s.hashes != [] && t.hashes != []
        && Collides(H, MergeInput(H, index, s), MergeInput(H, index, t)))
  }

  /** ... in this step or a later one. */
  predicate RunCollision(H: HashFn, index: nat, s: State, t: State)
    decreases s.e
  {
    || StepCollision(H, index, s, t)
    || (s.e > 0 && t.e > 0
        && var s', t' := Next(H, index, s), Next(H, index, t);
           s'.Some? && t'.Some? && RunCollision(H, index, s'.value, t'.value))
  }

  lemma MergeInputInjective(H: HashFn, index: nat, s: State, t: State)
    requires s.e == t.e && s.Merges() && t.Merges() && s.hashes != [] && t.hashes != []
    requires MergeInput(H, index, s) == MergeInput(H, index, t)
    requires (|PaddedHash(H, s)| == 32 && |PaddedHash(H, t)| == 32) || s.hashes[0] == t.hashes[0]
    ensures PaddedHash(H, s) == PaddedHash(H, t) && s.hashes[0] == t.hashes[0]
  {
    var x, y, p, q := PaddedHash(H, s), PaddedHash(H, t), s.hashes[0], t.hashes[0];
    if At(index, s.e - 1) {
      assert |p| + |x| == |p + x| == |q + y| == |q| + |y|;
      assert (p + x)[..|p|] == p && (q + y)[..|q|] == q && (p + x)[|p|..] == x && (q + y)[|q|..] == y;
    } else {
      assert |x| + |p| == |x + p| == |y + q| == |y| + |q|;
      assert (x + p)[..|x|] == x && (y + q)[..|y|] == y && (x + p)[|x|..] == p && (y + q)[|y|..] == q;
    }
  }

  /** Equal padded hashes come from equal hashes, or the padding step collides. */
  lemma UnpadInjective(H: HashFn, s: State, t: State)
    requires s.left == t.left && s.right == t.right
    requires PaddedHash(H, s) == PaddedHash(H, t)
    requires (s.left == [] && s.right == []) || !Collides(H, s.left + s.hash + s.right, t.left + t.hash + t.right)
    ensures s.hash == t.hash
  {
    if s.left != [] || s.right != [] {
      var x, y := s.left + s.hash + s.right, t.left + t.hash + t.right;
      assert x[|s.left|..|x| - |s.right|] == s.hash && y[|s.left|..|y| - |s.right|] == t.hash;
    }
  }

  /** Two runs over one bitmap that reach one root start from the same hash, or exhibit a collision. */
  lemma {:induction false} RunsBind(H: HashFn, index: nat, s: State, t: State, root: Bytes)
    requires s.e == t.e && s.left == t.left && s.right == t.right && s.remaining == t.remaining
    requires (|s.hash| == 32 && |t.hash| == 32) || s.hashes == t.hashes
    requires Reaches(H, index, s, root) && Reaches(H, index, t, root)
    requires !RunCollision(H, index, s, t)
    ensures s.hash == t.hash && s.hashes == t.hashes
    decreases s.e
  {
    if s.e == 0 {
      UnpadInjective(H, s, t);
    } else {
      var s', t' := Next(H, index, s).value, Next(H, index, t).value;
      RunsBind(H, index, s', t', root);
      if s.Merges() {
        MergeInputInjective(H, index, s, t);
        UnpadInjective(H, s, t);
        assert s.hashes == [s.hashes[0]] + s'.hashes && t.hashes == [t.hashes[0]] + t'.hashes;
      }
    }
  }

  /**
   * Position binding for one bitmap: if two 32-byte candidates are valid at one index against
   * one root under one converge value, candidates and siblings agree, or the two walks hash
   * different inputs to one digest.
   */
  lemma BindingPerConverge(H: HashFn, converge: nat, index: nat, root: Bytes,
                           x: Bytes, hs: seq<Bytes>, y: Bytes, ks: seq<Bytes>)
    requires |x| == 32 && |y| == 32
    requires IsValid(H, SMTProof(converge, hs), index, x, root) && IsValid(H, SMTProof(converge, ks), index, y, root)
    ensures (x == y && hs == ks)
         || RunCollision(H, index, Start(SMTProof(converge, hs), x), Start(SMTProof(converge, ks), y))
  {
    if !RunCollision(H, index, Start(SMTProof(converge, hs), x), Start(SMTProof(converge, ks), y)) {
      RunsBind(H, index, Start(SMTProof(converge, hs), x), Start(SMTProof(converge, ks), y), root);
    }
  }

  // ----- Across bitmaps

  /** The levels `[a, b)` are one whole run without a sibling. */
  predicate Skips(converge: nat, a: nat, b: Depth) {
    && a < b && (forall k :: a <= k < b ==> !Bit(converge, k))
    && (a == 0 || Bit(converge, a - 1)) && (b == 256 || Bit(converge, b))
  }

  /**
   * No run of exactly 32 levels is skipped, from the root to the first sibling, between two, or
   * from the last one to the leaf. Such a run hashes as many pad bytes as a sibling has.
   */
  predicate NoRunOf32(converge: nat) {
    forall a: nat, b: Depth :: Skips(converge, a, b) ==> b - a != 32
  }

  function PadInput(s: State): Bytes { s.left + s.hash + s.right }

  /** Everything hashed from `s` on. */
  ghost function Inputs(H: HashFn, index: nat, s: State): set<Bytes>
    decreases s.e
  {
    (if Pads(s) then {PadInput(s)} else {})
    + (if s.e == 0 then {}
       else
         (if s.Merges() && s.hashes != [] then {MergeInput(H, index, s)} else {})
         + match Next(H, index, s)
           case None => {}
           case Some(t) => Inputs(H, index, t))
  }

  ghost predicate Collision(H: HashFn, U: set<Bytes>, V: set<Bytes>) {
    exists u, v :: u in U && v in V && Collides(H, u, v)
  }

  ghost predicate IsMergeDigest(H: HashFn, U: set<Bytes>, hash: Bytes) {
    exists u :: u in U && |u| == 64 && H(u) == hash
  }

  /**
   * A walk over `converge` that has climbed to `s`: the pads are those of the levels `[e, b)`, and
   * where none is pending the hash is a digest of 64 bytes in `U`, unless it is the candidate.
   */
  ghost predicate Climbed(H: HashFn, index: nat, converge: nat, s: State, b: Depth, U: set<Bytes>) {
    && s.e <= b && s.left == LeftPad(index, s.e, b) && s.right == RightPad(index, s.e, b)
    && (forall k :: 0 <= k < s.e ==> Bit(s.remaining, k) == Bit(converge, k))
    && (forall k :: s.e <= k < b ==> !Bit(converge, k))
    && (b == 256 || Bit(converge, b))
    && |s.hash| == 32 && All32(s.hashes)
    && (b == s.e < 256 ==> IsMergeDigest(H, U, s.hash))
    && Inputs(H, index, s) <= U
  }

  lemma StartClimbed(H: HashFn, index: nat, proof: SMTProof, x: Bytes)
    requires |x| == 32 && All32(proof.hashes)
    ensures Climbed(H, index, proof.converge, Start(proof, x), 256, Inputs(H, index, Start(proof, x)))
  {
  }

  /** A level without a sibling. */
  lemma SkipClimbs(H: HashFn, index: nat, converge: nat, s: State, b: Depth, U: set<Bytes>)
    requires Climbed(H, index, converge, s, b, U) && s.e > 0 && !Bit(converge, s.e - 1)
    ensures Next(H, index, s).Some? && Climbed(H, index, converge, Next(H, index, s).value, b, U)
    ensures var t := Next(H, index, s).value;
            t.e == s.e - 1 && t.hash == s.hash && t.hashes == s.hashes
  {
    hide Inputs;
    assert Inputs(H, index, Next(H, index, s).value) <= Inputs(H, index, s) by { InputsStep(H, index, s); }
  }

  lemma InputsStep(H: HashFn, index: nat, s: State)
    requires s.e > 0 && Next(H, index, s).Some?
    ensures Inputs(H, index, Next(H, index, s).value) <= Inputs(H, index, s)
    ensures s.Merges() && s.hashes != [] ==> MergeInput(H, index, s) in Inputs(H, index, s)
  {
  }

  lemma PadIsInput(H: HashFn, index: nat, s: State)
    requires Pads(s)
    ensures PadInput(s) in Inputs(H, index, s)
  {
  }

  /** A level with one. */
  lemma MergeClimbs(H: HashFn, index: nat, converge: nat, s: State, b: Depth, U: set<Bytes>)
    requires Climbed(H, index, converge, s, b, U) && s.e > 0 && Bit(converge, s.e - 1) && s.hashes != []
    ensures s.Merges() && MergeInput(H, index, s) in U && |MergeInput(H, index, s)| == 64
    ensures Next(H, index, s).Some? && Climbed(H, index, converge, Next(H, index, s).value, s.e - 1, U)
    ensures var t := Next(H, index, s).value;
            t.e == s.e - 1 && t.hash == H(MergeInput(H, index, s)) && t.hashes == s.hashes[1..]
  {
    hide Inputs;
    InputsStep(H, index, s);
    forall k | 0 <= k < s.e - 1 ensures Bit(ClearBit(s.remaining, s.e - 1), k) == Bit(converge, k) {
      BitClearBit(s.remaining, s.e - 1, k);
    }
    assert |PaddedHash(H, s)| == 32;
  }

  /** Two finished runs with one digest skipped the same number of levels and padded the same hash, or collide. */
  lemma RunsMeetAlike(H: HashFn, index: nat, c: nat, s: State, b: Depth, U: set<Bytes>,
                      c': nat, t: State, b': Depth, V: set<Bytes>)
    requires s.e == t.e && Climbed(H, index, c, s, b, U) && Climbed(H, index, c', t, b', V)
    requires s.e == 0 || (Bit(c, s.e - 1) && Bit(c', s.e - 1))
    requires NoRunOf32(c) && NoRunOf32(c') && !Collision(H, U, V)
    requires PaddedHash(H, s) == PaddedHash(H, t)
    ensures b == b' && s.hash == t.hash
  {
    hide Inputs;
    PadLengths(index, s.e, b);
    PadLengths(index, s.e, b');
    if s.e < b { PadIsInput(H, index, s); assert Skips(c, s.e, b); }
    if s.e < b' { PadIsInput(H, index, t); assert Skips(c', s.e, b'); }
    if s.e < b && s.e < b' {
      assert !Collides(H, PadInput(s), PadInput(t));
      assert |PadInput(s)| == 32 + b - s.e && |PadInput(t)| == 32 + b' - s.e;
      UnpadInjective(H, s, t);
    } else if s.e < b {
      PadIsNoMerge(H, PadInput(s), U, V, t.hash);
    } else if s.e < b' {
      PadIsNoMerge(H, PadInput(t), V, U, s.hash);
    }
  }

  /** A pad input that is not as long as a merge input collides with it, if they share a digest. */
  lemma PadIsNoMerge(H: HashFn, x: Bytes, U: set<Bytes>, V: set<Bytes>, hash: Bytes)
    requires x in U && |x| != 64 && H(x) == hash && IsMergeDigest(H, V, hash)
    ensures Collision(H, U, V) && Collision(H, V, U)
  {
    var v :| v in V && |v| == 64 && H(v) == hash;
    assert Collides(H, x, v) && Collides(H, v, x);
  }

  predicate SameBelow(c: nat, c': nat, e: nat) {
    forall k :: 0 <= k < e ==> Bit(c, k) == Bit(c', k)
  }

  /** Two walks that reach one root, whatever their bitmaps, are alike all the way, or collide. */
  lemma {:induction false} WalksBind(H: HashFn, index: nat, c: nat, s: State, b: Depth, U: set<Bytes>,
                                     c': nat, t: State, b': Depth, V: set<Bytes>, root: Bytes)
    requires s.e == t.e && Climbed(H, index, c, s, b, U) && Climbed(H, index, c', t, b', V)
    requires NoRunOf32(c) && NoRunOf32(c') && !Collision(H, U, V)
    requires Reaches(H, index, s, root) && Reaches(H, index, t, root)
    ensures b == b' && s.hash == t.hash && s.hashes == t.hashes && SameBelow(c, c', s.e)
    decreases s.e
  {
    hide NoRunOf32, Collision;
    if s.e == 0 {
      RunsMeetAlike(H, index, c, s, b, U, c', t, b', V);
    } else {
      ReachesOn(H, index, s, root);
      ReachesOn(H, index, t, root);
      var b1 := StepClimbs(H, index, c, s, b, U);
      var b2 := StepClimbs(H, index, c', t, b', V);
      var s', t' := Next(H, index, s).value, Next(H, index, t).value;
      hide Climbed;
      WalksBind(H, index, c, s', b1, U, c', t', b2, V, root);
      if Bit(c, s.e - 1) { BothMerge(H, index, c, s, b, U, c', t, b', V); }
    }
  }

  lemma ReachesOn(H: HashFn, index: nat, s: State, root: Bytes)
    requires s.e > 0 && Reaches(H, index, s, root)
    ensures Next(H, index, s).Some? && Reaches(H, index, Next(H, index, s).value, root)
  {
  }

  lemma StepClimbs(H: HashFn, index: nat, c: nat, s: State, b: Depth, U: set<Bytes>) returns (b': Depth)
    requires Climbed(H, index, c, s, b, U) && s.e > 0 && Next(H, index, s).Some?
    ensures b' == if Bit(c, s.e - 1) then s.e - 1 else b
    ensures Climbed(H, index, c, Next(H, index, s).value, b', U)
    ensures s.e <= b && Next(H, index, s).value.e == s.e - 1 && s.Merges() == Bit(c, s.e - 1)
    ensures !s.Merges() ==> Next(H, index, s).value.hash == s.hash && Next(H, index, s).value.hashes == s.hashes
  {
    hide Inputs;
    assert s.Merges() == Bit(c, s.e - 1);
    if s.Merges() {
      b' := s.e - 1;
      MergeClimbs(H, index, c, s, b, U);
    } else {
      b' := b;
      SkipClimbs(H, index, c, s, b, U);
    }
  }

  /** Where both merge into the same digest and go on alike, they were alike before. */
  lemma BothMerge(H: HashFn, index: nat, c: nat, s: State, b: Depth, U: set<Bytes>,
                  c': nat, t: State, b': Depth, V: set<Bytes>)
    requires s.e == t.e > 0 && Climbed(H, index, c, s, b, U) && Climbed(H, index, c', t, b', V)
    requires Bit(c, s.e - 1) && Bit(c', s.e - 1) && s.hashes != [] && t.hashes != []
    requires NoRunOf32(c) && NoRunOf32(c') && !Collision(H, U, V)
    requires Next(H, index, s).value.hash == Next(H, index, t).value.hash
    requires Next(H, index, s).value.hashes == Next(H, index, t).value.hashes
    ensures b == b' && s.hash == t.hash && s.hashes == t.hashes
  {
    hide NoRunOf32, Inputs;
    MergeClimbs(H, index, c, s, b, U);
    MergeClimbs(H, index, c', t, b', V);
    assert !Collides(H, MergeInput(H, index, s), MergeInput(H, index, t));
    assert |PaddedHash(H, s)| == 32 && |PaddedHash(H, t)| == 32;
    MergeInputInjective(H, index, s, t);
    assert s.hashes == [s.hashes[0]] + s.hashes[1..] && t.hashes == [t.hashes[0]] + t.hashes[1..];
    RunsMeetAlike(H, index, c, s, b, U, c', t, b', V);
  }

  /**
   * Position binding across bitmaps: where neither bitmap skips a run of exactly 32 levels, two
   * proofs of 32-byte siblings that are valid for 32-byte candidates at one index against one root
   * are the same proof of the same candidate, or the two walks hash different inputs to one digest.
   */
  lemma BindingAcrossBitmaps(H: HashFn, index: nat, root: Bytes, p: SMTProof, x: Bytes, q: SMTProof, y: Bytes)
    requires |x| == 32 && |y| == 32 && All32(p.hashes) && All32(q.hashes)
    requires p.converge < Pow2(256) && q.converge < Pow2(256) && NoRunOf32(p.converge) && NoRunOf32(q.converge)
    requires IsValid(H, p, index, x, root) && IsValid(H, q, index, y, root)
    ensures (p == q && x == y) || Collision(H, Inputs(H, index, Start(p, x)), Inputs(H, index, Start(q, y)))
  {
    hide NoRunOf32, Climbed, Inputs, Pow2;
    var U, V := Inputs(H, index, Start(p, x)), Inputs(H, index, Start(q, y));
    StartClimbed(H, index, p, x);
    StartClimbed(H, index, q, y);
    if !Collision(H, U, V) {
      WalksBind(H, index, p.converge, Start(p, x), 256, U, q.converge, Start(q, y), 256, V, root);
      BitExtensional(p.converge, q.converge, 256);
    }
  }
}
