/** The k-of-n fallback spend: which signatures are used, and when there are enough of them. */
module FallbackSpend {
  import opened Hashing
  import opened Recovery

  datatype Signature = Signature(pubKey: Bytes, signature: Bytes)

  /** What is spent: the beacon output, and the terms its script tree is rebuilt from. */
  datatype Terms = Terms(
    keys: seq<Bytes>, threshold: Option<int>, recoveryKey: Bytes, recoverySequence: int, model: FundingModel,
    network: string, prevOutScript: Bytes)

  /**
   * Library calls: the scripts in the leaf entries of a payment, the script-path sighash of the pending
   * transaction for a leaf, and Schnorr verification, false where it throws.
   */
  datatype Env = Env(
    bitcoin: BitcoinLib, leafScripts: (Bytes, seq<Bytes>, string) -> seq<Bytes>,
    sighash: Bytes -> Option<Bytes>, verify: (Bytes, Bytes, Bytes) -> bool)

  /** What is put into the input before it is finalized. */
  datatype Spend = Spend(leaf: Bytes, leafHash: Digest, chosen: seq<Signature>)

  /** The output rebuilt: its fallback leaf, k, and the digest to be signed. */
  datatype Rebuilt = Rebuilt(leaf: Bytes, k: int, sighash: Bytes)

  function Rebuild(env: Env, t: Terms): (r: Result<Rebuilt>)
    ensures r.Ok? ==> FallbackParamsOk(t.keys, r.value.k)
                      && FallbackLeaf(env.bitcoin, t.keys, r.value.k) == Ok(r.value.leaf)
  {
    if t.keys == [] then Err("NO_COHORT_KEYS") else
    var k := ResolveThreshold(t.threshold, |t.keys|);
    match env.bitcoin.keyAggregate(SortKeys(t.keys))
    case None => Err("keyAggregate")
    case Some(internalKey) =>
      var leaves :- RecoveryLeaves(env.bitcoin, t.model, t.keys, k, t.recoveryKey, t.recoverySequence);
      match env.bitcoin.payTo(internalKey, leaves, t.network)
      case None => Err("p2tr")
      case Some(payment) =>
        if payment.script != t.prevOutScript then Err("PREVOUT_SCRIPT_MISMATCH") else
        var leaf :- FallbackLeaf(env.bitcoin, t.keys, k);
        if leaf !in env.leafScripts(internalKey, leaves, t.network) then Err("FALLBACK_LEAF_NOT_FOUND") else
        match env.sighash(leaf)
        case None => Err("preimageWitnessV1")
        case Some(h) => Ok(Rebuilt(leaf, k, h))
  }

  /** The keys of the leaf: x-only, in the order of the full keys. */
  function LeafKeys(keys: seq<Bytes>): seq<Bytes>
    requires forall key :: key in keys ==> |key| == 33
  {
    SortedLengths(keys);
    XOnly(SortKeys(keys))
  }

  /** Any permutation of the keys rebuilds the same output. */
  lemma RebuildCanonical(env: Env, t: Terms, others: seq<Bytes>)
    requires multiset(t.keys) == multiset(others)
    ensures Rebuild(env, t) == Rebuild(env, t.(keys := others))
  {
    hide SortKeys, FallbackLeaf, RecoveryScript;
    SortKeysCanonical(t.keys, others);
    assert |t.keys| == |multiset(t.keys)| == |multiset(others)| == |others|;
    FallbackLeafCanonical(env.bitcoin, t.keys, others, ResolveThreshold(t.threshold, |t.keys|));
  }

  // ----- Signatures

  /** A signature that counts: well-formed, by a cohort key, and verifying. */
  predicate Counts(env: Env, h: Bytes, xs: seq<Bytes>, s: Signature) {
    |s.pubKey| == 32 && |s.signature| == 64 && s.pubKey in xs && env.verify(s.signature, h, s.pubKey)
  }

  /** Keys with some signature that counts. */
  function Signed(env: Env, h: Bytes, xs: seq<Bytes>, sigs: seq<Signature>): set<Bytes> {
    set s | s in sigs && Counts(env, h, xs, s) :: s.pubKey
  }

  /** The earliest signature that counts for a key. */
  predicate IsFirst(env: Env, h: Bytes, xs: seq<Bytes>, sigs: seq<Signature>, s: Signature) {
    exists j :: 0 <= j < |sigs| && sigs[j] == s && Counts(env, h, xs, s)
      && forall i :: 0 <= i < j && sigs[i].pubKey == s.pubKey ==> !Counts(env, h, xs, sigs[i])
  }

  function Filter(xs: seq<Bytes>, keep: set<Bytes>): (r: seq<Bytes>)
    ensures forall x :: x in r <==> x in xs && x in keep
  {
    if xs == [] then [] else (if xs[0] in keep then [xs[0]] else []) + Filter(xs[1..], keep)
  }

  lemma {:induction false} FilterSnoc(xs: seq<Bytes>, x: Bytes, keep: set<Bytes>)
    ensures Filter(xs + [x], keep) == Filter(xs, keep) + if x in keep then [x] else []
  {
    if xs == [] {
      assert xs + [x] == [x];
    } else {
      assert (xs + [x])[1..] == xs[1..] + [x];
      FilterSnoc(xs[1..], x, keep);
      ConcatAssoc(if xs[0] in keep then [xs[0]] else [], Filter(xs[1..], keep), if x in keep then [x] else []);
    }
  }

  /** The loop over the signatures. */
  method Accept(env: Env, h: Bytes, xs: seq<Bytes>, sigs: seq<Signature>) returns (accepted: map<Bytes, Bytes>)
    ensures accepted.Keys == Signed(env, h, xs, sigs)
    ensures forall key :: key in accepted ==> IsFirst(env, h, xs, sigs, Signature(key, accepted[key]))
  {
    accepted := map[];
    for i := 0 to |sigs|
      invariant accepted.Keys == Signed(env, h, xs, sigs[..i])
      invariant forall key :: key in accepted ==> IsFirst(env, h, xs, sigs, Signature(key, accepted[key]))
    {
      var s := sigs[i];
      assert sigs[..i + 1] == sigs[..i] + [s];
      if |s.pubKey| != 32 || |s.signature| != 64 { continue; }
      if s.pubKey !in xs { continue; }
      if s.pubKey in accepted { continue; }
      if env.verify(s.signature, h, s.pubKey) {
        assert forall j :: 0 <= j < i && sigs[j].pubKey == s.pubKey ==> sigs[j] in sigs[..i];
        accepted := accepted[s.pubKey := s.signature];
      }
    }
    assert sigs[..|sigs|] == sigs;
  }

  /** The first k signed keys, in key order, each with its first signature that counts. */
  ghost predicate IsChoice(env: Env, h: Bytes, xs: seq<Bytes>, sigs: seq<Signature>, k: int, chosen: seq<Signature>) {
    var signed := Filter(xs, Signed(env, h, xs, sigs));
    && 0 <= k <= |signed| && |chosen| == k
    && forall i :: 0 <= i < k ==> chosen[i].pubKey == signed[i] && IsFirst(env, h, xs, sigs, chosen[i])
  }

  /** The signatures that count, and the first k of them in key order if there are that many. */
  method Select(env: Env, h: Bytes, xs: seq<Bytes>, sigs: seq<Signature>, k: nat) returns (r: Option<seq<Signature>>)
    ensures r.Some? <==> |Signed(env, h, xs, sigs)| >= k
    ensures r.Some? ==> IsChoice(env, h, xs, sigs, k, r.value)
  {
    hide IsFirst, Filter, Signed;
    var accepted := Accept(env, h, xs, sigs);
    if |accepted.Keys| < k { return None; }
    var signed: seq<Bytes> := [];
    assert Filter([], accepted.Keys) == [] by { FilterNone(accepted.Keys); }
    for i := 0 to |xs|
      invariant signed == Filter(xs[..i], accepted.Keys)
    {
      FilterNext(xs, i, accepted.Keys);
      if xs[i] in accepted { signed := signed + [xs[i]]; }
    }
    assert xs[..|xs|] == xs;
    SignedFit(env, h, xs, sigs);
    var chosen: seq<Signature> := [];
    for i := 0 to k
      invariant |chosen| == i
      invariant forall j :: 0 <= j < i ==> chosen[j].pubKey == signed[j] && IsFirst(env, h, xs, sigs, chosen[j])
    {
      chosen := chosen + [Signature(signed[i], accepted[signed[i]])];
    }
    r := Some(chosen);
  }

  lemma FilterNone(keep: set<Bytes>)
    ensures Filter([], keep) == []
  {
  }

  /** Success exactly with k signed keys or more, and then the leaf gets exactly the choice above. */
  ghost predicate Spends(env: Env, t: Terms, b: Rebuilt, sigs: seq<Signature>, r: Result<Spend>)
    requires FallbackParamsOk(t.keys, b.k)
  {
    var xs := LeafKeys(t.keys);
    && (r.Ok? <==> |Signed(env, b.sighash, xs, sigs)| >= b.k)
    && (r.Err? ==> r.error == "NOT_ENOUGH_FALLBACK_SIGNATURES")
    && (r.Ok? ==> r.value.leaf == b.leaf && r.value.leafHash == TapLeafHash(env.bitcoin, b.leaf)
                  && IsChoice(env, b.sighash, xs, sigs, b.k, r.value.chosen))
  }

  /** `buildFallbackSpend`, up to the point where the library finalizes the input. */
  method BuildFallbackSpend(env: Env, t: Terms, sigs: seq<Signature>) returns (r: Result<Spend>)
    ensures Rebuild(env, t).Err? ==> r == Err(Rebuild(env, t).error)
    ensures Rebuild(env, t).Ok? ==> Spends(env, t, Rebuild(env, t).value, sigs, r)
  {
    hide TapLeafHash, IsChoice, LeafKeys, Signed;
    var rebuilt := Rebuild(env, t);
    if rebuilt.Err? { return Err(rebuilt.error); }
    hide Rebuild;
    var b := rebuilt.value;
    var chosen := Select(env, b.sighash, LeafKeys(t.keys), sigs, b.k);
    if chosen.None? { return Err("NOT_ENOUGH_FALLBACK_SIGNATURES"); }
    r := Ok(Spend(b.leaf, TapLeafHash(env.bitcoin, b.leaf), chosen.value));
  }

  lemma FilterNext(xs: seq<Bytes>, i: nat, keep: set<Bytes>)
    requires i < |xs|
    ensures Filter(xs[..i + 1], keep) == Filter(xs[..i], keep) + if xs[i] in keep then [xs[i]] else []
  {
    assert xs[..i + 1] == xs[..i] + [xs[i]];
    FilterSnoc(xs[..i], xs[i], keep);
  }

  lemma {:induction false} ElementsFit(xs: seq<Bytes>, s: set<Bytes>)
    requires forall x :: x in s ==> x in xs
    ensures |s| <= |xs|
  {
    if xs != [] {
      ElementsFit(xs[1..], s - {xs[0]});
      assert |s| <= |s - {xs[0]}| + 1;
    } else {
      assert s == {};
    }
  }

  lemma SignedFit(env: Env, h: Bytes, xs: seq<Bytes>, sigs: seq<Signature>)
    ensures |Signed(env, h, xs, sigs)| <= |Filter(xs, Signed(env, h, xs, sigs))|
  {
    var s := Signed(env, h, xs, sigs);
    ElementsFit(Filter(xs, s), s);
  }

  /** Who has signed does not depend on the order of the signatures, nor on repeats. */
  lemma SignedUnordered(env: Env, h: Bytes, xs: seq<Bytes>, sigs: seq<Signature>, others: seq<Signature>)
    requires forall s :: s in sigs <==> s in others
    ensures Signed(env, h, xs, sigs) == Signed(env, h, xs, others)
  {
  }

  // ----- What success means, signature by signature

  /** A 64-byte signature by this key that verifies against the digest. */
  predicate Proves(env: Env, h: Bytes, key: Bytes, s: Signature) {
    s.pubKey == key && |key| == 32 && |s.signature| == 64 && env.verify(s.signature, h, key)
  }

  /** Every signature chosen is one that was supplied, by a key of the leaf, and the first of that key that verifies. */
  lemma ChosenProve(env: Env, t: Terms, b: Rebuilt, sigs: seq<Signature>, r: Result<Spend>, i: nat) returns (j: nat)
    requires FallbackParamsOk(t.keys, b.k) && Spends(env, t, b, sigs, r) && r.Ok? && i < |r.value.chosen|
    ensures |r.value.chosen| == b.k && j < |sigs| && sigs[j] == r.value.chosen[i]
    ensures sigs[j].pubKey in LeafKeys(t.keys) && Proves(env, b.sighash, sigs[j].pubKey, sigs[j])
    ensures forall m :: 0 <= m < j ==> !Proves(env, b.sighash, sigs[j].pubKey, sigs[m])
  {
    hide LeafKeys, Signed, Filter;
    var xs := LeafKeys(t.keys);
    assert IsFirst(env, b.sighash, xs, sigs, r.value.chosen[i]);
    j :| 0 <= j < |sigs| && sigs[j] == r.value.chosen[i] && Counts(env, b.sighash, xs, sigs[j])
         && forall m :: 0 <= m < j && sigs[m].pubKey == sigs[j].pubKey ==> !Counts(env, b.sighash, xs, sigs[m]);
  }

  /** It succeeds exactly if k keys of the leaf, all different, each have some signature that verifies. */
  lemma SpendsIff(env: Env, t: Terms, b: Rebuilt, sigs: seq<Signature>, r: Result<Spend>)
    requires FallbackParamsOk(t.keys, b.k) && Spends(env, t, b, sigs, r)
    ensures r.Ok? <==> exists signers: set<Bytes> ::
              |signers| == b.k && forall key :: key in signers ==>
                key in LeafKeys(t.keys) && exists s :: s in sigs && Proves(env, b.sighash, key, s)
  {
    hide LeafKeys, IsChoice;
    var xs := LeafKeys(t.keys);
    var all := Signed(env, b.sighash, xs, sigs);
    forall key ensures key in all <==> key in xs && exists s :: s in sigs && Proves(env, b.sighash, key, s) {
      if key in xs && exists s :: s in sigs && Proves(env, b.sighash, key, s) {
        var s :| s in sigs && Proves(env, b.sighash, key, s);
        assert Counts(env, b.sighash, xs, s);
      }
    }
    hide Signed, Proves;
    if r.Ok? {
      var signers := SubsetOf(all, b.k);
    } else {
      forall signers: set<Bytes> | signers <= all ensures |signers| != b.k { SubsetFits(signers, all); }
    }
  }

  lemma SubsetFits(s: set<Bytes>, t: set<Bytes>)
    requires s <= t
    ensures |s| <= |t|
  {
    assert t == s + (t - s);
  }

  lemma {:induction false} SubsetOf(s: set<Bytes>, k: nat) returns (t: set<Bytes>)
    requires k <= |s|
    ensures t <= s && |t| == k
  {
    if k == 0 {
      t := {};
    } else {
      var x :| x in s;
      var u := SubsetOf(s - {x}, k - 1);
      t := u + {x};
    }
  }

  /**
   * The output that is spent is the one paid to: the aggregate of the sorted keys, and the fallback leaf beside the
   * recovery leaf. What is signed is the digest for that leaf.
   */
  lemma RebuiltIsSpent(env: Env, t: Terms)
    requires Rebuild(env, t).Ok?
    ensures var b := Rebuild(env, t).value;
            var key := env.bitcoin.keyAggregate(SortKeys(t.keys));
            var recovery := RecoveryScript(env.bitcoin, t.recoveryKey, t.recoverySequence);
            && key.Some? && recovery.Ok?
            && env.bitcoin.payTo(key.value, [b.leaf, recovery.value], t.network).Some?
            && env.bitcoin.payTo(key.value, [b.leaf, recovery.value], t.network).value.script == t.prevOutScript
            && b.leaf in env.leafScripts(key.value, [b.leaf, recovery.value], t.network)
            && env.sighash(b.leaf) == Some(b.sighash)
  {
    hide SortKeys, FallbackLeaf, RecoveryScript;
  }

  // ----- What the leaf counts

  /** How many of the leaf's CHECKSIGADD operations find a signature, when these keys have one in the witness. */
  function LeafCount(xs: seq<Bytes>, given: set<Bytes>): nat {
    if xs == [] then 0 else (if xs[0] in given then 1 else 0) + LeafCount(xs[1..], given)
  }

  function SignerKeys(chosen: seq<Signature>): set<Bytes> { set s | s in chosen :: s.pubKey }

  lemma {:induction false} LeafCountAppend(a: seq<Bytes>, b: seq<Bytes>, given: set<Bytes>)
    ensures LeafCount(a + b, given) == LeafCount(a, given) + LeafCount(b, given)
  {
    if a == [] {
      assert a + b == b;
    } else {
      assert (a + b)[1..] == a[1..] + b;
      LeafCountAppend(a[1..], b, given);
    }
  }

  lemma {:induction false} LeafCountFilter(xs: seq<Bytes>, keep: set<Bytes>, given: set<Bytes>)
    requires given <= keep
    ensures LeafCount(Filter(xs, keep), given) == LeafCount(xs, given)
  {
    if xs != [] {
      LeafCountFilter(xs[1..], keep, given);
      LeafCountAppend(if xs[0] in keep then [xs[0]] else [], Filter(xs[1..], keep), given);
      assert [xs[0]][1..] == [];
    }
  }

  lemma {:induction false} LeafCountRange(xs: seq<Bytes>, given: set<Bytes>)
    ensures LeafCount(xs, given) <= |xs|
    ensures LeafCount(xs, given) == |xs| <==> forall x :: x in xs ==> x in given
    ensures LeafCount(xs, given) == 0 <==> forall x :: x in xs ==> x !in given
  {
    if xs != [] {
      LeafCountRange(xs[1..], given);
      assert forall x :: x in xs <==> x == xs[0] || x in xs[1..];
    }
  }

  /** No key is both among the first k signed ones and after them. */
  predicate NoneStraddles(signed: seq<Bytes>, k: nat)
    requires k <= |signed|
  {
    forall i, j :: 0 <= i < k <= j < |signed| ==> signed[i] != signed[j]
  }

  lemma ChosenKeys(env: Env, h: Bytes, xs: seq<Bytes>, sigs: seq<Signature>, k: int, chosen: seq<Signature>)
    requires IsChoice(env, h, xs, sigs, k, chosen)
    ensures var signed := Filter(xs, Signed(env, h, xs, sigs));
            && k <= |signed| && SignerKeys(chosen) <= Signed(env, h, xs, sigs)
            && forall x :: x in SignerKeys(chosen) <==> x in signed[..k]
  {
    hide IsFirst, Signed;
    var signed := Filter(xs, Signed(env, h, xs, sigs));
    forall x | x in signed[..k] ensures x in SignerKeys(chosen) {
      var i :| 0 <= i < k && signed[..k][i] == x;
      assert chosen[i] in chosen;
    }
    forall x | x in SignerKeys(chosen) ensures x in signed[..k] && x in signed {
      var s :| s in chosen && s.pubKey == x;
      var i :| 0 <= i < k && chosen[i] == s;
      assert signed[..k][i] == x;
    }
  }

  /** Over a list cut at k, with exactly the first part given: nothing beyond the cut counts iff none straddles. */
  lemma CountAtCut(signed: seq<Bytes>, k: nat, given: set<Bytes>)
    requires k <= |signed| && forall x :: x in given <==> x in signed[..k]
    ensures LeafCount(signed, given) == k <==> NoneStraddles(signed, k)
  {
    hide LeafCount;
    var front, back := signed[..k], signed[k..];
    assert signed == front + back;
    LeafCountAppend(front, back, given);
    LeafCountRange(front, given);
    LeafCountRange(back, given);
    if NoneStraddles(signed, k) {
      forall x | x in back ensures x !in front {
        var j :| 0 <= j < |back| && back[j] == x;
        assert signed[k + j] == x;
      }
    } else {
      var i, j :| 0 <= i < k <= j < |signed| && signed[i] == signed[j];
      assert back[j - k] == signed[j] && front[i] == signed[i];
      assert signed[j] in back && signed[j] in given;
    }
  }

  /** The leaf counts exactly k, as its final comparison asks, iff no signed key stands on both sides of the cut. */
  lemma LeafCountsK(env: Env, h: Bytes, xs: seq<Bytes>, sigs: seq<Signature>, k: int, chosen: seq<Signature>)
    requires IsChoice(env, h, xs, sigs, k, chosen)
    ensures 0 <= k <= |Filter(xs, Signed(env, h, xs, sigs))|
    ensures LeafCount(xs, SignerKeys(chosen)) == k <==> NoneStraddles(Filter(xs, Signed(env, h, xs, sigs)), k)
  {
    ChosenKeys(env, h, xs, sigs, k, chosen);
    hide IsChoice, Signed, Filter, LeafCount, SignerKeys, NoneStraddles;
    var keep, given := Signed(env, h, xs, sigs), SignerKeys(chosen);
    LeafCountFilter(xs, keep, given);
    CountAtCut(Filter(xs, keep), k, given);
  }

  lemma {:induction false} FilterAll(xs: seq<Bytes>, keep: set<Bytes>)
    requires forall x :: x in xs ==> x in keep
    ensures Filter(xs, keep) == xs
  {
    if xs != [] { FilterAll(xs[1..], keep); }
  }

  lemma {:induction false} FilterDistinct(xs: seq<Bytes>, keep: set<Bytes>)
    requires Distinct(xs)
    ensures Distinct(Filter(xs, keep))
  {
    if xs != [] {
      assert Distinct(xs[1..]);
      FilterDistinct(xs[1..], keep);
      assert xs[0] !in xs[1..];
    }
  }

  /** With distinct x-only keys exactly k distinct keys get a signature, and the leaf counts exactly k. */
  lemma DistinctKeysSuffice(env: Env, h: Bytes, xs: seq<Bytes>, sigs: seq<Signature>, k: int, chosen: seq<Signature>)
    requires Distinct(xs) && IsChoice(env, h, xs, sigs, k, chosen)
    ensures forall i, j :: 0 <= i < j < k ==> chosen[i].pubKey != chosen[j].pubKey
    ensures LeafCount(xs, SignerKeys(chosen)) == k
  {
    hide IsFirst;
    FilterDistinct(xs, Signed(env, h, xs, sigs));
    LeafCountsK(env, h, xs, sigs, k, chosen);
  }

  /**
   * Under the law that `multisig` refuses repeated keys, every spend is good: the leaf of an output that could
   * be rebuilt has distinct keys, and counts exactly k.
   */
  lemma RefusingRepeatsSuffices(env: Env, t: Terms, sigs: seq<Signature>, r: Result<Spend>)
    requires forall k: int, xs: seq<Bytes> :: env.bitcoin.multisig(k, xs).Some? ==> Distinct(xs)
    requires Rebuild(env, t).Ok? && Spends(env, t, Rebuild(env, t).value, sigs, r) && r.Ok?
    ensures Distinct(LeafKeys(t.keys))
    ensures LeafCount(LeafKeys(t.keys), SignerKeys(r.value.chosen)) == Rebuild(env, t).value.k
  {
    var b := Rebuild(env, t).value;
    LeafNeedsMultisig(env, t, b);
    hide Rebuild, LeafKeys, Signed, IsChoice;
    DistinctKeysSuffice(env, b.sighash, LeafKeys(t.keys), sigs, b.k, r.value.chosen);
  }

  lemma LeafNeedsMultisig(env: Env, t: Terms, b: Rebuilt)
    requires FallbackParamsOk(t.keys, b.k) && FallbackLeaf(env.bitcoin, t.keys, b.k) == Ok(b.leaf)
    ensures env.bitcoin.multisig(b.k, LeafKeys(t.keys)) == Some(b.leaf)
  {
    hide SortKeys;
  }

  // ----- Where repeated keys are accepted

  lemma SortedStays(keys: seq<Bytes>)
    requires Sorted(keys)
    ensures SortKeys(keys) == keys
  {
    SortKeysSorts(keys);
    SortedUnique(SortKeys(keys), keys);
  }

  /** Compressed keys of three members, the last two of which differ in the parity byte only. */
  function TwinKeys(a: Bytes, b: Bytes): seq<Bytes> { [[2] + a, [2] + b, [3] + b] }

  lemma TwinLeafKeys(a: Bytes, b: Bytes)
    requires |a| == 32 && |b| == 32 && LessEq(a, b)
    ensures forall key :: key in TwinKeys(a, b) ==> |key| == 33
    ensures LeafKeys(TwinKeys(a, b)) == [a, b, b]
  {
    var keys := TwinKeys(a, b);
    AfterFirst(2, a);
    AfterFirst(2, b);
    AfterFirst(3, b);
    assert LessEq(keys[0], keys[1]) && LessEq(keys[0], keys[2]) && LessEq(keys[1], keys[2]);
    SortedStays(keys);
  }

  /**
   * Under the other law, that `multisig` accepts repeated keys, two members whose keys differ in parity only
   * break a spend that succeeds: with the default threshold two signatures are chosen, and the leaf counts three.
   */
  lemma ParityTwinsBreakIt(env: Env, t: Terms, a: Bytes, b: Bytes, sigs: seq<Signature>, r: Result<Spend>)
    requires |a| == 32 && |b| == 32 && a != b && LessEq(a, b) && t.keys == TwinKeys(a, b) && t.threshold == None
    requires Rebuild(env, t).Ok? && Spends(env, t, Rebuild(env, t).value, sigs, r)
    requires Signed(env, Rebuild(env, t).value.sighash, [a, b, b], sigs) == {a, b}
    ensures env.bitcoin.multisig(2, [a, b, b]).Some?
    ensures r.Ok? && |r.value.chosen| == 2 && LeafCount([a, b, b], SignerKeys(r.value.chosen)) == 3
  {
    TwinLeafKeys(a, b);
    var rebuilt, xs := Rebuild(env, t).value, [a, b, b];
    LeafNeedsMultisig(env, t, rebuilt);
    TwinThreshold(env, t, a, b);
    hide Rebuild, LeafKeys, Signed;
    var chosen := r.value.chosen;
    FilterAll(xs, {a, b});
    LeafCountsK(env, rebuilt.sighash, xs, sigs, 2, chosen);
    assert chosen[0].pubKey == a && chosen[1].pubKey == b;
    assert chosen[0] in chosen && chosen[1] in chosen;
    LeafCountRange(xs, SignerKeys(chosen));
  }

  lemma TwinThreshold(env: Env, t: Terms, a: Bytes, b: Bytes)
    requires t.keys == TwinKeys(a, b) && t.threshold == None && Rebuild(env, t).Ok?
    ensures Rebuild(env, t).value.k == 2
  {
    hide SortKeys, FallbackLeaf, RecoveryLeaves;
  }

  /** There are such libraries and signatures, so the case is not empty. */
  lemma TwinsCanBeBuilt(a: Bytes, b: Bytes, digest: Digest, signature: Bytes)
    returns (env: Env, t: Terms, sigs: seq<Signature>)
    requires |signature| == 64 && |a| == 32 && |b| == 32 && a != b && LessEq(a, b)
    ensures t.keys == TwinKeys(a, b) && t.threshold == None && Rebuild(env, t).Ok?
    ensures Signed(env, Rebuild(env, t).value.sighash, [a, b, b], sigs) == {a, b}
  {
    var payment := Payment([], [], "");
    var bitcoin := BitcoinLib((k, xs) => Some([]), (n, k) => [1], xs => Some([]), (k, ls, n) => Some(payment),
                              (tag, m) => digest);
    env := Env(bitcoin, (k, ls, n) => [[]], leaf => Some([]), (s, h, k) => true);
    t := Terms(TwinKeys(a, b), None, digest, 1, OperatorFunded, "", []);
    TwinLeafKeys(a, b);
    sigs := [Signature(a, signature), Signature(b, signature)];
    hide SortKeys, LeafKeys;
    assert Rebuild(env, t) == Ok(Rebuilt([], 2, []));
    assert sigs[0] in sigs && sigs[1] in sigs;
    assert Counts(env, [], [a, b, b], sigs[0]) && Counts(env, [], [a, b, b], sigs[1]);
  }
}
