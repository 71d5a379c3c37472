/** The script leaves of an aggregate beacon output, and the key order they are built on. */
module Recovery {
  import opened Hashing

  // ----- Key order (BIP 327, section "Key Sorting")

  /** Lexicographic order on byte strings. */
  predicate LessEq(a: Bytes, b: Bytes) {
    if a == [] then true
    else if b == [] then false
    else a[0] < b[0] || (a[0] == b[0] && LessEq(a[1..], b[1..]))
  }

  lemma {:induction false} LessEqTotal(a: Bytes, b: Bytes)
    ensures LessEq(a, b) || LessEq(b, a)
    ensures LessEq(a, b) && LessEq(b, a) ==> a == b
  {
    if a != [] && b != [] {
      LessEqTotal(a[1..], b[1..]);
      assert a == [a[0]] + a[1..] && b == [b[0]] + b[1..];
    }
  }

  lemma {:induction false} LessEqTransitive(a: Bytes, b: Bytes, c: Bytes)
    requires LessEq(a, b) && LessEq(b, c)
    ensures LessEq(a, c)
  {
    if a != [] && a[0] == b[0] == c[0] { LessEqTransitive(a[1..], b[1..], c[1..]); }
  }

  predicate Sorted(keys: seq<Bytes>) {
    forall i, j :: 0 <= i < j < |keys| ==> LessEq(keys[i], keys[j])
  }

  function Insert(key: Bytes, sorted: seq<Bytes>): seq<Bytes> {
    if sorted == [] || LessEq(key, sorted[0]) then [key] + sorted
    else [sorted[0]] + Insert(key, sorted[1..])
  }

  /** `sortKeys` */
  function SortKeys(keys: seq<Bytes>): seq<Bytes> {
    if keys == [] then [] else Insert(keys[0], SortKeys(keys[1..]))
  }

  lemma {:induction false} InsertSorts(key: Bytes, sorted: seq<Bytes>)
    requires Sorted(sorted)
    ensures Sorted(Insert(key, sorted)) && multiset(Insert(key, sorted)) == multiset(sorted) + multiset{key}
    decreases |sorted|
  {
    if sorted == [] || LessEq(key, sorted[0]) {
      assert Insert(key, sorted) == [key] + sorted;
      hide LessEq, Insert;
      forall j | 0 <= j < |sorted| ensures LessEq(key, sorted[j]) {
        if j > 0 { LessEqTransitive(key, sorted[0], sorted[j]); }
      }
      FrontSorts(key, sorted);
    } else {
      LessEqTotal(key, sorted[0]);
      var rest := Insert(key, sorted[1..]);
      assert Insert(key, sorted) == [sorted[0]] + rest;
      hide LessEq, Insert;
      InsertSorts(key, sorted[1..]);
      assert sorted == [sorted[0]] + sorted[1..];
      forall j | 0 <= j < |rest| ensures LessEq(sorted[0], rest[j]) { HeadBelow(key, sorted, rest, j); }
      FrontSorts(sorted[0], rest);
    }
  }

  lemma FrontSorts(head: Bytes, rest: seq<Bytes>)
    requires Sorted(rest) && forall j :: 0 <= j < |rest| ==> LessEq(head, rest[j])
    ensures Sorted([head] + rest) && multiset([head] + rest) == multiset(rest) + multiset{head}
  {
    hide LessEq;
  }

  lemma HeadBelow(key: Bytes, sorted: seq<Bytes>, rest: seq<Bytes>, j: nat)
    requires sorted != [] && Sorted(sorted) && LessEq(sorted[0], key) && j < |rest|
    requires multiset(rest) == multiset(sorted[1..]) + multiset{key}
    ensures LessEq(sorted[0], rest[j])
  {
    hide LessEq;
    assert rest[j] in multiset(rest);
    if rest[j] != key {
      assert rest[j] in sorted[1..];
      var k :| 0 <= k < |sorted[1..]| && sorted[1..][k] == rest[j];
      assert sorted[k + 1] == rest[j];
    }
  }

  /** Sorting gives a sorted rearrangement. */
  lemma {:induction false} SortKeysSorts(keys: seq<Bytes>)
    ensures Sorted(SortKeys(keys)) && multiset(SortKeys(keys)) == multiset(keys)
    decreases |keys|
  {
    if keys != [] {
      SortKeysSorts(keys[1..]);
      InsertSorts(keys[0], SortKeys(keys[1..]));
      assert keys == [keys[0]] + keys[1..];
    }
  }

  lemma FirstIsLeast(xs: seq<Bytes>, key: Bytes)
    requires xs != [] && Sorted(xs) && key in multiset(xs)
    ensures LessEq(xs[0], key)
  {
    assert key in xs;
    var i :| 0 <= i < |xs| && xs[i] == key;
    LessEqTotal(key, key);
  }

  lemma TailsSorted(xs: seq<Bytes>, ys: seq<Bytes>)
    requires Sorted(xs) && Sorted(ys) && xs != [] && ys != []
    ensures Sorted(xs[1..]) && Sorted(ys[1..])
  {
  }

  lemma TailMultiset(xs: seq<Bytes>)
    requires xs != []
    ensures multiset(xs[1..]) == multiset(xs) - multiset{xs[0]}
  {
    assert xs == [xs[0]] + xs[1..];
  }

  lemma {:induction false} SortedUnique(xs: seq<Bytes>, ys: seq<Bytes>)
    requires Sorted(xs) && Sorted(ys) && multiset(xs) == multiset(ys)
    ensures xs == ys
    decreases |xs|
  {
    assert |xs| == |multiset(xs)| == |multiset(ys)| == |ys|;
    if xs != [] {
      assert xs == [xs[0]] + xs[1..] && ys == [ys[0]] + ys[1..];
      FirstIsLeast(xs, ys[0]);
      FirstIsLeast(ys, xs[0]);
      LessEqTotal(xs[0], ys[0]);
      TailMultiset(xs);
      TailMultiset(ys);
      hide Sorted, LessEq;
      TailsSorted(xs, ys);
      SortedUnique(xs[1..], ys[1..]);
    }
  }

  /** The order in which keys are supplied does not matter. */
  lemma SortKeysCanonical(keys: seq<Bytes>, others: seq<Bytes>)
    requires multiset(keys) == multiset(others)
    ensures SortKeys(keys) == SortKeys(others)
  {
    SortKeysSorts(keys);
    SortKeysSorts(others);
    SortedUnique(SortKeys(keys), SortKeys(others));
  }

  // ----- Leaves

  /** Script and key functions of the Bitcoin library; `None` where they throw. */
  datatype BitcoinLib = BitcoinLib(
    multisig: (int, seq<Bytes>) -> Option<Bytes>,
    csvScript: (int, Bytes) -> Bytes,
    keyAggregate: seq<Bytes> -> Option<Bytes>,
    payTo: (Bytes, seq<Bytes>, string) -> Option<Payment>,
    taggedHash: (string, Bytes) -> Digest)

  /** What `p2tr` derives from an internal key, the leaf scripts and a network. */
  datatype Payment = Payment(script: Bytes, merkleRoot: Bytes, address: string)

  datatype FundingModel = OperatorFunded | ParticipantFunded

  /** `resolveFallbackThreshold` */
  function ResolveThreshold(advertised: Option<int>, n: nat): int {
    if advertised.Some? then advertised.value else if n - 1 > 1 then n - 1 else 1
  }

  /** Unless one is advertised, the threshold is all but one, and at least one. */
  lemma DefaultThreshold(n: nat)
    requires n >= 1
    ensures 1 <= ResolveThreshold(None, n) <= n && (n >= 2 ==> ResolveThreshold(None, n) == n - 1)
    ensures forall t: int :: ResolveThreshold(Some(t), n) == t
  {
  }

  function XOnly(keys: seq<Bytes>): (r: seq<Bytes>)
    requires forall k :: 0 <= k < |keys| ==> |keys[k]| >= 1
    ensures |r| == |keys| && forall k :: 0 <= k < |keys| ==> r[k] == keys[k][1..]
  {
    seq(|keys|, k requires 0 <= k < |keys| => keys[k][1..])
  }

  predicate FallbackParamsOk(keys: seq<Bytes>, threshold: int) {
    keys != [] && (forall key :: key in keys ==> |key| == 33) && 1 <= threshold <= |keys|
  }

  lemma SortedLengths(keys: seq<Bytes>)
    ensures |SortKeys(keys)| == |keys|
    ensures (forall key :: key in keys ==> |key| == 33) ==> forall k :: 0 <= k < |keys| ==> |SortKeys(keys)[k]| == 33
  {
    SortKeysSorts(keys);
    assert |multiset(SortKeys(keys))| == |multiset(keys)|;
    forall k | 0 <= k < |SortKeys(keys)| ensures SortKeys(keys)[k] in keys {
      assert SortKeys(keys)[k] in multiset(SortKeys(keys));
    }
  }

  /** `buildFallbackLeaf`: the k-of-n script over the sorted x-only keys. */
  function FallbackLeaf(lib: BitcoinLib, keys: seq<Bytes>, threshold: int): Result<Bytes> {
    if keys == [] then Err("NO_COHORT_KEYS")
    else if exists key :: key in keys && |key| != 33 then Err("INVALID_COHORT_KEY")
    else if !(1 <= threshold <= |keys|) then Err("INVALID_FALLBACK_THRESHOLD")
    else
      SortedLengths(keys);
      match lib.multisig(threshold, XOnly(SortKeys(keys)))
      case None => Err("p2tr_ms")
      case Some(script) => Ok(script)
  }

  /** Every party builds the same leaf, in whatever order it holds the keys. */
  lemma FallbackLeafCanonical(lib: BitcoinLib, keys: seq<Bytes>, others: seq<Bytes>, threshold: int)
    requires multiset(keys) == multiset(others)
    ensures FallbackLeaf(lib, keys, threshold) == FallbackLeaf(lib, others, threshold)
  {
    SortKeysCanonical(keys, others);
    assert |keys| == |multiset(keys)| == |multiset(others)| == |others|;
    forall key ensures key in keys <==> key in others {
      assert key in multiset(keys) <==> key in multiset(others);
    }
  }

  const MAX_RECOVERY_SEQUENCE: int := 0xffff

  /** `buildRecoveryScript` */
  function RecoveryScript(lib: BitcoinLib, recoveryKey: Bytes, recoverySequence: int): Result<Bytes> {
    if |recoveryKey| != 32 then Err("INVALID_RECOVERY_KEY")
    else if !(1 <= recoverySequence <= MAX_RECOVERY_SEQUENCE) then Err("INVALID_RECOVERY_SEQUENCE")
    else Ok(lib.csvScript(recoverySequence, recoveryKey))
  }

  /** Any 16-bit number of blocks but zero delays the recovery. */
  lemma RecoveryScriptIff(lib: BitcoinLib, key: Bytes, blocks: int)
    ensures RecoveryScript(lib, key, blocks) == Ok(lib.csvScript(blocks, key)) <==> |key| == 32 && 0 < blocks < 0x1_0000
  {
  }

  /** `buildRecoveryLeaves`: fallback first, then recovery. */
  function RecoveryLeaves(lib: BitcoinLib, model: FundingModel, keys: seq<Bytes>, threshold: int,
                          recoveryKey: Bytes, recoverySequence: int): Result<seq<Bytes>> {
    if model == ParticipantFunded then Err("UNSUPPORTED_FUNDING_MODEL") else
    var fallback :- FallbackLeaf(lib, keys, threshold);
    var recovery :- RecoveryScript(lib, recoveryKey, recoverySequence);
    Ok([fallback, recovery])
  }

  // ----- Tap leaf hash

  /** `n & 0xff, (n >> 8) & 0xff, ...`: the `k` low-order bytes, least significant first. */
  function LittleEndian(n: nat, k: nat): (b: Bytes)
    ensures |b| == k
  {
    if k == 0 then [] else [(n % 256) as Byte] + LittleEndian(n / 256, k - 1)
  }

  function LittleEndianValue(b: Bytes): nat {
    if b == [] then 0 else b[0] as nat + 256 * LittleEndianValue(b[1..])
  }

  lemma {:induction false} LittleEndianRoundTrip(n: nat, k: nat, bound: nat)
    requires bound == Pow256(k)
    ensures LittleEndianValue(LittleEndian(n, k)) == n <==> n < bound
  {
    if k > 0 {
      LittleEndianRoundTrip(n / 256, k - 1, Pow256(k - 1));
      assert LittleEndian(n, k)[1..] == LittleEndian(n / 256, k - 1);
    }
  }

  function Pow256(k: nat): nat { if k == 0 then 1 else 256 * Pow256(k - 1) }

  /** `compactSize` */
  function CompactSize(n: nat): Bytes {
    if n < 0xfd then [n as Byte]
    else if n <= 0xffff then [0xfd] + LittleEndian(n, 2)
    else [0xfe] + LittleEndian(n, 4)
  }

  /** One byte; or a marker and two or four bytes, the least significant first. */
  lemma CompactSizeLayout(n: nat)
    requires n < 0x1_0000_0000
    ensures var b := CompactSize(n);
            if n < 253 then |b| == 1 && b[0] as nat == n
            else if n < 0x1_0000 then |b| == 3 && b[0] == 253 && n == b[1] as nat + 256 * b[2] as nat
            else |b| == 5 && b[0] == 254
                 && n == b[1] as nat + 256 * (b[2] as nat + 256 * (b[3] as nat + 256 * b[4] as nat))
  {
    if n < 0x1_0000 {
      assert LittleEndian(n / 256, 1) == [(n / 256 % 256) as Byte];
    } else {
      var m := n / 256;
      assert LittleEndian(n, 4) == [(n % 256) as Byte] + LittleEndian(m, 3);
      assert LittleEndian(m, 3) == [(m % 256) as Byte] + LittleEndian(m / 256, 2);
      assert LittleEndian(m / 256, 2) == [(m / 256 % 256) as Byte] + LittleEndian(m / 256 / 256, 1);
      assert LittleEndian(m / 256 / 256, 1) == [(m / 256 / 256 % 256) as Byte];
    }
  }

  function ParseCompactSize(b: Bytes): Option<(nat, Bytes)> {
    if |b| >= 1 && b[0] < 0xfd then Some((b[0] as nat, b[1..]))
    else if |b| >= 3 && b[0] == 0xfd then Some((LittleEndianValue(b[1..3]), b[3..]))
    else if |b| >= 5 && b[0] == 0xfe then Some((LittleEndianValue(b[1..5]), b[5..]))
    else None
  }

  /** The length prefix can be read back exactly for lengths below `2^32`. */
  lemma CompactSizeRoundTrip(n: nat, rest: Bytes)
    ensures ParseCompactSize(CompactSize(n) + rest) == Some((n, rest)) <==> n < 0x1_0000_0000
  {
    var b := CompactSize(n) + rest;
    if n < 0xfd {
      assert b[1..] == rest;
    } else if n <= 0xffff {
      assert b[1..3] == LittleEndian(n, 2) && b[3..] == rest;
      assert Pow256(2) == 0x1_0000;
      LittleEndianRoundTrip(n, 2, 0x1_0000);
    } else {
      assert b[1..5] == LittleEndian(n, 4) && b[5..] == rest;
      assert Pow256(4) == 0x1_0000_0000;
      LittleEndianRoundTrip(n, 4, 0x1_0000_0000);
    }
  }

  function TapLeafInput(script: Bytes): Bytes {
    [0xc0] + (CompactSize(|script|) + script)
  }

  /** `tapLeafHash`, at the default leaf version. */
  function TapLeafHash(lib: BitcoinLib, script: Bytes): Digest {
    lib.taggedHash("TapLeaf", TapLeafInput(script))
  }

  /** The tagged hash, as BIP 341 has it, of the leaf version, the length and the script. */
  lemma TapLeafHashIs(lib: BitcoinLib, script: Bytes) returns (prefix: Bytes)
    requires |script| < 0x1_0000_0000
    ensures ParseCompactSize(prefix + script) == Some((|script|, script))
    ensures TapLeafHash(lib, script) == lib.taggedHash("TapLeaf", [192] + (prefix + script))
  {
    prefix := CompactSize(|script|);
    CompactSizeRoundTrip(|script|, script);
  }

  lemma AfterFirst(first: Byte, rest: Bytes)
    ensures ([first] + rest)[1..] == rest
  {
  }

  /** Two scripts of the lengths Bitcoin allows never share a tap leaf input. */
  lemma TapLeafInputInjective(s: Bytes, t: Bytes)
    requires |s| < 0x1_0000_0000 && |t| < 0x1_0000_0000 && TapLeafInput(s) == TapLeafInput(t)
    ensures s == t
  {
    CompactSizeRoundTrip(|s|, s);
    CompactSizeRoundTrip(|t|, t);
    hide CompactSize, ParseCompactSize;
    AfterFirst(0xc0, CompactSize(|s|) + s);
    AfterFirst(0xc0, CompactSize(|t|) + t);
  }
}
