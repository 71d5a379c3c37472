/** Byte strings, digests, and the conversions between digests and 256-bit integers. */
module Hashing {
  import opened Bits

  newtype Byte = b: int | 0 <= b < 256
  type Bytes = seq<Byte>

  datatype Option<+T> = None | Some(value: T)

  /** What the code's exceptions become: each throw is an `Err` carrying its message or code. */
  datatype Result<+T> = Ok(value: T) | Err(error: string) {
    predicate IsFailure() { Err? }

    function PropagateFailure<U>(): Result<U>
      requires Err?
    {
      Err(error)
    }

    function Extract(): T
      requires Ok?
    {
      value
    }
  }

  const HASH_BIT_LENGTH: nat := 256

  function ZeroBytes(n: nat): (z: Bytes)
    ensures |z| == n
    ensures forall i :: 0 <= i < n ==> z[i] == 0
  {
    seq(n, _ => 0)
  }

  type Digest = d: Bytes | |d| == 32 witness ZeroBytes(32)

  /** SHA-256 is a parameter of the model: any total function onto 32-byte strings. */
  type HashFn = Bytes -> Digest

  /** `blockHash` of two blocks. */
  function Hash2(H: HashFn, a: Bytes, b: Bytes): Digest { H(a + b) }

  function NullHash(): Digest { ZeroBytes(32) }

  /** A 256-bit key: a position in either tree. */
  type Index = n: nat | n < Pow2(256) witness 0

  /** Two different inputs with one digest. */
  predicate Collides(H: HashFn, x: Bytes, y: Bytes) {
    x != y && H(x) == H(y)
  }

  /** Nothing but `x` itself hashes to `H(x)`. */
  ghost predicate NoSecondPreimage(H: HashFn, x: Bytes) {
    forall y: Bytes :: H(y) == H(x) ==> y == x
  }

  predicate Distinct<T(==)>(xs: seq<T>) {
    forall i, j :: 0 <= i < j < |xs| ==> xs[i] != xs[j]
  }

  lemma ConcatAssoc<T>(a: seq<T>, b: seq<T>, c: seq<T>)
    ensures a + b + c == a + (b + c)
  {
  }

  /** `hashesEqual`: false when either side is not 32 bytes long. */
  predicate HashesEqual(a: Bytes, b: Bytes) {
    |a| == 32 && |b| == 32 && a == b
  }

  /** Every one is as long as a digest. */
  predicate All32(hs: seq<Bytes>) { forall k :: 0 <= k < |hs| ==> |hs[k]| == 32 }

  /** Big-endian value of a byte string. */
  function ToNat(b: Bytes): nat {
    if b == [] then 0 else 256 * ToNat(b[..|b| - 1]) + (b[|b| - 1] as nat)
  }

  /** The `n` low-order bytes of a number, most significant first. */
  function FromNat(v: nat, n: nat): (b: Bytes)
    ensures |b| == n
  {
    if n == 0 then [] else FromNat(v / 256, n - 1) + [(v % 256) as Byte]
  }

  lemma {:induction false} ToNatBound(b: Bytes)
    ensures ToNat(b) < Pow2(8 * |b|)
  {
    if b != [] {
      ToNatBound(b[..|b| - 1]);
      Pow2Step8(|b| - 1);
    }
  }

  lemma Pow2Step8(n: nat)
    ensures Pow2(8 * (n + 1)) == 256 * Pow2(8 * n)
  {
    var k := 8 * n;
    assert Pow2(k + 8) == 2 * Pow2(k + 7) && Pow2(k + 7) == 2 * Pow2(k + 6);
    assert Pow2(k + 6) == 2 * Pow2(k + 5) && Pow2(k + 5) == 2 * Pow2(k + 4);
    assert Pow2(k + 4) == 2 * Pow2(k + 3) && Pow2(k + 3) == 2 * Pow2(k + 2);
    assert Pow2(k + 2) == 2 * Pow2(k + 1) && Pow2(k + 1) == 2 * Pow2(k);
  }

  /** Big-endian: what comes first weighs more, by a factor of 256 for each byte after it. */
  lemma {:induction false} ToNatConcat(a: Bytes, b: Bytes)
    ensures ToNat(a + b) == ToNat(a) * Pow2(8 * |b|) + ToNat(b)
    ensures forall x: Byte :: ToNat([x]) == x as nat
  {
    forall x: Byte ensures ToNat([x]) == x as nat {
      assert [x][..0] == [];
    }
    if b == [] {
      assert a + b == a;
    } else {
      var init, last := b[..|b| - 1], b[|b| - 1];
      assert (a + b)[..|a + b| - 1] == a + init;
      ToNatConcat(a, init);
      Pow2Step8(|init|);
      Regroup(ToNat(a), Pow2(8 * |init|), ToNat(init));
    }
  }

  lemma Regroup(t: nat, p: nat, u: nat)
    ensures 256 * (t * p + u) == t * (256 * p) + 256 * u
  {
  }

  /** Decoding what was encoded gives the number back exactly when it fits. */
  lemma {:induction false} NatRoundTrip(v: nat, n: nat)
    ensures ToNat(FromNat(v, n)) == v <==> v < Pow2(8 * n)
  {
    ToNatBound(FromNat(v, n));
    if v < Pow2(8 * n) { NatFits(v, n); }
  }

  lemma {:induction false} NatFits(v: nat, n: nat)
    requires v < Pow2(8 * n)
    ensures ToNat(FromNat(v, n)) == v
  {
    if n > 0 {
      Pow2Step8(n - 1);
      NatFits(v / 256, n - 1);
      assert FromNat(v, n)[..n - 1] == FromNat(v / 256, n - 1);
    }
  }

  /** Encoding what was decoded gives the bytes back. */
  lemma {:induction false} BytesRoundTrip(b: Bytes)
    ensures FromNat(ToNat(b), |b|) == b
  {
    if b != [] {
      BytesRoundTrip(b[..|b| - 1]);
    }
  }

  /** `hashToBigInt`. */
  method HashToBigInt(hash: Bytes) returns (r: Result<Index>)
    ensures r.Ok? <==> |hash| == 32
    ensures r.Ok? ==> r.value == ToNat(hash)
  {
    if |hash| != 32 { return Err("RangeError"); }
    var value: nat := 0;
    for i := 0 to |hash|
      invariant value == ToNat(hash[..i])
    {
      assert hash[..i + 1][..i] == hash[..i];
      value := value * 256 + hash[i] as nat;
    }
    assert hash[..32] == hash;
    ToNatBound(hash);
    r := Ok(value);
  }

  function ShrBytes(v: nat, k: nat): nat {
    if k == 0 then v else ShrBytes(v / 256, k - 1)
  }

  lemma {:induction false} ShrBytesStep(v: nat, k: nat)
    ensures ShrBytes(v, k) / 256 == ShrBytes(v, k + 1)
  {
    if k > 0 { ShrBytesStep(v / 256, k - 1); }
  }

  lemma {:induction false} ShrBytesZero(v: nat, k: nat)
    ensures ShrBytes(v, k) == 0 <==> v < Pow2(8 * k)
  {
    if k > 0 {
      ShrBytesZero(v / 256, k - 1);
      Pow2Step8(k - 1);
    }
  }

  /** Byte `k` of the encoding is what the downward loop of `bigIntToHash` writes there. */
  lemma {:induction false} FromNatAt(v: nat, n: nat, k: nat)
    requires k < n
    ensures FromNat(v, n)[k] == (ShrBytes(v, n - 1 - k) % 256) as Byte
  {
    if k < n - 1 { FromNatAt(v / 256, n - 1, k); }
  }

  /** `bigIntToHash`: the value as 32 big-endian bytes, or an error when it is wider than that. */
  method BigIntToHash(value: nat) returns (r: Result<Digest>)
    ensures r == if value < Pow2(256) then Ok(FromNat(value, 32)) else Err("Value exceeds 256 bits")
  {
    var hash := new Byte[32];
    var v := value;
    var i := 31;
    while i >= 0
      invariant -1 <= i <= 31
      invariant v == ShrBytes(value, 31 - i)
      invariant forall j :: i < j < 32 ==> hash[j] == (ShrBytes(value, 31 - j) % 256) as Byte
    {
      hash[i] := (v % 256) as Byte;
      ShrBytesStep(value, 31 - i);
      v := v / 256;
      i := i - 1;
    }
    ShrBytesZero(value, 32);
    if v != 0 { return Err("Value exceeds 256 bits"); }
    forall j | 0 <= j < 32 ensures hash[j] == FromNat(value, 32)[j] {
      FromNatAt(value, 32, j);
    }
    assert hash[..] == FromNat(value, 32);
    r := Ok(hash[..]);
  }
}
