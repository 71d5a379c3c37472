/** The compact binary form of a path-compressed proof. */
module SmtBinary {
  import opened Bits
  import opened Hashing
  import opened SmtWalk

  function LeadingZeros(b: Bytes): (n: nat)
    ensures n <= |b|
    ensures forall k :: 0 <= k < n ==> b[k] == 0
  {
    if b == [] || b[0] != 0 then 0 else 1 + LeadingZeros(b[1..])
  }

  /** `out.set(h, pos)`: throws when the block does not fit. */
  function Set(out: Bytes, pos: nat, h: Bytes): Result<Bytes> {
    if pos + |h| > |out| then Err("RangeError") else Ok(out[..pos] + h + out[pos + |h|..])
  }

  /** The hashes written 32 bytes apart, whatever their own lengths. */
  function SetAll(out: Bytes, pos: nat, hashes: seq<Bytes>): Result<Bytes>
    decreases |hashes|
  {
    if hashes == [] then Ok(out) else
    var out' :- Set(out, pos, hashes[0]);
    SetAll(out', pos + 32, hashes[1..])
  }

  function Header(p: SMTProof): Bytes {
    var bin := FromNat(p.converge, 32);
    var zc := LeadingZeros(bin);
    [zc as Byte] + bin[zc..] + [(|p.hashes| % 256) as Byte]
  }

  function Encode(p: SMTProof): Result<Bytes> {
    if p.converge >= Pow2(256) then Err("Value exceeds 256 bits")
    else SetAll(Header(p) + ZeroBytes(32 * |p.hashes|), |Header(p)|, p.hashes)
  }

  /** The next `n` bytes of the source. */
  function Read(b: Bytes, pos: nat, n: int): Result<Bytes> {
    if n < 0 then Err("RangeError")
    else if pos + n > |b| then Err("Unexpected end of binary source")
    else Ok(b[pos..pos + n])
  }

  function ReadHashes(b: Bytes, pos: nat, count: nat): Result<seq<Bytes>>
    decreases count, b
  {
    if count == 0 then Ok([]) else
    var first :- Read(b, pos, 32);
    var rest :- ReadHashes(b, pos + 32, count - 1);
    Ok([first] + rest)
  }

  function Decode(b: Bytes): Result<SMTProof> {
    var head :- Read(b, 0, 1);
    var zc := head[0] as int;
    var truncated :- Read(b, 1, 32 - zc);
    var pos := 33 - zc;
    var count :- Read(b, pos, 1);
    var hashes :- ReadHashes(b, pos + 1, count[0] as int);
    Ok(SMTProof(ToNat(ZeroBytes(zc) + truncated), hashes))
  }

  method CountLeadingZeros(b: Bytes) returns (zc: nat)
    ensures zc == LeadingZeros(b)
  {
    zc := 0;
    while zc < |b| && b[zc] == 0
      invariant 0 <= zc <= |b|
      invariant LeadingZeros(b) == zc + LeadingZeros(b[zc..])
    {
      zc := zc + 1;
    }
  }

  /** `toBinary` */
  method ToBinary(p: SMTProof) returns (r: Result<Bytes>)
    ensures r == Encode(p)
  {
    var bin := BigIntToHash(p.converge);
    if bin.Err? { return Err(bin.error); }
    var convergeBin := bin.value;
    var zc := CountLeadingZeros(convergeBin);
    var truncated := convergeBin[zc..];
    var hashCount := |p.hashes|;
    var header := [zc as Byte] + truncated + [(hashCount % 256) as Byte];
    assert header == Header(p);
    var out := header + ZeroBytes(hashCount * 32);
    var pos := |header|;
    for k := 0 to |p.hashes|
      invariant pos == |header| + 32 * k
      invariant Encode(p) == SetAll(out, pos, p.hashes[k..])
    {
      var written := Set(out, pos, p.hashes[k]);
      if written.Err? { return Err(written.error); }
      assert p.hashes[k..][1..] == p.hashes[k + 1..];
      out, pos := written.value, pos + 32;
    }
    r := Ok(out);
  }

  /** `readBytes` */
  method ReadBytes(b: Bytes, pos: nat, n: int) returns (r: Result<Bytes>)
    ensures r == Read(b, pos, n)
  {
    if n < 0 { return Err("RangeError"); }
    var buf := new Byte[n](_ => 0);
    for i := 0 to n
      invariant pos + i <= |b| || i == 0
      invariant forall j :: 0 <= j < i ==> buf[j] == b[pos + j]
    {
      if pos + i >= |b| { return Err("Unexpected end of binary source"); }
      buf[i] := b[pos + i];
    }
    if n == 0 && pos > |b| { return Err("Unexpected end of binary source"); }
    assert buf[..] == b[pos..pos + n];
    r := Ok(buf[..]);
  }

  /** `fromBinary`, over the bytes the source yields. */
  method FromBinary(b: Bytes) returns (r: Result<SMTProof>)
    ensures r == Decode(b)
  {
    var head := ReadBytes(b, 0, 1);
    if head.Err? { return Err(head.error); }
    var zc := head.value[0] as int;
    var truncated := ReadBytes(b, 1, 32 - zc);
    if truncated.Err? { return Err(truncated.error); }
    var convergeBin := ZeroBytes(zc) + truncated.value;
    var count := ReadBytes(b, 33 - zc, 1);
    if count.Err? { return Err(count.error); }
    var hashCount := count.value[0] as int;
    var hashes: seq<Bytes> := [];
    ghost var all := ReadHashes(b, 34 - zc, hashCount);
    assert all.Ok? ==> hashes + all.value == all.value;
    for i := 0 to hashCount
      invariant var rest := ReadHashes(b, 34 - zc + 32 * i, hashCount - i);
                all == if rest.Err? then rest else Ok(hashes + rest.value)
    {
      var h := ReadBytes(b, 34 - zc + 32 * i, 32);
      if h.Err? { return Err(h.error); }
      ghost var rest := ReadHashes(b, 34 - zc + 32 * (i + 1), hashCount - (i + 1));
      assert rest.Ok? ==> hashes + ([h.value] + rest.value) == hashes + [h.value] + rest.value;
      hashes := hashes + [h.value];
    }
    assert hashes + [] == hashes;
    var c := HashToBigInt(convergeBin);
    r := Ok(SMTProof(c.value, hashes));
  }

  // ----- Round trip

  function Flat(hs: seq<Bytes>): Bytes {
    if hs == [] then [] else hs[0] + Flat(hs[1..])
  }

  lemma {:induction false} FlatLength(hs: seq<Bytes>)
    requires All32(hs)
    ensures |Flat(hs)| == 32 * |hs|
  {
    if hs != [] { FlatLength(hs[1..]); }
  }

  lemma {:induction false} SetAllFlat(pre: Bytes, room: Bytes, hs: seq<Bytes>)
    requires All32(hs) && |room| == 32 * |hs|
    ensures SetAll(pre + room, |pre|, hs) == Ok(pre + Flat(hs))
    decreases |hs|
  {
    if hs == [] {
      assert pre + room == pre + Flat(hs);
    } else {
      var out := pre + room;
      assert out[..|pre|] + hs[0] + out[|pre| + 32..] == (pre + hs[0]) + room[32..];
      SetAllFlat(pre + hs[0], room[32..], hs[1..]);
      assert (pre + hs[0]) + Flat(hs[1..]) == pre + Flat(hs);
    }
  }

  lemma {:induction false} ReadFlat(pre: Bytes, hs: seq<Bytes>, trailing: Bytes)
    requires All32(hs)
    ensures ReadHashes(pre + Flat(hs) + trailing, |pre|, |hs|) == Ok(hs)
    decreases |hs|
  {
    if hs != [] {
      var b := pre + Flat(hs) + trailing;
      FlatLength(hs);
      assert b[|pre|..|pre| + 32] == hs[0];
      assert b == (pre + hs[0]) + Flat(hs[1..]) + trailing;
      ReadFlat(pre + hs[0], hs[1..], trailing);
      assert [hs[0]] + hs[1..] == hs;
    }
  }

  lemma {:induction false} ReadHashesShape(b: Bytes, pos: nat, count: nat)
    requires ReadHashes(b, pos, count).Ok?
    ensures |ReadHashes(b, pos, count).value| == count && All32(ReadHashes(b, pos, count).value)
    decreases count
  {
    if count > 0 { ReadHashesShape(b, pos + 32, count - 1); }
  }

  /** The proofs the format can carry. */
  predicate Encodable(p: SMTProof) {
    p.converge < Pow2(256) && |p.hashes| <= 255 && All32(p.hashes)
  }

  lemma EncodeIs(p: SMTProof)
    requires Encodable(p)
    ensures Encode(p) == Ok(Header(p) + Flat(p.hashes))
  {
    SetAllFlat(Header(p), ZeroBytes(32 * |p.hashes|), p.hashes);
  }

  /** The fields of the header, read back by position. */
  lemma HeaderSlices(zc: nat, bin: Bytes, count: Byte, body: Bytes)
    requires |bin| == 32 && zc <= 32 && forall k :: 0 <= k < zc ==> bin[k] == 0
    ensures var b := [zc as Byte] + bin[zc..] + [count] + body;
            && Read(b, 0, 1) == Ok([zc as Byte])
            && Read(b, 1, 32 - zc) == Ok(bin[zc..])
            && Read(b, 33 - zc, 1) == Ok([count])
            && ZeroBytes(zc) + bin[zc..] == bin
  {
    var b := [zc as Byte] + bin[zc..] + [count] + body;
    assert b[0..1] == [zc as Byte] && b[1..33 - zc] == bin[zc..] && b[33 - zc..34 - zc] == [count];
  }

  lemma DecodeHeader(p: SMTProof, body: Bytes)
    requires p.converge < Pow2(256) && |p.hashes| <= 255
    ensures var hs := ReadHashes(Header(p) + body, |Header(p)|, |p.hashes|);
            Decode(Header(p) + body) == if hs.Err? then Err(hs.error) else Ok(SMTProof(p.converge, hs.value))
  {
    hide ReadHashes, Read, FromNat, LeadingZeros, ToNat;
    var bin := FromNat(p.converge, 32);
    HeaderSlices(LeadingZeros(bin), bin, |p.hashes| as Byte, body);
    NatRoundTrip(p.converge, 32);
  }

  /**
   * Decoding what was encoded, with any bytes after it, gives the proof back exactly when the
   * bitmap has 256 bits, there are at most 255 hashes, and each has 32 bytes.
   */
  lemma BinaryRoundTrip(p: SMTProof, trailing: Bytes)
    ensures (Encode(p).Ok? && Decode(Encode(p).value + trailing) == Ok(p)) <==> Encodable(p)
  {
    if Encodable(p) {
      EncodeIs(p);
      assert Header(p) + Flat(p.hashes) + trailing == Header(p) + (Flat(p.hashes) + trailing);
      ReadFlat(Header(p), p.hashes, trailing);
      DecodeHeader(p, Flat(p.hashes) + trailing);
    } else if Encode(p).Ok? && Decode(Encode(p).value + trailing) == Ok(p) {
      DecodeShape(Encode(p).value + trailing);
    }
  }

  lemma DecodeShape(b: Bytes)
    requires Decode(b).Ok?
    ensures |Decode(b).value.hashes| <= 255 && All32(Decode(b).value.hashes)
  {
    var zc := b[0] as int;
    ReadHashesShape(b, 34 - zc, b[33 - zc] as int);
  }

  // ----- The layout

  lemma {:induction false} LeadingZerosStop(b: Bytes)
    ensures LeadingZeros(b) < |b| ==> b[LeadingZeros(b)] != 0
  {
    if b != [] && b[0] == 0 { LeadingZerosStop(b[1..]); }
  }

  lemma {:induction false} FlatBlock(hs: seq<Bytes>, k: nat)
    requires All32(hs) && k < |hs|
    ensures |Flat(hs)| == 32 * |hs| && Flat(hs)[32 * k..32 * k + 32] == hs[k]
  {
    FlatLength(hs);
    if k > 0 {
      FlatBlock(hs[1..], k - 1);
      assert Flat(hs)[32..] == Flat(hs[1..]);
      assert Flat(hs)[32 * k..32 * k + 32] == Flat(hs)[32..][32 * (k - 1)..32 * (k - 1) + 32];
    }
  }

  /** Byte by byte: how many leading zero bytes are left out, the bitmap without them, the count, and the hashes. */
  lemma BinaryLayout(p: SMTProof)
    requires Encodable(p)
    ensures Encode(p).Ok?
    ensures var b, bin := Encode(p).value, FromNat(p.converge, 32);
            && b != [] && b[0] <= 32
            && var zc := b[0] as nat;
               && |b| == 34 - zc + 32 * |p.hashes|
               && bin[..zc] == ZeroBytes(zc) && (zc < 32 ==> bin[zc] != 0)
               && b[1..33 - zc] == bin[zc..] && b[33 - zc] == |p.hashes| as Byte
               && forall k :: 0 <= k < |p.hashes| ==> b[34 - zc..][32 * k..32 * k + 32] == p.hashes[k]
  {
    EncodeIs(p);
    FlatLength(p.hashes);
    var bin := FromNat(p.converge, 32);
    LeadingZerosStop(bin);
    var zc := LeadingZeros(bin);
    hide FromNat, LeadingZeros, Flat, Encode, All32;
    var b := Header(p) + Flat(p.hashes);
    assert b[34 - zc..] == Flat(p.hashes);
    forall k | 0 <= k < |p.hashes| ensures Flat(p.hashes)[32 * k..32 * k + 32] == p.hashes[k] {
      FlatBlock(p.hashes, k);
    }
  }
}
