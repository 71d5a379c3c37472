/** Leaf hashes and the serialized proof format of did:btcr2, over the zero-hash tree. */
module Btcr2Proof {
  import opened Bits
  import opened Hashing
  import opened ZeroHash
  import opened ZeroHashProof

  /**
   * The library functions the code calls: SHA-256, the UTF-8 encoder, and base64url without
   * padding (section 5 of RFC 4648). `decode` is `None` where the library throws.
   */
  datatype Env = Env(H: HashFn, utf8: string -> Bytes, encode: Digest -> string, decode: string -> Option<Bytes>) {

    /** Decoding inverts encoding, and 32 bytes never encode to the empty string. */
    ghost predicate Lawful() {
      forall d: Digest :: decode(encode(d)) == Some(d) && encode(d) != ""
    }

    function DidToIndex(did: string): Index {
      var d := H(utf8(did));
      ToNatBound(d);
      ToNat(d)
    }

    /** The index is the whole digest of the whole encoded DID, big-endian. */
    lemma DidIndexIsHash(did: string)
      ensures FromNat(DidToIndex(did), 32) == H(utf8(did))
    {
      BytesRoundTrip(H(utf8(did)));
    }

    /** Two DIDs share an index only if their encodings are one, or collide. */
    lemma DidIndexBinds(a: string, b: string)
      requires DidToIndex(a) == DidToIndex(b)
      ensures utf8(a) == utf8(b) || Collides(H, utf8(a), utf8(b))
    {
      DidIndexIsHash(a);
      DidIndexIsHash(b);
    }

    function InclusionLeaf(nonce: Bytes, signedUpdate: Bytes): Digest {
      Hash2(H, H(nonce), H(signedUpdate))
    }

    function NonInclusionLeaf(nonce: Bytes): Digest {
      H(H(nonce))
    }

    /** `hashToBase64Url` */
    function HashToText(b: Bytes): Result<string> {
      if |b| == 32 then Ok(encode(b)) else Err("RangeError")
    }

    /** `base64UrlToHash` */
    function TextToHash(s: string): Result<Digest> {
      match decode(s)
      case None => Err("decode")
      case Some(b) => if |b| == 32 then Ok(b) else Err("RangeError")
    }

    function HashesToText(hs: seq<Bytes>): Result<seq<string>> {
      if hs == [] then Ok([]) else
      var first :- HashToText(hs[0]);
      var rest :- HashesToText(hs[1..]);
      Ok([first] + rest)
    }

    function TextToHashes(ts: seq<string>): Result<seq<Bytes>> {
      if ts == [] then Ok([]) else
      var first :- TextToHash(ts[0]);
      var rest :- TextToHashes(ts[1..]);
      Ok([first] + rest)
    }

    lemma {:induction false} HashesRoundTrip(hs: seq<Bytes>)
      requires Lawful()
      ensures HashesToText(hs).Ok? <==> forall k :: 0 <= k < |hs| ==> |hs[k]| == 32
      ensures HashesToText(hs).Ok? ==> TextToHashes(HashesToText(hs).value) == Ok(hs)
    {
      if hs != [] {
        HashesRoundTrip(hs[1..]);
        if |hs[0]| == 32 && HashesToText(hs[1..]).Ok? {
          var ts := HashesToText(hs[1..]).value;
          assert ([encode(hs[0])] + ts)[1..] == ts;
          assert [hs[0]] + hs[1..] == hs;
        }
      }
    }
  }

  datatype SerializedProof = SerializedProof(
    id: string, nonce: Option<string>, updateId: Option<string>, collapsed: string, hashes: seq<string>)

  datatype DeserializedProof = DeserializedProof(
    rootHash: Digest, nonce: Option<Digest>, updateId: Option<Digest>, proof: Proof)

  function OptionToText(env: Env, b: Option<Bytes>): Result<Option<string>> {
    if b.None? then Ok(None) else
    var s :- env.HashToText(b.value);
    Ok(Some(s))
  }

  /** An absent or empty field is skipped, as JavaScript's truth test does. */
  function OptionFromText(env: Env, s: Option<string>): Result<Option<Digest>> {
    if s.None? || s.value == "" then Ok(None) else
    var h :- env.TextToHash(s.value);
    Ok(Some(h))
  }

  lemma EmptyIsAbsent(env: Env)
    ensures OptionFromText(env, Some("")) == OptionFromText(env, None) == Ok(None)
  {
  }

  /** `serializeProof` */
  function Serialize(env: Env, root: Bytes, proof: Proof, nonce: Option<Bytes>, updateId: Option<Bytes>)
    : Result<SerializedProof>
  {
    var id :- env.HashToText(root);
    if proof.collapsed >= Pow2(256) then Err("Value exceeds 256 bits") else
    var hashes :- env.HashesToText(proof.hashes);
    var n :- OptionToText(env, nonce);
    var u :- OptionToText(env, updateId);
    Ok(SerializedProof(id, n, u, env.encode(FromNat(proof.collapsed, 32)), hashes))
  }

  /** `deserializeProof` */
  function Deserialize(env: Env, s: SerializedProof): Result<DeserializedProof> {
    var root :- env.TextToHash(s.id);
    var collapsed :- env.TextToHash(s.collapsed);
    var hashes :- env.TextToHashes(s.hashes);
    var n :- OptionFromText(env, s.nonce);
    var u :- OptionFromText(env, s.updateId);
    Ok(DeserializedProof(root, n, u, Proof(ToNat(collapsed), hashes)))
  }

  /** A nonce or an update id that is the empty string reads as one that is not there. */
  lemma EmptyFieldsAreAbsent(env: Env, s: SerializedProof)
    ensures Deserialize(env, s.(nonce := Some(""))) == Deserialize(env, s.(nonce := None))
    ensures Deserialize(env, s.(updateId := Some(""))) == Deserialize(env, s.(updateId := None))
  {
    EmptyIsAbsent(env);
    hide OptionFromText, ToNat;
  }

  /** `verifySerializedProof`; `Err` where parsing throws. */
  function VerifySerialized(env: Env, s: SerializedProof, index: Index, candidate: Bytes): Result<bool> {
    var d :- Deserialize(env, s);
    Ok(Verifies(env.H, d.proof, index, candidate, d.rootHash))
  }

  predicate Is32(b: Option<Bytes>) { b.Some? ==> |b.value| == 32 }

  predicate Serializable(root: Bytes, proof: Proof, nonce: Option<Bytes>, updateId: Option<Bytes>) {
    && |root| == 32 && proof.collapsed < Pow2(256) && Is32(nonce) && Is32(updateId)
    && All32(proof.hashes)
  }

  lemma SerializeOkIff(env: Env, root: Bytes, proof: Proof, nonce: Option<Bytes>, updateId: Option<Bytes>)
    requires env.Lawful()
    ensures Serialize(env, root, proof, nonce, updateId).Ok? <==> Serializable(root, proof, nonce, updateId)
  {
    env.HashesRoundTrip(proof.hashes);
    hide Pow2, FromNat, Env.HashesToText;
  }

  lemma ParseBack(env: Env, root: Bytes, proof: Proof, nonce: Option<Bytes>, updateId: Option<Bytes>)
    requires env.Lawful() && Serializable(root, proof, nonce, updateId)
    requires Serialize(env, root, proof, nonce, updateId).Ok?
    ensures Deserialize(env, Serialize(env, root, proof, nonce, updateId).value)
            == Ok(DeserializedProof(root, nonce, updateId, proof))
  {
    env.HashesRoundTrip(proof.hashes);
    NatRoundTrip(proof.collapsed, 32);
    hide Pow2, ToNat, FromNat, Env.HashesToText, Env.TextToHashes;
    var c := FromNat(proof.collapsed, 32);
    assert env.TextToHash(env.encode(c)) == Ok(c);
    assert env.TextToHash(env.encode(root)) == Ok(root);
  }

  /** Serializing succeeds exactly on 32-byte fields and a 256-bit bitmap, and parses back unchanged. */
  lemma SerializeRoundTrip(env: Env, root: Bytes, proof: Proof, nonce: Option<Bytes>, updateId: Option<Bytes>)
    requires env.Lawful()
    ensures var s := Serialize(env, root, proof, nonce, updateId);
            && (s.Ok? <==> Serializable(root, proof, nonce, updateId))
            && (s.Ok? ==> Deserialize(env, s.value) == Ok(DeserializedProof(root, nonce, updateId, proof)))
  {
    SerializeOkIff(env, root, proof, nonce, updateId);
    if Serialize(env, root, proof, nonce, updateId).Ok? { ParseBack(env, root, proof, nonce, updateId); }
    hide Serialize, Deserialize;
  }

  function TextOf(env: Env, b: Option<Bytes>): Option<string>
    requires Is32(b)
  {
    match b
    case None => None
    case Some(x) => Some(env.encode(x))
  }

  lemma {:induction false} HashesAsText(env: Env, hs: seq<Bytes>)
    requires All32(hs)
    ensures env.HashesToText(hs).Ok? && |env.HashesToText(hs).value| == |hs|
    ensures forall k :: 0 <= k < |hs| ==> env.HashesToText(hs).value[k] == env.encode(hs[k])
  {
    if hs != [] { HashesAsText(env, hs[1..]); }
  }

  /** What each field of the document is: the base64url text of a root, a bitmap of 32 big-endian bytes, and so on. */
  lemma SerializedFields(env: Env, root: Bytes, proof: Proof, nonce: Option<Bytes>, updateId: Option<Bytes>)
    requires Serializable(root, proof, nonce, updateId)
    ensures var r := Serialize(env, root, proof, nonce, updateId);
            && r.Ok?
            && r.value.id == env.encode(root) && r.value.collapsed == env.encode(FromNat(proof.collapsed, 32))
            && r.value.nonce == TextOf(env, nonce) && r.value.updateId == TextOf(env, updateId)
            && |r.value.hashes| == |proof.hashes|
            && forall k :: 0 <= k < |proof.hashes| ==> r.value.hashes[k] == env.encode(proof.hashes[k])
  {
    HashesAsText(env, proof.hashes);
    hide Pow2, FromNat, Env.HashesToText;
  }

  /** Hence serializing changes no verdict. */
  lemma SerializedVerdict(env: Env, root: Bytes, proof: Proof, nonce: Option<Bytes>, updateId: Option<Bytes>,
                          index: Index, candidate: Bytes)
    requires env.Lawful() && Serialize(env, root, proof, nonce, updateId).Ok?
    ensures VerifySerialized(env, Serialize(env, root, proof, nonce, updateId).value, index, candidate)
         == Ok(Verifies(env.H, proof, index, candidate, root))
  {
    SerializeRoundTrip(env, root, proof, nonce, updateId);
  }

  lemma {:induction false} ParsedSized(env: Env, ts: seq<string>)
    requires env.TextToHashes(ts).Ok?
    ensures All32(env.TextToHashes(ts).value)
  {
    if ts != [] { ParsedSized(env, ts[1..]); }
  }

  /** Parsing yields siblings of 32 bytes only, so a serialized proof is sound for candidates of any length. */
  lemma SerializedSoundness(env: Env, leaves: seq<Entry>, s: SerializedProof, index: Index, candidate: Bytes)
    requires VerifySerialized(env, s, index, candidate) == Ok(true)
    requires env.TextToHash(s.id) == Ok(ZeroHashRoot(env.H, leaves))
    ensures candidate == LeafAt(env.H, leaves, PathOf(index))
         || CollisionWithTree(env.H, leaves, Deserialize(env, s).value.proof, index, candidate)
  {
    hide ZeroHashRoot, CollisionWithTree, Pow2;
    var proof := Deserialize(env, s).value.proof;
    ParsedSized(env, s.hashes);
    assert Walk(env.H, proof, index, candidate, 1).Some? by {
      if Walk(env.H, proof, index, candidate, 1).None? { WalkStopped(env.H, proof, index, candidate, 1, 256); }
    }
    assert Walk(env.H, proof, index, candidate, 0) == Some((candidate, 0));
    assert LeafSiblingSized(proof);
    Soundness(env.H, leaves, proof, index, candidate);
  }

  // ----- What a root can say about one DID

  /** The digests hashed on the way to two leaves of one DID, leaf hashing included, collide somewhere. */
  ghost predicate LeafCollision(env: Env, did: string, p: Proof, x: Bytes, q: Proof, y: Bytes, u: Bytes, v: Bytes) {
    CollisionBetween(env.H, env.DidToIndex(did), p, x, q, y) || Collides(env.H, u, v)
  }

  /** No root holds an inclusion leaf and a non-inclusion leaf for one DID: the two proofs exhibit a collision. */
  lemma InclusionExcludesNonInclusion(env: Env, did: string, root: Bytes, nonce: Bytes, update: Bytes, nonce': Bytes,
                                      p: Proof, q: Proof)
    requires Verifies(env.H, p, env.DidToIndex(did), env.InclusionLeaf(nonce, update), root)
    requires Verifies(env.H, q, env.DidToIndex(did), env.NonInclusionLeaf(nonce'), root)
    ensures LeafCollision(env, did, p, env.InclusionLeaf(nonce, update), q, env.NonInclusionLeaf(nonce'),
                          env.H(nonce) + env.H(update), env.H(nonce'))
  {
    PositionBinding(env.H, env.DidToIndex(did), root, p, env.InclusionLeaf(nonce, update),
                    q, env.NonInclusionLeaf(nonce'));
    assert |env.H(nonce) + env.H(update)| == 64;
  }

  /** Two inclusions of one DID under one root name the same nonce hash and the same update id. */
  lemma InclusionIsUnique(env: Env, did: string, root: Bytes, nonce: Bytes, update: Bytes,
                          nonce': Bytes, update': Bytes,
                          p: Proof, q: Proof)
    requires Verifies(env.H, p, env.DidToIndex(did), env.InclusionLeaf(nonce, update), root)
    requires Verifies(env.H, q, env.DidToIndex(did), env.InclusionLeaf(nonce', update'), root)
    ensures (env.H(nonce) == env.H(nonce') && env.H(update) == env.H(update'))
         || LeafCollision(env, did, p, env.InclusionLeaf(nonce, update), q, env.InclusionLeaf(nonce', update'),
                          env.H(nonce) + env.H(update), env.H(nonce') + env.H(update'))
  {
    var x, y := env.InclusionLeaf(nonce, update), env.InclusionLeaf(nonce', update');
    PositionBinding(env.H, env.DidToIndex(did), root, p, x, q, y);
    if env.H(nonce) + env.H(update) == env.H(nonce') + env.H(update') {
      assert (env.H(nonce) + env.H(update))[..32] == env.H(nonce);
      assert (env.H(nonce') + env.H(update'))[..32] == env.H(nonce');
      assert (env.H(nonce) + env.H(update))[32..] == env.H(update);
      assert (env.H(nonce') + env.H(update'))[32..] == env.H(update');
    }
  }
}
