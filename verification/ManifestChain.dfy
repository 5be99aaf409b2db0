/** Signed, hash-linked manifests: building, signing, sealing, and walking the chain. The backup
    and the archive chain share one shape; they differ in the magic string, and archive manifests
    also carry wrapped epoch keys, a list that stays empty on backup manifests. */
module ManifestChain {
  import opened Foundations
  import opened Bytes

  const BACKUP_MANIFEST_MAGIC := "KCHAT_BAK_MANIFEST_V2"
  const ARCHIVE_MANIFEST_MAGIC := "KCHAT_ARC_MANIFEST_V2"
  const MANIFEST_VERSION: u32 := 2
  const ED25519_SIGNATURE_LEN := 64
  const ML_DSA_65_SIGNATURE_LEN := 3309

  const GENESIS_PREVIOUS_HASH: Hash :=
    [0, 0, 0, 0, 0, 0, 0, 0, 0, 0, 0, 0, 0, 0, 0, 0, 0, 0, 0, 0, 0, 0, 0, 0, 0, 0, 0, 0, 0, 0, 0, 0]

  datatype ChainKind = BackupChain | ArchiveChain {
    function Magic(): string {
      match this
      case BackupChain => BACKUP_MANIFEST_MAGIC
      case ArchiveChain => ARCHIVE_MANIFEST_MAGIC
    }
  }

  datatype SegmentRef = SegmentRef(segmentId: Uuid, segmentType: nat, ciphertextSha256: Hash, size: nat)
  datatype ShardRef = ShardRef(shardId: Uuid, indexType: nat, ciphertextSha256: Hash, timeBucket: string)
  datatype MediaRef = MediaRef(assetId: Uuid, blobId: Uuid, merkleRoot: Hash, wrappedKey: seq<byte>)
  datatype Tombstone = Tombstone(kind: string, id: string, deletedAtMs: i64)
  datatype EpochKeyRef = EpochKeyRef(epochId: string, wrappedKey: seq<byte>)

  datatype Manifest = Manifest(
    magic: string,
    version: u32,
    manifestId: Uuid,
    generation: u64,
    previousManifestHash: Hash,
    segments: seq<SegmentRef>,
    searchIndexShards: seq<ShardRef>,
    mediaReferences: seq<MediaRef>,
    tombstones: seq<Tombstone>,
    wrappedPriorEpochKeys: seq<EpochKeyRef>,
    merkleRoot: Hash,
    manifestSignature: seq<byte>,
    pqcSignature: seq<byte>)

  datatype BuiltSegment = BuiltSegment(segmentId: Uuid, segmentType: nat, ciphertext: seq<byte>, merkleRoot: Hash)

  datatype SigningKey = SigningKey(ed25519: seq<byte>, mlDsa: seq<byte>, mlDsaPublic: seq<byte>)
  datatype VerifyingKey = VerifyingKey(ed25519: seq<byte>, mlDsa: seq<byte>)

  /** Canonical CBOR, BLAKE3, SHA-256, the two signature schemes and the AEAD. */
  datatype Crypto = Crypto(
    encode: Manifest -> Option<seq<byte>>,
    decode: seq<byte> -> Option<Manifest>,
    blake3: seq<byte> -> Hash,
    sha256: seq<byte> -> Hash,
    edPublic: seq<byte> -> seq<byte>,
    edSign: (seq<byte>, seq<byte>) -> seq<byte>,
    edVerify: (seq<byte>, seq<byte>, seq<byte>) -> bool,
    mlPublic: seq<byte> -> seq<byte>,
    mlSign: (seq<byte>, seq<byte>) -> Option<seq<byte>>,
    mlVerify: (seq<byte>, seq<byte>, seq<byte>) -> bool,
    seal: (seq<byte>, seq<byte>, seq<byte>, seq<byte>) -> Option<seq<byte>>,
    open: (seq<byte>, seq<byte>, seq<byte>, seq<byte>) -> Option<seq<byte>>)

  ghost predicate Lawful(c: Crypto) {
    && (forall m | c.encode(m).Some? :: c.decode(c.encode(m).value) == Some(m))
    && (forall k, p :: |c.edSign(k, p)| == ED25519_SIGNATURE_LEN && c.edVerify(c.edPublic(k), p, c.edSign(k, p)))
    && (forall k, p | c.mlSign(k, p).Some? ::
          |c.mlSign(k, p).value| == ML_DSA_65_SIGNATURE_LEN && c.mlVerify(c.mlPublic(k), p, c.mlSign(k, p).value))
    && (forall k, n, p, a | c.seal(k, n, p, a).Some? :: c.open(k, n, c.seal(k, n, p, a).value, a) == Some(p))
  }

  datatype ManifestError =
    | EncodeFailed
    | SignFailed
    | BadEd25519Length
    | BadMlDsaLength
    | Ed25519Failed
    | MlDsaFailed
    | GenerationOverflow
    | SealFailed
    | OpenFailed
    | DecodeFailed

  // ------------------------------------------------------------------ payload, signatures, hash

  function SigningPayload(c: Crypto, m: Manifest): Option<seq<byte>> {
    c.encode(m.(manifestSignature := [], pqcSignature := []))
  }

  function Signed(c: Crypto, m: Manifest, sk: SigningKey): Result<Manifest, ManifestError> {
    match SigningPayload(c, m)
    case None => Err(EncodeFailed)
    case Some(payload) =>
      match c.mlSign(sk.mlDsa, payload)
      case None => Err(SignFailed)
      case Some(ml) => Ok(m.(manifestSignature := c.edSign(sk.ed25519, payload), pqcSignature := ml))
  }

  function Verify(c: Crypto, m: Manifest, vk: VerifyingKey): Result<(), ManifestError> {
    if |m.manifestSignature| != ED25519_SIGNATURE_LEN then Err(BadEd25519Length)
    else if |m.pqcSignature| != ML_DSA_65_SIGNATURE_LEN then Err(BadMlDsaLength)
    else match SigningPayload(c, m)
      case None => Err(EncodeFailed)
      case Some(payload) =>
        if !c.edVerify(vk.ed25519, payload, m.manifestSignature) then Err(Ed25519Failed)
        else if !c.mlVerify(vk.mlDsa, payload, m.pqcSignature) then Err(MlDsaFailed)
        else Ok(())
  }

  /** Both signatures have their length and both schemes accept them for the encoding of everything
      else in the manifest. */
  ghost predicate Authentic(c: Crypto, m: Manifest, vk: VerifyingKey) {
    && |m.manifestSignature| == 64 && |m.pqcSignature| == 3309
    && var payload := c.encode(m.(manifestSignature := [], pqcSignature := []));
       && payload.Some?
       && c.edVerify(vk.ed25519, payload.value, m.manifestSignature)
       && c.mlVerify(vk.mlDsa, payload.value, m.pqcSignature)
  }

  lemma {:induction false} VerifiesExactlyWhen(c: Crypto, m: Manifest, vk: VerifyingKey)
    ensures Verify(c, m, vk).Ok? <==> Authentic(c, m, vk)
  {
  }

  function VerifyingKeyOf(c: Crypto, sk: SigningKey): VerifyingKey {
    VerifyingKey(c.edPublic(sk.ed25519), sk.mlDsaPublic)
  }

  /** The cached public half belongs to the private half. */
  ghost predicate Paired(c: Crypto, sk: SigningKey) {
    sk.mlDsaPublic == c.mlPublic(sk.mlDsa)
  }

  function ManifestHash(c: Crypto, m: Manifest): Option<Hash> {
    match c.encode(m)
    case None => None
    case Some(bytes) => Some(c.blake3(bytes))
  }

  predicate HasValidHeader(kind: ChainKind, m: Manifest) {
    && m.magic == kind.Magic() && m.version == MANIFEST_VERSION
    && (m.generation == 0 ==> m.previousManifestHash == GENESIS_PREVIOUS_HASH)
  }

  /** A manifest under construction, signed in place. */
  class ManifestDraft {
    var manifest: Manifest

    constructor (m: Manifest)
      ensures manifest == m
    {
      manifest := m;
    }

    method Sign(c: Crypto, sk: SigningKey) returns (r: Result<(), ManifestError>)
      modifies this
      ensures match Signed(c, old(manifest), sk)
              case Ok(signed) => r == Ok(()) && manifest == signed
              case Err(e) => r == Err(e) && manifest == old(manifest)
    {
      var payload := SigningPayload(c, manifest);
      if payload.None? { return Err(EncodeFailed); }
      var ed := c.edSign(sk.ed25519, payload.value);
      var ml := c.mlSign(sk.mlDsa, payload.value);
      if ml.None? { return Err(SignFailed); }
      manifest := manifest.(manifestSignature := ed);
      manifest := manifest.(pqcSignature := ml.value);
      r := Ok(());
    }
  }

  /** A signed manifest verifies under the key's public half. */
  lemma {:induction false} SignedVerifies(c: Crypto, m: Manifest, sk: SigningKey)
    requires Lawful(c) && Paired(c, sk) && Signed(c, m, sk).Ok?
    ensures Verify(c, Signed(c, m, sk).value, VerifyingKeyOf(c, sk)) == Ok(())
  {
    var s := Signed(c, m, sk).value;
    assert s.(manifestSignature := [], pqcSignature := []) == m.(manifestSignature := [], pqcSignature := []);
  }

  /** The payload sees everything but the signatures: two manifests have the same payload exactly
      when they differ in nothing else. */
  lemma {:induction false} PayloadExactlyWhen(c: Crypto, a: Manifest, b: Manifest)
    requires Lawful(c) && SigningPayload(c, a).Some?
    ensures SigningPayload(c, a) == SigningPayload(c, b)
       <==> a == b.(manifestSignature := a.manifestSignature, pqcSignature := a.pqcSignature)
  {
    var a', b' := a.(manifestSignature := [], pqcSignature := []), b.(manifestSignature := [], pqcSignature := []);
    if c.encode(a') == c.encode(b') {
      assert Some(a') == c.decode(c.encode(a').value) == Some(b');
      assert a == a'.(manifestSignature := a.manifestSignature, pqcSignature := a.pqcSignature);
    }
  }

  /** Signing again with the same key changes nothing. */
  lemma {:induction false} ResigningIsIdle(c: Crypto, m: Manifest, sk: SigningKey)
    requires Signed(c, m, sk).Ok?
    ensures Signed(c, Signed(c, m, sk).value, sk) == Signed(c, m, sk)
  {
    var s := Signed(c, m, sk).value;
    assert s.(manifestSignature := [], pqcSignature := []) == m.(manifestSignature := [], pqcSignature := []);
  }

  // ------------------------------------------------------------------ building one manifest

  datatype BuildRequest = BuildRequest(
    segments: seq<BuiltSegment>,
    searchIndexShards: seq<ShardRef>,
    mediaReferences: seq<MediaRef>,
    tombstones: seq<Tombstone>,
    wrappedPriorEpochKeys: seq<EpochKeyRef>,
    manifestId: Uuid)

  function Roots(segments: seq<BuiltSegment>): seq<byte> {
    if segments == [] then [] else Roots(segments[..|segments| - 1]) + segments[|segments| - 1].merkleRoot
  }

  /** A streaming hasher fed one root after the other hashes their concatenation. */
  method ComputeSegmentMerkleRoot(c: Crypto, segments: seq<BuiltSegment>) returns (root: Hash)
    ensures root == c.blake3(Roots(segments))
  {
    var absorbed: seq<byte> := [];
    for i := 0 to |segments|
      invariant absorbed == Roots(segments[..i])
    {
      assert segments[..i + 1][..i] == segments[..i];
      absorbed := absorbed + segments[i].merkleRoot;
    }
    assert segments[..|segments|] == segments;
    root := c.blake3(absorbed);
  }

  function RefOf(c: Crypto, s: BuiltSegment): SegmentRef {
    SegmentRef(s.segmentId, s.segmentType, c.sha256(s.ciphertext), |s.ciphertext|)
  }

  function Refs(c: Crypto, segments: seq<BuiltSegment>): seq<SegmentRef> {
    if segments == [] then [] else Refs(c, segments[..|segments| - 1]) + [RefOf(c, segments[|segments| - 1])]
  }

  function Unsigned(c: Crypto, kind: ChainKind, r: BuildRequest, generation: u64, previous: Hash): Manifest {
    Manifest(kind.Magic(), MANIFEST_VERSION, r.manifestId, generation, previous, Refs(c, r.segments),
             r.searchIndexShards, r.mediaReferences, r.tombstones, r.wrappedPriorEpochKeys,
             c.blake3(Roots(r.segments)), [], [])
  }

  function Build(c: Crypto, kind: ChainKind, r: BuildRequest, previous: Option<Manifest>, sk: SigningKey)
    : Result<Manifest, ManifestError>
  {
    match previous
    case None => Signed(c, Unsigned(c, kind, r, 0, GENESIS_PREVIOUS_HASH), sk)
    case Some(prev) =>
      if prev.generation + 1 >= 0x1_0000_0000_0000_0000 then Err(GenerationOverflow)
      else match ManifestHash(c, prev)
        case None => Err(EncodeFailed)
        case Some(hash) => Signed(c, Unsigned(c, kind, r, prev.generation + 1, hash), sk)
  }

  /** Root `i` is bytes `32 i` to `32 i + 32` of what is hashed. */
  lemma {:induction false} RootsAre(segments: seq<BuiltSegment>, i: nat)
    requires i < |segments|
    ensures |Roots(segments)| == 32 * |segments| && Roots(segments)[32 * i..32 * i + 32] == segments[i].merkleRoot
  {
    var n := |segments| - 1;
    if n == 0 {
    } else {
      RootsAre(segments[..n], if i < n then i else 0);
      if i < n {
        assert Roots(segments)[32 * i..32 * i + 32] == Roots(segments[..n])[32 * i..32 * i + 32];
      }
    }
  }

  lemma {:induction false} RefsAre(c: Crypto, segments: seq<BuiltSegment>)
    ensures |Refs(c, segments)| == |segments|
    ensures forall i | 0 <= i < |segments| :: var s := segments[i];
      Refs(c, segments)[i] == SegmentRef(s.segmentId, s.segmentType, c.sha256(s.ciphertext), |s.ciphertext|)
  {
    if segments == [] {
    } else {
      RefsAre(c, segments[..|segments| - 1]);
    }
  }

  /** `m` holds what was asked for, in the order in which it was asked for, and is unsigned. */
  ghost predicate Drafted(c: Crypto, kind: ChainKind, r: BuildRequest, previous: Option<Manifest>, m: Manifest) {
    && m.magic == kind.Magic() && m.version == 2 && m.manifestId == r.manifestId
    && (match previous
        case None => m.generation == 0 && m.previousManifestHash == GENESIS_PREVIOUS_HASH
        case Some(p) => m.generation == p.generation + 1 && LinksTo(c, p, m.previousManifestHash))
    && |m.segments| == |r.segments|
    && (forall i | 0 <= i < |r.segments| :: var s := r.segments[i];
          m.segments[i] == SegmentRef(s.segmentId, s.segmentType, c.sha256(s.ciphertext), |s.ciphertext|))
    && m.searchIndexShards == r.searchIndexShards && m.mediaReferences == r.mediaReferences
    && m.tombstones == r.tombstones && m.wrappedPriorEpochKeys == r.wrappedPriorEpochKeys
    && m.merkleRoot == c.blake3(Roots(r.segments))
    && m.manifestSignature == [] && m.pqcSignature == []
  }

  /** A build returns the draft with both signatures over its encoding, exactly when there is such a
      draft, which fails only past the last generation or when the predecessor cannot be encoded, and
      the draft can be encoded and signed. */
  lemma {:induction false} BuildsExactlyWhen(c: Crypto, kind: ChainKind, r: BuildRequest, previous: Option<Manifest>, sk: SigningKey, m: Manifest)
    ensures Build(c, kind, r, previous, sk) == Ok(m)
       <==> exists u :: Drafted(c, kind, r, previous, u) && c.encode(u).Some? && c.mlSign(sk.mlDsa, c.encode(u).value).Some?
              && m == u.(manifestSignature := c.edSign(sk.ed25519, c.encode(u).value), pqcSignature := c.mlSign(sk.mlDsa, c.encode(u).value).value)
  {
    RefsAre(c, r.segments);
    var generation: int, hash := 0, GENESIS_PREVIOUS_HASH;
    if previous.Some? {
      generation := previous.value.generation + 1;
      if c.encode(previous.value).Some? {
        hash := c.blake3(c.encode(previous.value).value);
      }
    }
    if generation < TWO_64 {
      var u := Unsigned(c, kind, r, generation, hash);
      assert u.(manifestSignature := [], pqcSignature := []) == u;
      assert previous.None? || c.encode(previous.value).Some? ==> Drafted(c, kind, r, previous, u);
      forall v | Drafted(c, kind, r, previous, v) ensures v == u {
        assert v.segments == u.segments;
      }
    }
  }

  // ------------------------------------------------------------------ sealing one manifest

  function LittleEndian8(v: u64): (s: seq<byte>)
    ensures |s| == 8
  {
    var b := BigEndian(8, v);
    [b[7], b[6], b[5], b[4], b[3], b[2], b[1], b[0]]
  }

  /** `magic || manifest_id (16) || generation (8, little-endian) || merkle_root (32) || device_id`;
      archive manifests have no device id. */
  function ManifestAad(kind: ChainKind, id: Uuid, generation: u64, root: Hash, device: seq<byte>): seq<byte> {
    Ascii(kind.Magic()) + BigEndian(16, id) + LittleEndian8(generation) + root
      + if kind.BackupChain? then device else []
  }

  function SealManifest(c: Crypto, kind: ChainKind, m: Manifest, key: seq<byte>, nonce: seq<byte>, device: seq<byte>)
    : Result<seq<byte>, ManifestError>
  {
    match c.encode(m)
    case None => Err(EncodeFailed)
    case Some(bytes) =>
      match c.seal(key, nonce, bytes, ManifestAad(kind, m.manifestId, m.generation, m.merkleRoot, device))
      case None => Err(SealFailed)
      case Some(ct) => Ok(ct)
  }

  datatype SealedManifest = SealedManifest(manifest: Manifest, nonce: seq<byte>, ciphertext: seq<byte>)

  /** The whole builder: number and link, digest the segments, sign in place, seal the signed bytes
      under a nonce from the random source. */
  method BuildAndSeal(c: Crypto, kind: ChainKind, r: BuildRequest, previous: Option<Manifest>, sk: SigningKey,
                      key: seq<byte>, nonce: seq<byte>, device: seq<byte>)
    returns (res: Result<SealedManifest, ManifestError>)
    ensures match Build(c, kind, r, previous, sk)
            case Err(e) => res == Err(e)
            case Ok(m) =>
              match SealManifest(c, kind, m, key, nonce, device)
              case Err(e) => res == Err(e)
              case Ok(ct) => res == Ok(SealedManifest(m, nonce, ct))
  {
    var generation: u64, previousHash := 0, GENESIS_PREVIOUS_HASH;
    if previous.Some? {
      if previous.value.generation + 1 >= 0x1_0000_0000_0000_0000 { return Err(GenerationOverflow); }
      generation := previous.value.generation + 1;
      var hash := ManifestHash(c, previous.value);
      if hash.None? { return Err(EncodeFailed); }
      previousHash := hash.value;
    }
    var refs := Refs(c, r.segments);
    var root := ComputeSegmentMerkleRoot(c, r.segments);
    var draft := new ManifestDraft(Manifest(kind.Magic(), MANIFEST_VERSION, r.manifestId, generation, previousHash, refs,
      r.searchIndexShards, r.mediaReferences, r.tombstones, r.wrappedPriorEpochKeys, root, [], []));
    var signed := draft.Sign(c, sk);
    if signed.Err? { return Err(signed.error); }
    var bytes := c.encode(draft.manifest);
    if bytes.None? { return Err(EncodeFailed); }
    var ct := c.seal(key, nonce, bytes.value, ManifestAad(kind, draft.manifest.manifestId, generation, root, device));
    if ct.None? { return Err(SealFailed); }
    res := Ok(SealedManifest(draft.manifest, nonce, ct.value));
  }

  /** Opening uses the clear manifest beside the ciphertext only for the associated data. */
  function OpenManifest(c: Crypto, kind: ChainKind, clear: Manifest, ct: seq<byte>, key: seq<byte>, nonce: seq<byte>, device: seq<byte>)
    : Result<Manifest, ManifestError>
  {
    match c.open(key, nonce, ct, ManifestAad(kind, clear.manifestId, clear.generation, clear.merkleRoot, device))
    case None => Err(OpenFailed)
    case Some(bytes) =>
      match c.decode(bytes)
      case None => Err(DecodeFailed)
      case Some(m) => Ok(m)
  }

  lemma {:induction false} SealOpens(c: Crypto, kind: ChainKind, m: Manifest, key: seq<byte>, nonce: seq<byte>, device: seq<byte>)
    requires Lawful(c) && SealManifest(c, kind, m, key, nonce, device).Ok?
    ensures OpenManifest(c, kind, m, SealManifest(c, kind, m, key, nonce, device).value, key, nonce, device) == Ok(m)
  {
  }

  lemma {:induction false} MagicsDiffer()
    ensures |Ascii(BACKUP_MANIFEST_MAGIC)| == |Ascii(ARCHIVE_MANIFEST_MAGIC)| == 21
    ensures Ascii(BACKUP_MANIFEST_MAGIC) != Ascii(ARCHIVE_MANIFEST_MAGIC)
  {
    assert BACKUP_MANIFEST_MAGIC[6] == 'B' && ARCHIVE_MANIFEST_MAGIC[6] == 'A';
    assert Ascii(BACKUP_MANIFEST_MAGIC)[6] != Ascii(ARCHIVE_MANIFEST_MAGIC)[6];
  }

  lemma {:induction false} LittleEndianInjective(v: u64, w: u64)
    requires LittleEndian8(v) == LittleEndian8(w)
    ensures v == w
  {
    var a, b := BigEndian(8, v), BigEndian(8, w);
    var la, lb := LittleEndian8(v), LittleEndian8(w);
    forall i | 0 <= i < 8 ensures a[i] == b[i] {
      assert la[7 - i] == lb[7 - i];
    }
    assert a == b;
    Widths();
    BigEndianInjective(8, v, w);
  }

  /** The digits in base 256, the lowest first. */
  lemma {:induction false} LittleEndianDigit(v: u64, j: nat)
    requires j < 8
    ensures LittleEndian8(v)[j] == v / Pow256(j) % 256
  {
    BigEndianDigit(8, v, j);
  }

  /** Where the five parts of the associated data lie. */
  lemma {:induction false} AadLayout(kind: ChainKind, id: Uuid, generation: u64, root: Hash, device: seq<byte>)
    ensures var a := ManifestAad(kind, id, generation, root, device);
      && |a| >= 77 && a[..21] == Ascii(kind.Magic()) && a[21..37] == BigEndian(16, id)
      && a[37..45] == LittleEndian8(generation) && a[45..77] == root
      && a[77..] == if kind.BackupChain? then device else []
  {
    MagicsDiffer();
    var m, i, g := Ascii(kind.Magic()), BigEndian(16, id), LittleEndian8(generation);
    var tail := if kind.BackupChain? then device else [];
    SliceFive(m, i, g, root, tail);
  }

  lemma {:induction false} SliceFive(a: seq<byte>, b: seq<byte>, c: seq<byte>, d: seq<byte>, e: seq<byte>)
    requires |a| == 21 && |b| == 16 && |c| == 8 && |d| == 32
    ensures var s := a + b + c + d + e;
      s[..21] == a && s[21..37] == b && s[37..45] == c && s[45..77] == d && s[77..] == e
  {
  }

  /** The associated data determines the chain, the manifest, its place, its root and its device. */
  lemma {:induction false} AadInjective(k1: ChainKind, id1: Uuid, g1: u64, r1: Hash, d1: seq<byte>,
                                        k2: ChainKind, id2: Uuid, g2: u64, r2: Hash, d2: seq<byte>)
    requires ManifestAad(k1, id1, g1, r1, d1) == ManifestAad(k2, id2, g2, r2, d2)
    ensures k1 == k2 && id1 == id2 && g1 == g2 && r1 == r2 && (k1.BackupChain? ==> d1 == d2)
  {
    AadLayout(k1, id1, g1, r1, d1);
    AadLayout(k2, id2, g2, r2, d2);
    MagicsDiffer();
    Widths();
    BigEndianInjective(16, id1, id2);
    LittleEndianInjective(g1, g2);
  }

  /** An AEAD that opens a ciphertext only with the associated data it was sealed with. */
  ghost predicate Binding(c: Crypto) {
    forall k, n, p, a, b | c.seal(k, n, p, a).Some? && c.open(k, n, c.seal(k, n, p, a).value, b).Some? :: a == b
  }

  /** What is sealed and what opening returns: the encoding of the manifest, under the key and the nonce
      and beside the associated data. */
  lemma {:induction false} SealsExactlyWhen(c: Crypto, kind: ChainKind, m: Manifest, key: seq<byte>, nonce: seq<byte>, device: seq<byte>, ct: seq<byte>, clear: Manifest)
    ensures SealManifest(c, kind, m, key, nonce, device) == Ok(ct)
       <==> exists bytes :: c.encode(m) == Some(bytes)
              && c.seal(key, nonce, bytes, ManifestAad(kind, m.manifestId, m.generation, m.merkleRoot, device)) == Some(ct)
    ensures OpenManifest(c, kind, clear, ct, key, nonce, device) == Ok(m)
       <==> exists bytes :: c.open(key, nonce, ct, ManifestAad(kind, clear.manifestId, clear.generation, clear.merkleRoot, device)) == Some(bytes)
              && c.decode(bytes) == Some(m)
  {
  }

  /** A sealed manifest opens beside exactly those clear manifests that name the same id, generation
      and root, in the same chain and for the same device, and then to what was sealed. */
  lemma {:induction false} OpensExactlyWhen(c: Crypto, kind: ChainKind, m: Manifest, key: seq<byte>, nonce: seq<byte>, device: seq<byte>,
                                            kind': ChainKind, clear: Manifest, device': seq<byte>)
    requires Lawful(c) && Binding(c) && SealManifest(c, kind, m, key, nonce, device).Ok?
    ensures var back := OpenManifest(c, kind', clear, SealManifest(c, kind, m, key, nonce, device).value, key, nonce, device');
      && (back.Ok? <==> && kind' == kind && clear.manifestId == m.manifestId && clear.generation == m.generation
                          && clear.merkleRoot == m.merkleRoot && (kind.BackupChain? ==> device' == device))
      && (back.Ok? ==> back == Ok(m))
  {
    var a := ManifestAad(kind, m.manifestId, m.generation, m.merkleRoot, device);
    var b := ManifestAad(kind', clear.manifestId, clear.generation, clear.merkleRoot, device');
    SealOpens(c, kind, m, key, nonce, device);
    if a == b {
      AadInjective(kind, m.manifestId, m.generation, m.merkleRoot, device, kind', clear.manifestId, clear.generation, clear.merkleRoot, device');
    }
  }

  // ------------------------------------------------------------------ chains

  function Predecessor(ms: seq<Manifest>, i: nat): Option<Manifest>
    requires i < |ms|
  {
    if i == 0 then None else Some(ms[i - 1])
  }

  ghost predicate BuiltAt(c: Crypto, kind: ChainKind, sk: SigningKey, ms: seq<Manifest>, i: nat)
    requires i < |ms|
  {
    BuiltOn(c, kind, sk, Predecessor(ms, i), ms[i])
  }

  /** The header check accepts a built manifest in its own chain and refuses it in the other; and it
      refuses any other version, and a first generation that is not anchored at 32 zero bytes. */
  lemma {:induction false} HeaderExactlyWhen(c: Crypto, kind: ChainKind, kind': ChainKind, r: BuildRequest, previous: Option<Manifest>, sk: SigningKey, m: Manifest)
    ensures Build(c, kind, r, previous, sk) == Ok(m) ==> (HasValidHeader(kind', m) <==> kind' == kind)
    ensures HasValidHeader(kind, m) ==> m.version == 2 && m.magic == kind.Magic()
    ensures HasValidHeader(kind, m) && m.generation == 0 ==> m.previousManifestHash == seq(32, _ => 0)
  {
    MagicsDiffer();
    if Build(c, kind, r, previous, sk) == Ok(m) {
      BuildsExactlyWhen(c, kind, r, previous, sk, m);
    }
  }

  ghost predicate BuiltOn(c: Crypto, kind: ChainKind, sk: SigningKey, previous: Option<Manifest>, m: Manifest) {
    exists r :: Build(c, kind, r, previous, sk) == Ok(m)
  }

  /** Every manifest was built, from some request, on the one before it. */
  ghost predicate Built(c: Crypto, kind: ChainKind, sk: SigningKey, ms: seq<Manifest>) {
    forall i | 0 <= i < |ms| :: BuiltAt(c, kind, sk, ms, i)
  }

  /** The hash of the whole predecessor, signatures included. */
  ghost predicate LinksTo(c: Crypto, previous: Manifest, hash: Hash) {
    c.encode(previous).Some? && hash == c.blake3(c.encode(previous).value)
  }

  /** What the walk of the restore side checks about the manifest at position `i`. */
  ghost predicate LinkOk(c: Crypto, vk: VerifyingKey, ms: seq<Manifest>, i: nat)
    requires i < |ms|
  {
    && ms[i].generation == i
    && Authentic(c, ms[i], vk)
    && (if i == 0 then ms[i].previousManifestHash == GENESIS_PREVIOUS_HASH
        else LinksTo(c, ms[i - 1], ms[i].previousManifestHash))
  }

  /** What one build guarantees about its result. */
  ghost predicate Continues(c: Crypto, kind: ChainKind, vk: VerifyingKey, previous: Option<Manifest>, m: Manifest) {
    && m.magic == kind.Magic() && m.version == MANIFEST_VERSION && Authentic(c, m, vk)
    && match previous
       case None => m.generation == 0 && m.previousManifestHash == GENESIS_PREVIOUS_HASH
       case Some(p) => m.generation == p.generation + 1 && LinksTo(c, p, m.previousManifestHash)
  }

  /** One build: the generation counts on, the link is the predecessor's hash, the result verifies. */
  lemma {:induction false} BuildContinues(c: Crypto, kind: ChainKind, r: BuildRequest, previous: Option<Manifest>, sk: SigningKey)
    requires Lawful(c) && Paired(c, sk) && Build(c, kind, r, previous, sk).Ok?
    ensures Continues(c, kind, VerifyingKeyOf(c, sk), previous, Build(c, kind, r, previous, sk).value)
  {
    VerifiesExactlyWhen(c, Build(c, kind, r, previous, sk).value, VerifyingKeyOf(c, sk));
    match previous
    case None => SignedVerifies(c, Unsigned(c, kind, r, 0, GENESIS_PREVIOUS_HASH), sk);
    case Some(p) => SignedVerifies(c, Unsigned(c, kind, r, p.generation + 1, ManifestHash(c, p).value), sk);
  }

  lemma {:induction false} BuiltContinues(c: Crypto, kind: ChainKind, sk: SigningKey, previous: Option<Manifest>, m: Manifest)
    requires Lawful(c) && Paired(c, sk) && BuiltOn(c, kind, sk, previous, m)
    ensures Continues(c, kind, VerifyingKeyOf(c, sk), previous, m)
  {
    forall r | Build(c, kind, r, previous, sk) == Ok(m)
      ensures Continues(c, kind, VerifyingKeyOf(c, sk), previous, m)
    {
      BuildContinues(c, kind, r, previous, sk);
    }
  }

  ghost predicate ContinuesAt(c: Crypto, kind: ChainKind, vk: VerifyingKey, ms: seq<Manifest>, i: nat)
    requires i < |ms|
  {
    Continues(c, kind, vk, Predecessor(ms, i), ms[i])
  }

  lemma {:induction false} ContinuedLinks(c: Crypto, kind: ChainKind, vk: VerifyingKey, ms: seq<Manifest>, i: nat)
    requires i < |ms| && forall j | 0 <= j < |ms| :: ContinuesAt(c, kind, vk, ms, j)
    ensures LinkOk(c, vk, ms, i) && HasValidHeader(kind, ms[i])
  {
    assert ContinuesAt(c, kind, vk, ms, i);
    if i == 0 {
    } else {
      ContinuedLinks(c, kind, vk, ms, i - 1);
    }
  }

  /** Every manifest of a built chain passes the walk and the header check. */
  lemma {:induction false} BuiltLinks(c: Crypto, kind: ChainKind, sk: SigningKey, ms: seq<Manifest>)
    requires Lawful(c) && Paired(c, sk) && Built(c, kind, sk, ms)
    ensures forall i | 0 <= i < |ms| :: LinkOk(c, VerifyingKeyOf(c, sk), ms, i) && HasValidHeader(kind, ms[i])
  {
    var vk := VerifyingKeyOf(c, sk);
    forall j | 0 <= j < |ms| ensures ContinuesAt(c, kind, vk, ms, j) {
      assert BuiltAt(c, kind, sk, ms, j);
      BuiltContinues(c, kind, sk, Predecessor(ms, j), ms[j]);
    }
    forall i | 0 <= i < |ms| ensures LinkOk(c, vk, ms, i) && HasValidHeader(kind, ms[i]) {
      ContinuedLinks(c, kind, vk, ms, i);
    }
  }

  datatype VerificationError =
    | EmptyChain
    | SignatureInvalid(generation: u64)
    | ChainBreak(brokenAt: u64, expected: Hash, actual: Hash)
    | GapDetected(missingGeneration: u64)
    | GenesisHashNotZero(found: Hash)
    | HashComputationFailed(unhashed: u64)

  /** `error` describes what is wrong with the manifest at `i`, and every earlier manifest is sound. */
  ghost predicate FirstFault(c: Crypto, vk: VerifyingKey, ms: seq<Manifest>, i: nat, error: VerificationError)
    requires i < |ms|
  {
    && (forall j | 0 <= j < i :: LinkOk(c, vk, ms, j))
    && match error
       case EmptyChain => false
       case SignatureInvalid(g) => g == ms[i].generation && !Authentic(c, ms[i], vk)
       case GapDetected(g) => g == i && ms[i].generation != i
       case GenesisHashNotZero(found) => i == 0 && found == ms[0].previousManifestHash != GENESIS_PREVIOUS_HASH
       case HashComputationFailed(g) => i > 0 && g == i - 1 && c.encode(ms[i - 1]).None?
       case ChainBreak(g, expected, actual) =>
         i > 0 && g == i == ms[i].generation && LinksTo(c, ms[i - 1], expected)
         && actual == ms[i].previousManifestHash != expected
  }

  /** The walk of the restore side, from genesis to tip. */
  method VerifyManifestChain(c: Crypto, ms: seq<Manifest>, vk: VerifyingKey) returns (r: Result<(), VerificationError>)
    requires |ms| <= I64_MAX
    ensures r == Ok(()) <==> ms != [] && forall i | 0 <= i < |ms| :: LinkOk(c, vk, ms, i)
    ensures r.Ok? ==> forall i | 0 <= i < |ms| :: Authentic(c, ms[i], vk)
    ensures r.Err? ==> if ms == [] then r.error == EmptyChain else exists i | 0 <= i < |ms| :: FirstFault(c, vk, ms, i, r.error)
  {
    if ms == [] { return Err(EmptyChain); }
    var genesis := ms[0];
    if genesis.generation != 0 {
      assert !LinkOk(c, vk, ms, 0) && FirstFault(c, vk, ms, 0, GapDetected(0));
      return Err(GapDetected(0));
    }
    if genesis.previousManifestHash != GENESIS_PREVIOUS_HASH {
      assert !LinkOk(c, vk, ms, 0) && FirstFault(c, vk, ms, 0, GenesisHashNotZero(genesis.previousManifestHash));
      return Err(GenesisHashNotZero(genesis.previousManifestHash));
    }
    var prev: Option<Manifest> := None;
    for i := 0 to |ms|
      invariant prev == if i == 0 then None else Some(ms[i - 1])
      invariant forall j | 0 <= j < i :: LinkOk(c, vk, ms, j)
    {
      var m := ms[i];
      var signature := Verify(c, m, vk);
      VerifiesExactlyWhen(c, m, vk);
      if signature.Err? {
        assert !LinkOk(c, vk, ms, i) && FirstFault(c, vk, ms, i, SignatureInvalid(m.generation));
        return Err(SignatureInvalid(m.generation));
      }
      if prev.Some? {
        var p := prev.value;
        assert LinkOk(c, vk, ms, i - 1);
        var expectedGeneration := p.generation + 1;
        if m.generation != expectedGeneration {
          assert !LinkOk(c, vk, ms, i) && FirstFault(c, vk, ms, i, GapDetected(expectedGeneration));
          return Err(GapDetected(expectedGeneration));
        }
        var expected := ManifestHash(c, p);
        if expected.None? {
          assert !LinkOk(c, vk, ms, i) && FirstFault(c, vk, ms, i, HashComputationFailed(p.generation));
          return Err(HashComputationFailed(p.generation));
        }
        if m.previousManifestHash != expected.value {
          assert !LinkOk(c, vk, ms, i) && FirstFault(c, vk, ms, i, ChainBreak(m.generation, expected.value, m.previousManifestHash));
          return Err(ChainBreak(m.generation, expected.value, m.previousManifestHash));
        }
      }
      assert LinkOk(c, vk, ms, i);
      prev := Some(m);
    }
    forall i | 0 <= i < |ms| ensures Authentic(c, ms[i], vk) {
      assert LinkOk(c, vk, ms, i);
    }
    r := Ok(());
  }

  ghost predicate Collides(c: Crypto, m: Manifest, n: Manifest) {
    m != n && c.encode(m).Some? && c.encode(n).Some? && c.blake3(c.encode(m).value) == c.blake3(c.encode(n).value)
  }

  /** Two different manifests, one of each chain, whose encodings have the same hash. */
  ghost predicate Collision(c: Crypto, a: seq<Manifest>, b: seq<Manifest>) {
    exists i, j | 0 <= i < |a| && 0 <= j < |b| :: Collides(c, a[i], b[j])
  }

  /** The tip fixes the whole chain, whoever signed it: two chains that pass the walk and end in the
      same manifest are equal throughout, or show a collision of the hash. */
  lemma {:induction false} TipFixesChain(c: Crypto, vk: VerifyingKey, wk: VerifyingKey, a: seq<Manifest>, b: seq<Manifest>)
    requires a != [] && b != []
    requires forall i | 0 <= i < |a| :: LinkOk(c, vk, a, i)
    requires forall i | 0 <= i < |b| :: LinkOk(c, wk, b, i)
    requires a[|a| - 1] == b[|b| - 1]
    ensures a == b || Collision(c, a, b)
  {
    assert LinkOk(c, vk, a, |a| - 1) && LinkOk(c, wk, b, |b| - 1);
    var n := |a| - 1;
    if n == 0 {
      assert a == [a[0]] && b == [b[0]];
    } else if a[n - 1] == b[n - 1] {
      var front, back := a[..n], b[..n];
      forall i | 0 <= i < n ensures LinkOk(c, vk, front, i) {
        assert LinkOk(c, vk, a, i);
      }
      forall i | 0 <= i < n ensures LinkOk(c, wk, back, i) {
        assert LinkOk(c, wk, b, i);
      }
      TipFixesChain(c, vk, wk, front, back);
      assert a == front + [a[n]] && b == back + [b[n]];
    } else {
      assert Collides(c, a[n - 1], b[n - 1]);
    }
  }

  // ------------------------------------------------------------------ forged manifests

  ghost predicate SameButSignatures(a: Manifest, b: Manifest) {
    a == b.(manifestSignature := a.manifestSignature, pqcSignature := a.pqcSignature)
  }

  /** The signer signed the payload: it is the encoding of a genuine manifest without its signatures. */
  ghost predicate WasSigned(c: Crypto, genuine: set<Manifest>, payload: seq<byte>) {
    exists g | g in genuine :: c.encode(g.(manifestSignature := [], pqcSignature := [])) == Some(payload)
  }

  /** Ed25519 accepts signatures only over payloads that the signer signed. */
  ghost predicate Ed25519Holds(c: Crypto, vk: VerifyingKey, genuine: set<Manifest>) {
    forall p, s | c.edVerify(vk.ed25519, p, s) :: WasSigned(c, genuine, p)
  }

  ghost predicate MlDsaHolds(c: Crypto, vk: VerifyingKey, genuine: set<Manifest>) {
    forall p, s | c.mlVerify(vk.mlDsa, p, s) :: WasSigned(c, genuine, p)
  }

  /** As long as one of the two schemes is unforged, every manifest of an accepted walk is one the
      signer signed, up to the bytes of the signatures: a manifest changed elsewhere is refused. */
  lemma {:induction false} AcceptedIsGenuine(c: Crypto, vk: VerifyingKey, genuine: set<Manifest>, m: Manifest)
    requires Lawful(c) && (Ed25519Holds(c, vk, genuine) || MlDsaHolds(c, vk, genuine))
    ensures Authentic(c, m, vk) ==> exists g | g in genuine :: SameButSignatures(m, g)
    ensures (forall g | g in genuine :: !SameButSignatures(m, g)) ==> Verify(c, m, vk).Err?
  {
    VerifiesExactlyWhen(c, m, vk);
    if Authentic(c, m, vk) {
      var payload := c.encode(m.(manifestSignature := [], pqcSignature := [])).value;
      assert WasSigned(c, genuine, payload);
      var g :| g in genuine && c.encode(g.(manifestSignature := [], pqcSignature := [])) == Some(payload);
      PayloadExactlyWhen(c, m, g);
    }
  }
}
