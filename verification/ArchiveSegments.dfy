/** Archive segments: grouping journaled events by bucket, sealing a group, the blob that travels,
    and the two ways back to the events. */
module ArchiveSegments {
  import opened Foundations
  import opened Bytes
  import opened ArchiveEvents

  const ARCHIVE_SEGMENT_PAYLOAD_MAGIC := "KCHAT_ARC_SEG_PAYLOAD_V1"
  const SEGMENT_AAD_MAGIC := "KCHAT_ARCHIVE_SEGMENT_V1"
  const BLOB_HEADER_LEN := 72

  type Nonce = n: seq<byte> | |n| == 24 witness seq(24, _ => 0)

  datatype SegmentType =
    | Events
    | MessageDelta
    | TimelineSkeleton
    | MediaKeyDelta
    | SearchTextIndex
    | SearchVectorIndex
    | MediaIndex
    | Checkpoint

  predicate IsArchiveSegment(t: SegmentType) {
    !t.Events?
  }

  datatype Payload = Payload(magic: seq<byte>, conversationId: string, timeBucket: string, events: seq<ArchiveEvent>)

  datatype BuildRequest = BuildRequest(conversationId: Uuid, timeBucket: string, events: seq<ArchiveEvent>, segmentType: SegmentType)

  datatype BuiltSegment = BuiltSegment(
    segmentId: Uuid,
    conversationId: Uuid,
    timeBucket: string,
    segmentType: SegmentType,
    nonce: Nonce,
    ciphertext: seq<byte>,
    merkleRoot: Hash,
    eventCount: nat)

  /** CBOR, BLAKE3, zstd, XChaCha20-Poly1305 and the printed form of an id. */
  datatype Primitives = Primitives(
    encode: Payload -> Option<seq<byte>>,
    decode: seq<byte> -> Option<Payload>,
    contentHash: seq<byte> -> Hash,
    compress: seq<byte> -> Option<seq<byte>>,
    decompress: seq<byte> -> Option<seq<byte>>,
    seal: (Key, Nonce, seq<byte>, seq<byte>) -> Option<seq<byte>>,
    open: (Key, Nonce, seq<byte>, seq<byte>) -> Option<seq<byte>>,
    idText: Uuid -> string)

  ghost predicate Lawful(p: Primitives) {
    && (forall x | p.encode(x).Some? :: p.decode(p.encode(x).value) == Some(x))
    && (forall b | p.compress(b).Some? :: p.decompress(p.compress(b).value) == Some(b))
    && (forall k: Key, n: Nonce, b, a | p.seal(k, n, b, a).Some? :: p.open(k, n, p.seal(k, n, b, a).value, a) == Some(b))
    && (forall u: Uuid, v: Uuid | p.idText(u) == p.idText(v) :: u == v)
  }

  datatype SegmentError =
    | EmptyEvents
    | NotAnArchiveType
    | EncodeFailed
    | CompressFailed
    | SealFailed
    | BlobTooShort
    | OpenFailed
    | DecompressFailed
    | DecodeFailed
    | MagicMismatch
    | RootMismatch

  // ------------------------------------------------------------------ grouping

  type BucketKey = (Uuid, string)

  function KeyOf(bucketFor: ArchiveEvent -> string, e: ArchiveEvent): BucketKey {
    (e.conversationId, bucketFor(e))
  }

  /** The events of one key, in order. */
  function Matching(events: seq<ArchiveEvent>, bucketFor: ArchiveEvent -> string, key: BucketKey): seq<ArchiveEvent> {
    if events == [] then []
    else
      var last := events[|events| - 1];
      Matching(events[..|events| - 1], bucketFor, key) + if KeyOf(bucketFor, last) == key then [last] else []
  }

  lemma {:induction false} MatchingCounts(events: seq<ArchiveEvent>, bucketFor: ArchiveEvent -> string, key: BucketKey, e: ArchiveEvent)
    ensures multiset(Matching(events, bucketFor, key))[e] == if KeyOf(bucketFor, e) == key then multiset(events)[e] else 0
  {
    if events == [] {
    } else {
      MatchingCounts(events[..|events| - 1], bucketFor, key, e);
      assert events == events[..|events| - 1] + [events[|events| - 1]];
    }
  }

  /** `ps` are, in order, the positions of the events of the key, and `group` the events found there. */
  ghost predicate PickedAt(events: seq<ArchiveEvent>, bucketFor: ArchiveEvent -> string, key: BucketKey, group: seq<ArchiveEvent>, ps: seq<int>) {
    && |ps| == |group|
    && (forall i, j | 0 <= i < j < |ps| :: ps[i] < ps[j])
    && (forall i | 0 <= i < |ps| :: 0 <= ps[i] < |events| && group[i] == events[ps[i]])
    && (forall p | 0 <= p < |events| :: p in ps <==> events[p].conversationId == key.0 && bucketFor(events[p]) == key.1)
  }

  /** The group of a key: the events of its conversation whose bucket it names, all of them, in the
      order of the batch. */
  ghost predicate InBatchOrder(events: seq<ArchiveEvent>, bucketFor: ArchiveEvent -> string, key: BucketKey, group: seq<ArchiveEvent>) {
    exists ps :: PickedAt(events, bucketFor, key, group, ps)
  }

  lemma {:induction false} PickedGrows(front: seq<ArchiveEvent>, last: ArchiveEvent, bucketFor: ArchiveEvent -> string, key: BucketKey,
                                       group: seq<ArchiveEvent>, ps: seq<int>)
    requires PickedAt(front, bucketFor, key, group, ps)
    ensures KeyOf(bucketFor, last) == key ==> PickedAt(front + [last], bucketFor, key, group + [last], ps + [|front|])
    ensures KeyOf(bucketFor, last) != key ==> PickedAt(front + [last], bucketFor, key, group, ps)
  {
    var events := front + [last];
    assert forall p | p in ps :: 0 <= p < |front|;
    forall p | 0 <= p < |front| ensures p in ps <==> events[p].conversationId == key.0 && bucketFor(events[p]) == key.1 {
      assert front[p] == events[p];
    }
  }

  lemma {:induction false} InOrderGrows(front: seq<ArchiveEvent>, last: ArchiveEvent, bucketFor: ArchiveEvent -> string, key: BucketKey,
                                        group: seq<ArchiveEvent>, grown: seq<ArchiveEvent>)
    requires InBatchOrder(front, bucketFor, key, group)
    requires grown == if KeyOf(bucketFor, last) == key then group + [last] else group
    ensures InBatchOrder(front + [last], bucketFor, key, grown)
  {
    var ps :| PickedAt(front, bucketFor, key, group, ps);
    PickedGrows(front, last, bucketFor, key, group, ps);
  }

  lemma {:induction false} NoneInOrder(bucketFor: ArchiveEvent -> string, key: BucketKey)
    ensures InBatchOrder([], bucketFor, key, [])
  {
    assert PickedAt([], bucketFor, key, [], []);
  }

  lemma {:induction false} MatchingInOrder(events: seq<ArchiveEvent>, bucketFor: ArchiveEvent -> string, key: BucketKey)
    ensures InBatchOrder(events, bucketFor, key, Matching(events, bucketFor, key))
  {
    if events == [] {
      NoneInOrder(bucketFor, key);
    } else {
      var front, last := events[..|events| - 1], events[|events| - 1];
      MatchingInOrder(front, bucketFor, key);
      assert events == front + [last];
      var group, grown := Matching(front, bucketFor, key), Matching(events, bucketFor, key);
      assert grown == group + if KeyOf(bucketFor, last) == key then [last] else [];
      InOrderGrows(front, last, bucketFor, key, group, grown);
    }
  }

  /** Only one sequence of events lies at those positions. */
  lemma {:induction false} BatchOrderIsUnique(events: seq<ArchiveEvent>, bucketFor: ArchiveEvent -> string, key: BucketKey, group: seq<ArchiveEvent>)
    ensures InBatchOrder(events, bucketFor, key, group) <==> group == Matching(events, bucketFor, key)
  {
    MatchingInOrder(events, bucketFor, key);
    if InBatchOrder(events, bucketFor, key, group) {
      var ps :| PickedAt(events, bucketFor, key, group, ps);
      var qs :| PickedAt(events, bucketFor, key, Matching(events, bucketFor, key), qs);
      forall p ensures p in ps <==> p in qs {
        assert p in ps ==> 0 <= p < |events|;
        assert p in qs ==> 0 <= p < |events|;
      }
      AscendingUnique(ps, qs);
    }
  }

  lemma {:induction false} LastIsIn(a: seq<int>, b: seq<int>)
    requires forall p :: p in a <==> p in b
    ensures a != [] ==> a[|a| - 1] in b
  {
    if a != [] {
      var last := a[|a| - 1];
      assert last in a;
    }
  }

  lemma {:induction false} AscendingUnique(a: seq<int>, b: seq<int>)
    requires (forall i, j | 0 <= i < j < |a| :: a[i] < a[j]) && (forall i, j | 0 <= i < j < |b| :: b[i] < b[j])
    requires forall p :: p in a <==> p in b
    ensures a == b
  {
    LastIsIn(a, b);
    LastIsIn(b, a);
    if a == [] {
    } else {
      var x, y, last := a[..|a| - 1], b[..|b| - 1], a[|a| - 1];
      assert a == x + [last] && b == y + [last];
      assert last !in x && last !in y;
      forall p ensures p in x <==> p in y {
        assert p in a <==> p in x || p == last;
        assert p in b <==> p in y || p == last;
      }
      AscendingUnique(x, y);
    }
  }

  /** Each key that occurs gets exactly its events, in the order of the batch, and no other key occurs. */
  method GroupEventsByBucket(events: seq<ArchiveEvent>, bucketFor: ArchiveEvent -> string) returns (groups: map<BucketKey, seq<ArchiveEvent>>)
    ensures forall key :: key in groups <==> Matching(events, bucketFor, key) != []
    ensures forall key | key in groups :: groups[key] == Matching(events, bucketFor, key)
    ensures forall key | key in groups :: InBatchOrder(events, bucketFor, key, groups[key])
    ensures forall e | e in events :: (e.conversationId, bucketFor(e)) in groups
  {
    groups := map[];
    for i := 0 to |events|
      invariant forall key :: key in groups <==> Matching(events[..i], bucketFor, key) != []
      invariant forall key | key in groups :: groups[key] == Matching(events[..i], bucketFor, key)
    {
      assert events[..i + 1][..i] == events[..i];
      var key := KeyOf(bucketFor, events[i]);
      groups := groups[key := (if key in groups then groups[key] else []) + [events[i]]];
    }
    assert events[..|events|] == events;
    forall key ensures InBatchOrder(events, bucketFor, key, Matching(events, bucketFor, key)) {
      MatchingInOrder(events, bucketFor, key);
    }
    forall e | e in events ensures (e.conversationId, bucketFor(e)) in groups {
      MatchingCounts(events, bucketFor, KeyOf(bucketFor, e), e);
      assert e in multiset(events);
    }
  }

  // ------------------------------------------------------------------ sealing

  function SegmentAad(id: Uuid, root: Hash): seq<byte> {
    Ascii(SEGMENT_AAD_MAGIC) + BigEndian(16, id) + root
  }

  /** Where the three parts lie; so the associated data determines the segment's id and root. */
  lemma {:induction false} SegmentAadLayout(id: Uuid, root: Hash)
    ensures var a := SegmentAad(id, root);
      |a| == 72 && a[..24] == Ascii("KCHAT_ARCHIVE_SEGMENT_V1") && a[24..40] == BigEndian(16, id) && a[40..] == root
  {
  }

  lemma {:induction false} SegmentAadInjective(id: Uuid, root: Hash, id': Uuid, root': Hash)
    requires SegmentAad(id, root) == SegmentAad(id', root')
    ensures id == id' && root == root'
  {
    SegmentAadLayout(id, root);
    SegmentAadLayout(id', root');
    Widths();
    BigEndianInjective(16, id, id');
  }

  function PayloadOf(p: Primitives, r: BuildRequest): Payload {
    Payload(Ascii(ARCHIVE_SEGMENT_PAYLOAD_MAGIC), p.idText(r.conversationId), r.timeBucket, r.events)
  }

  /** `id` and `nonce` are drawn by the caller of the random source. */
  function BuildSegment(p: Primitives, r: BuildRequest, key: Key, id: Uuid, nonce: Nonce): Result<BuiltSegment, SegmentError> {
    if r.events == [] then Err(EmptyEvents)
    else if !IsArchiveSegment(r.segmentType) then Err(NotAnArchiveType)
    else match p.encode(PayloadOf(p, r))
      case None => Err(EncodeFailed)
      case Some(cbor) =>
        var root := p.contentHash(cbor);
        match p.compress(cbor)
        case None => Err(CompressFailed)
        case Some(compressed) =>
          match p.seal(key, nonce, compressed, SegmentAad(id, root))
          case None => Err(SealFailed)
          case Some(ct) => Ok(BuiltSegment(id, r.conversationId, r.timeBucket, r.segmentType, nonce, ct, root, |r.events|))
  }

  /** The builder's own way back: the magic is checked before the root. */
  function DecryptSegment(p: Primitives, s: BuiltSegment, key: Key): Result<Payload, SegmentError> {
    match p.open(key, s.nonce, s.ciphertext, SegmentAad(s.segmentId, s.merkleRoot))
    case None => Err(OpenFailed)
    case Some(compressed) =>
      match p.decompress(compressed)
      case None => Err(DecompressFailed)
      case Some(cbor) =>
        match p.decode(cbor)
        case None => Err(DecodeFailed)
        case Some(payload) =>
          if payload.magic != Ascii(ARCHIVE_SEGMENT_PAYLOAD_MAGIC) then Err(MagicMismatch)
          else if p.contentHash(cbor) != s.merkleRoot then Err(RootMismatch)
          else Ok(payload)
  }

  /** The encoded payload of a request, its compressed form and the ciphertext of that. */
  ghost predicate SealedAs(p: Primitives, r: BuildRequest, key: Key, id: Uuid, nonce: Nonce, cbor: seq<byte>, compressed: seq<byte>, ct: seq<byte>) {
    && p.encode(Payload(Ascii("KCHAT_ARC_SEG_PAYLOAD_V1"), p.idText(r.conversationId), r.timeBucket, r.events)) == Some(cbor)
    && p.compress(cbor) == Some(compressed)
    && p.seal(key, nonce, compressed, Ascii("KCHAT_ARCHIVE_SEGMENT_V1") + BigEndian(16, id) + p.contentHash(cbor)) == Some(ct)
  }

  /** What a build returns, and when: a batch with events, of an archive type, that the codec, the
      compressor and the cipher take. The root is the hash of the encoded payload. */
  lemma {:induction false} BuildsExactlyWhen(p: Primitives, r: BuildRequest, key: Key, id: Uuid, nonce: Nonce, s: BuiltSegment)
    ensures BuildSegment(p, r, key, id, nonce) == Ok(s)
       <==> r.events != [] && r.segmentType != Events
            && exists cbor, compressed, ct :: SealedAs(p, r, key, id, nonce, cbor, compressed, ct)
                 && s == BuiltSegment(id, r.conversationId, r.timeBucket, r.segmentType, nonce, ct, p.contentHash(cbor), |r.events|)
  {
    if p.encode(PayloadOf(p, r)).Some? && p.compress(p.encode(PayloadOf(p, r)).value).Some? {
      var cbor := p.encode(PayloadOf(p, r)).value;
      var compressed := p.compress(cbor).value;
      var ct := p.seal(key, nonce, compressed, SegmentAad(id, p.contentHash(cbor)));
      assert ct.Some? ==> SealedAs(p, r, key, id, nonce, cbor, compressed, ct.value);
    }
  }

  /** The ciphertext opens beside the segment's id and root, and inflates and decodes to the payload. */
  ghost predicate OpensTo(p: Primitives, s: BuiltSegment, key: Key, compressed: seq<byte>, cbor: seq<byte>, payload: Payload) {
    && p.open(key, s.nonce, s.ciphertext, Ascii("KCHAT_ARCHIVE_SEGMENT_V1") + BigEndian(16, s.segmentId) + s.merkleRoot) == Some(compressed)
    && p.decompress(compressed) == Some(cbor)
    && p.decode(cbor) == Some(payload)
  }

  /** A segment, from whatever source, is accepted exactly when it opens to bytes that have the root as
      their hash and decode to a payload with the right magic. */
  lemma {:induction false} DecryptsExactlyWhen(p: Primitives, s: BuiltSegment, key: Key, payload: Payload)
    ensures DecryptSegment(p, s, key) == Ok(payload)
       <==> payload.magic == Ascii("KCHAT_ARC_SEG_PAYLOAD_V1")
            && exists compressed, cbor :: OpensTo(p, s, key, compressed, cbor, payload) && p.contentHash(cbor) == s.merkleRoot
  {
    var compressed := p.open(key, s.nonce, s.ciphertext, SegmentAad(s.segmentId, s.merkleRoot));
    if compressed.Some? && p.decompress(compressed.value).Some? {
      var cbor := p.decompress(compressed.value).value;
      assert p.decode(cbor) == Some(payload) ==> OpensTo(p, s, key, compressed.value, cbor, payload);
    }
  }

  /** An AEAD that opens a ciphertext only with the associated data it was sealed with. */
  ghost predicate Binding(p: Primitives) {
    forall k: Key, n: Nonce, b, x, y | p.seal(k, n, b, x).Some? && p.open(k, n, p.seal(k, n, b, x).value, y).Some? :: x == y
  }

  /** The ciphertext of a built segment is accepted under no other id and no other root. */
  lemma {:induction false} BoundToIdAndRoot(p: Primitives, r: BuildRequest, key: Key, id: Uuid, nonce: Nonce, s: BuiltSegment)
    requires Lawful(p) && Binding(p) && BuildSegment(p, r, key, id, nonce).Ok?
    requires s.ciphertext == BuildSegment(p, r, key, id, nonce).value.ciphertext && s.nonce == nonce
    ensures DecryptSegment(p, s, key).Ok? <==> s.segmentId == id && s.merkleRoot == BuildSegment(p, r, key, id, nonce).value.merkleRoot
  {
    var built := BuildSegment(p, r, key, id, nonce).value;
    BuildDecrypts(p, r, key, id, nonce);
    if DecryptSegment(p, s, key).Ok? {
      SegmentAadInjective(id, built.merkleRoot, s.segmentId, s.merkleRoot);
    }
  }

  /** A built segment opens to exactly what was asked for. */
  lemma {:induction false} BuildDecrypts(p: Primitives, r: BuildRequest, key: Key, id: Uuid, nonce: Nonce)
    requires Lawful(p) && BuildSegment(p, r, key, id, nonce).Ok?
    ensures DecryptSegment(p, BuildSegment(p, r, key, id, nonce).value, key) == Ok(PayloadOf(p, r))
  {
    var cbor := p.encode(PayloadOf(p, r)).value;
    var compressed := p.compress(cbor).value;
    var s := BuildSegment(p, r, key, id, nonce).value;
    assert p.open(key, nonce, s.ciphertext, SegmentAad(id, s.merkleRoot)) == Some(compressed);
  }

  // ------------------------------------------------------------------ the blob that travels

  function EncodeBlob(s: BuiltSegment): (b: seq<byte>)
    ensures |b| == BLOB_HEADER_LEN + |s.ciphertext|
  {
    BigEndian(16, s.segmentId) + s.merkleRoot + s.nonce + s.ciphertext
  }

  datatype DecodedBlob = DecodedBlob(segmentId: Uuid, merkleRoot: Hash, nonce: Nonce, ciphertext: seq<byte>)

  function DecodeBlob(bytes: seq<byte>): Result<DecodedBlob, SegmentError> {
    if |bytes| < BLOB_HEADER_LEN then Err(BlobTooShort)
    else
      FromBigEndianBound(bytes[..16]);
      Widths();
      Ok(DecodedBlob(FromBigEndian(bytes[..16]), bytes[16..48], bytes[48..72], bytes[72..]))
  }

  lemma {:induction false} BlobLayout(s: BuiltSegment)
    ensures var b := EncodeBlob(s);
      b[..16] == BigEndian(16, s.segmentId) && b[16..48] == s.merkleRoot && b[48..72] == s.nonce && b[72..] == s.ciphertext
  {
  }

  lemma {:induction false} BlobRoundTrip(s: BuiltSegment)
    ensures DecodeBlob(EncodeBlob(s)) == Ok(DecodedBlob(s.segmentId, s.merkleRoot, s.nonce, s.ciphertext))
  {
    BlobLayout(s);
    Widths();
    BigEndianRoundTrip(16, s.segmentId);
  }

  /** Every byte string of at least a header's length is the blob of what it decodes to. */
  lemma {:induction false} BlobIsExact(bytes: seq<byte>, s: BuiltSegment)
    ensures DecodeBlob(bytes) == Ok(DecodedBlob(s.segmentId, s.merkleRoot, s.nonce, s.ciphertext)) <==> bytes == EncodeBlob(s)
  {
    if DecodeBlob(bytes).Ok? {
      FromBigEndianRoundTrip(bytes[..16]);
      assert bytes == bytes[..16] + bytes[16..48] + bytes[48..72] + bytes[72..];
    }
    BlobRoundTrip(s);
  }

  function DecryptArchiveSegment(p: Primitives, bytes: seq<byte>, key: Key): Result<seq<byte>, SegmentError> {
    match DecodeBlob(bytes)
    case Err(e) => Err(e)
    case Ok(d) =>
      match p.open(key, d.nonce, d.ciphertext, SegmentAad(d.segmentId, d.merkleRoot))
      case None => Err(OpenFailed)
      case Some(compressed) =>
        match p.decompress(compressed)
        case None => Err(DecompressFailed)
        case Some(cbor) => if p.contentHash(cbor) != d.merkleRoot then Err(RootMismatch) else Ok(cbor)
  }

  function DecodeSegmentPayload(p: Primitives, cbor: seq<byte>): Result<Payload, SegmentError> {
    match p.decode(cbor)
    case None => Err(DecodeFailed)
    case Some(payload) => if payload.magic != Ascii(ARCHIVE_SEGMENT_PAYLOAD_MAGIC) then Err(MagicMismatch) else Ok(payload)
  }

  /** The download path: open and check the root, then decode and check the magic. */
  function Download(p: Primitives, bytes: seq<byte>, key: Key): Result<Payload, SegmentError> {
    match DecryptArchiveSegment(p, bytes, key)
    case Err(e) => Err(e)
    case Ok(cbor) => DecodeSegmentPayload(p, cbor)
  }

  /** For every segment, sealed by the builder or not: the download path accepts its blob exactly
      when the builder's own path accepts it, with the same payload. They report different errors
      only for a body that is wrong in two ways, where the download path names the root. */
  lemma {:induction false} DownloadAgrees(p: Primitives, s: BuiltSegment, key: Key)
    ensures var own, far := DecryptSegment(p, s, key), Download(p, EncodeBlob(s), key);
      && (forall x :: far == Ok(x) <==> own == Ok(x))
      && (far == own || (far == Err(RootMismatch) && (own == Err(MagicMismatch) || own == Err(DecodeFailed))))
  {
    BlobRoundTrip(s);
  }
}
