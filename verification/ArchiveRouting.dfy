/** The S3 tier of the archive: segment blobs are sealed once more with Pattern C under a key derived
    from their own hash and the tenant, stored under `archive/segments/{id}`, and opened again by a
    reader who knows the hash. */
module ArchiveRouting {
  import opened Foundations
  import opened Arithmetic
  import opened Bytes
  import opened ArchiveEvents
  import opened ArchiveSegments
  import PatternC
  import Prefetch

  const FETCH_ALL := 0xffff_ffff_ffff_ffff

  type Store = map<(string, string), seq<byte>>

  datatype Adapter = Adapter(bucket: string, tenant: string)

  /** The tenant's S3 configuration; texts are their UTF-8 bytes, one character each. */
  datatype ZkFabricSinkConfig = ZkFabricSinkConfig(endpointUrl: string, accessKey: string, secretKey: string, bucket: string)

  predicate IsBucketChar(c: char) {
    'a' <= c <= 'z' || '0' <= c <= '9' || c == '-'
  }

  /** What a configuration has to look like. */
  predicate WellFormed(config: ZkFabricSinkConfig) {
    && ("http://" <= config.endpointUrl || "https://" <= config.endpointUrl)
    && config.accessKey != "" && config.secretKey != ""
    && 3 <= |config.bucket| <= 63 && forall i | 0 <= i < |config.bucket| :: IsBucketChar(config.bucket[i])
  }

  method Validate(config: ZkFabricSinkConfig) returns (r: Result<(), RouteError>)
    ensures r.Ok? <==> WellFormed(config)
    ensures r.Err? ==> r.error.BadConfig?
  {
    if config.endpointUrl == "" { return Err(BadConfig("endpoint_url empty")); }
    if !("http://" <= config.endpointUrl) && !("https://" <= config.endpointUrl) { return Err(BadConfig("endpoint_url scheme")); }
    if config.accessKey == "" { return Err(BadConfig("access_key empty")); }
    if config.secretKey == "" { return Err(BadConfig("secret_key empty")); }
    if |config.bucket| < 3 || |config.bucket| > 63 { return Err(BadConfig("bucket length")); }
    for i := 0 to |config.bucket|
      invariant forall k | 0 <= k < i :: IsBucketChar(config.bucket[k])
    {
      if !IsBucketChar(config.bucket[i]) { return Err(BadConfig("bucket characters")); }
    }
    r := Ok(());
  }

  /** Key derivation from a content hash, and the chunk cipher. */
  datatype Sealing = Sealing(expandDek: (Hash, string) -> Option<Key>, cipher: PatternC.Cipher)

  datatype RouteError =
    | BadConfig(field: string)
    | EmptyTenant
    | DekFailed
    | SealingFailed(seal: PatternC.CryptoError)
    | NoSuchObject
    | Segment(error: SegmentError)

  function ConvergentDek(c: Sealing, hash: Hash, tenant: string): Result<Key, RouteError> {
    if tenant == "" then Err(EmptyTenant)
    else if c.expandDek(hash, tenant).None? then Err(DekFailed)
    else Ok(c.expandDek(hash, tenant).value)
  }

  function PatternCSeal(p: Primitives, c: Sealing, tenant: string, plaintext: PatternC.Slice): Result<seq<byte>, RouteError> {
    match ConvergentDek(c, p.contentHash(plaintext), tenant)
    case Err(e) => Err(e)
    case Ok(dek) =>
      match PatternC.Encrypt(c.cipher, plaintext, dek, PatternC.DEFAULT_CHUNK_SIZE)
      case Err(e) => Err(SealingFailed(e))
      case Ok(sealed) => Ok(sealed)
  }

  function PatternCOpen(c: Sealing, tenant: string, sealed: PatternC.Slice, hash: Hash): Result<seq<byte>, RouteError> {
    match ConvergentDek(c, hash, tenant)
    case Err(e) => Err(e)
    case Ok(dek) =>
      match PatternC.Decrypt(c.cipher, sealed, dek, PatternC.DEFAULT_CHUNK_SIZE)
      case Err(e) => Err(SealingFailed(e))
      case Ok(plaintext) => Ok(plaintext)
  }

  /** A range past the end is cut to the object's length, so this range is the whole object. */
  function GetObjectRange(store: Store, bucket: string, key: string, end: u64): Result<seq<byte>, RouteError> {
    if (bucket, key) !in store then Err(NoSuchObject)
    else
      var stored := store[(bucket, key)];
      Ok(if |stored| <= end then stored else stored[..end])
  }

  /** The bytes of a segment and of its sealed form fit a byte vector. */
  predicate Fits(p: Primitives, c: Sealing, a: Adapter, s: BuiltSegment) {
    && |EncodeBlob(s)| <= I64_MAX
    && var sealed := PatternCSeal(p, c, a.tenant, EncodeBlob(s));
       sealed.Ok? ==> |sealed.value| <= I64_MAX
  }

  function Uploaded(p: Primitives, c: Sealing, a: Adapter, store: Store, s: BuiltSegment): Result<Store, RouteError>
    requires Fits(p, c, a, s)
  {
    match PatternCSeal(p, c, a.tenant, EncodeBlob(s))
    case Err(e) => Err(e)
    case Ok(sealed) => Ok(store[(a.bucket, Prefetch.ObjectKey(p.idText(s.segmentId))) := sealed])
  }

  /** An adapter over a store it writes to. */
  class S3ZkofArchiveAdapter {
    const config: Adapter
    const primitives: Primitives
    const sealing: Sealing
    var store: Store

    constructor (config: Adapter, primitives: Primitives, sealing: Sealing, store: Store)
      ensures this.config == config && this.primitives == primitives && this.sealing == sealing && this.store == store
    {
      this.config, this.primitives, this.sealing, this.store := config, primitives, sealing, store;
    }

    /** An adapter for a well-formed configuration and a tenant that has a name. */
    static method Open(config: ZkFabricSinkConfig, tenant: string, primitives: Primitives, sealing: Sealing, store: Store)
      returns (r: Result<S3ZkofArchiveAdapter, RouteError>)
      ensures r.Ok? <==> WellFormed(config) && tenant != ""
      ensures r.Err? ==> if WellFormed(config) then r.error == EmptyTenant else r.error.BadConfig?
      ensures r.Ok? ==> fresh(r.value) && r.value.config == Adapter(config.bucket, tenant) && r.value.store == store
      ensures r.Ok? ==> r.value.primitives == primitives && r.value.sealing == sealing
    {
      var valid := Validate(config);
      if valid.Err? { return Err(valid.error); }
      if tenant == "" { return Err(EmptyTenant); }
      var adapter := new S3ZkofArchiveAdapter(Adapter(config.bucket, tenant), primitives, sealing, store);
      r := Ok(adapter);
    }

    method UploadSegment(s: BuiltSegment) returns (r: Result<string, RouteError>)
      requires Fits(primitives, sealing, config, s)
      modifies this
      ensures match Uploaded(primitives, sealing, config, old(store), s)
              case Ok(after) => store == after && r == Ok(Prefetch.ObjectKey(primitives.idText(s.segmentId)))
              case Err(e) => store == old(store) && r == Err(e)
    {
      var blob := EncodeBlob(s);
      var sealed := PatternCSeal(primitives, sealing, config.tenant, blob);
      if sealed.Err? { return Err(sealed.error); }
      var key := Prefetch.ObjectKey(primitives.idText(s.segmentId));
      store := store[(config.bucket, key) := sealed.value];
      r := Ok(key);
    }

    /** The adapter does not hold the hash, so the bytes come back as stored. */
    method FetchSegment(idText: string) returns (r: Result<seq<byte>, RouteError>)
      ensures r == GetObjectRange(store, config.bucket, Prefetch.ObjectKey(idText), FETCH_ALL)
      ensures var place := (config.bucket, "archive/segments/" + idText);
        && (place !in store ==> r == Err(NoSuchObject))
        && (place in store && |store[place]| < TWO_64 ==> r == Ok(store[place]))
    {
      r := GetObjectRange(store, config.bucket, Prefetch.ObjectKey(idText), FETCH_ALL);
    }
  }

  /** An upload succeeds exactly for a tenant with a name, a key that derives from the hash of the blob
      and that name, and a blob that Pattern C seals under it; it then writes that one object. */
  lemma {:induction false} UploadsExactlyWhen(p: Primitives, c: Sealing, a: Adapter, store: Store, s: BuiltSegment, after: Store)
    requires Fits(p, c, a, s)
    ensures Uploaded(p, c, a, store, s) == Ok(after)
       <==> a.tenant != "" &&
            var dek := c.expandDek(p.contentHash(EncodeBlob(s)), a.tenant);
            && dek.Some?
            && var sealed := PatternC.Encrypt(c.cipher, EncodeBlob(s), dek.value, 16_777_216);
               sealed.Ok? && after == store[(a.bucket, "archive/segments/" + p.idText(s.segmentId)) := sealed.value]
  {
  }

  /** What a reader does who kept the hash of the blob. */
  function Recover(p: Primitives, c: Sealing, a: Adapter, store: Store, idText: string, hash: Hash, key: Key): Result<Payload, RouteError> {
    match GetObjectRange(store, a.bucket, Prefetch.ObjectKey(idText), FETCH_ALL)
    case Err(e) => Err(e)
    case Ok(sealed) =>
      if |sealed| > I64_MAX then Err(NoSuchObject)
      else match PatternCOpen(c, a.tenant, sealed, hash)
        case Err(e) => Err(e)
        case Ok(blob) =>
          match Download(p, blob, key)
          case Err(e) => Err(Segment(e))
          case Ok(payload) => Ok(payload)
  }

  /** The store as the prefetch router's S3 client sees it. */
  function ClientOf(store: Store): Prefetch.S3 {
    Prefetch.S3((bucket: string, key: string) =>
      if (bucket, key) in store then Ok(store[(bucket, key)]) else Err(Prefetch.TransportFailed(key)))
  }

  /** What the backend router hands to the decrypter for a row of the S3 tier. */
  function RouterFetch(p: Primitives, a: Adapter, store: Store, serve: Prefetch.Serve, blobId: string, id: Uuid): Result<seq<byte>, Prefetch.FetchError> {
    Prefetch.Routed(serve, Some(ClientOf(store)), Some(a.bucket))(Prefetch.Row(p.idText(id), blobId, "zk_object_fabric"))
  }

  // ------------------------------------------------------------------ one segment

  lemma {:induction false} SealOpens(p: Primitives, c: Sealing, tenant: string, blob: PatternC.Slice)
    requires PatternC.Lawful(c.cipher) && PatternCSeal(p, c, tenant, blob).Ok?
    requires |PatternCSeal(p, c, tenant, blob).value| <= I64_MAX
    ensures PatternCOpen(c, tenant, PatternCSeal(p, c, tenant, blob).value, p.contentHash(blob)) == Ok(blob)
    ensures |PatternCSeal(p, c, tenant, blob).value| == |blob| + 44 * CeilDiv(|blob|, PatternC.DEFAULT_CHUNK_SIZE)
  {
    var dek := ConvergentDek(c, p.contentHash(blob), tenant).value;
    PatternC.RoundTripExactlyWhen(c.cipher, blob, dek, PatternC.DEFAULT_CHUNK_SIZE);
    PatternC.CiphertextLength(c.cipher, dek, PatternC.DEFAULT_CHUNK_SIZE, 0, blob);
  }

  /** The object under a segment's key, once it is there, opens to what the segment opens to. */
  lemma {:induction false} RecoverAgrees(p: Primitives, c: Sealing, a: Adapter, store: Store, s: BuiltSegment, key: Key)
    requires PatternC.Lawful(c.cipher) && Fits(p, c, a, s) && PatternCSeal(p, c, a.tenant, EncodeBlob(s)).Ok?
    requires (a.bucket, Prefetch.ObjectKey(p.idText(s.segmentId))) in store
    requires store[(a.bucket, Prefetch.ObjectKey(p.idText(s.segmentId)))] == PatternCSeal(p, c, a.tenant, EncodeBlob(s)).value
    ensures forall x :: Recover(p, c, a, store, p.idText(s.segmentId), p.contentHash(EncodeBlob(s)), key) == Ok(x) <==> DecryptSegment(p, s, key) == Ok(x)
  {
    SealOpens(p, c, a.tenant, EncodeBlob(s));
    DownloadAgrees(p, s, key);
  }

  /** The router never returns the blob that was uploaded, but that blob sealed with Pattern C: longer
      by 44 bytes a chunk, and the blob itself only after a Pattern C open. */
  lemma {:induction false} RouterReturnsSealed(p: Primitives, c: Sealing, a: Adapter, store: Store, s: BuiltSegment, serve: Prefetch.Serve, blobId: string)
    requires PatternC.Lawful(c.cipher) && Fits(p, c, a, s) && Uploaded(p, c, a, store, s).Ok?
    ensures var fetched := RouterFetch(p, a, Uploaded(p, c, a, store, s).value, serve, blobId, s.segmentId);
      && fetched.Ok? && |fetched.value| <= I64_MAX
      && |fetched.value| == |EncodeBlob(s)| + 44 * CeilDiv(|EncodeBlob(s)|, PatternC.DEFAULT_CHUNK_SIZE)
      && fetched.value != EncodeBlob(s)
      && PatternCOpen(c, a.tenant, fetched.value, p.contentHash(EncodeBlob(s))) == Ok(EncodeBlob(s))
  {
    SealOpens(p, c, a.tenant, EncodeBlob(s));
    assert CeilDiv(|EncodeBlob(s)|, PatternC.DEFAULT_CHUNK_SIZE) > 0 by {
      CeilDivPositive(|EncodeBlob(s)|);
    }
  }

  lemma {:induction false} CeilDivPositive(n: nat)
    requires 0 < n
    ensures CeilDiv(n, PatternC.DEFAULT_CHUNK_SIZE) > 0
  {
    assert (n + 16_777_216 - 1) / 16_777_216 > 0;
  }

  // ------------------------------------------------------------------ a journal batch, sealed and recovered

  function UploadAll(p: Primitives, c: Sealing, a: Adapter, store: Store, segments: seq<BuiltSegment>): Result<Store, RouteError>
    requires forall i | 0 <= i < |segments| :: Fits(p, c, a, segments[i])
  {
    if segments == [] then Ok(store)
    else match UploadAll(p, c, a, store, segments[..|segments| - 1])
      case Err(e) => Err(e)
      case Ok(before) => Uploaded(p, c, a, before, segments[|segments| - 1])
  }

  /** Uploads of distinct segments do not disturb each other. */
  lemma {:induction false} UploadsStay(p: Primitives, c: Sealing, a: Adapter, store: Store, segments: seq<BuiltSegment>, i: nat)
    requires Lawful(p) && i < |segments| && forall j | 0 <= j < |segments| :: Fits(p, c, a, segments[j])
    requires forall j, k | 0 <= j < k < |segments| :: segments[j].segmentId != segments[k].segmentId
    requires UploadAll(p, c, a, store, segments).Ok?
    ensures var after, place := UploadAll(p, c, a, store, segments).value, (a.bucket, Prefetch.ObjectKey(p.idText(segments[i].segmentId)));
      && PatternCSeal(p, c, a.tenant, EncodeBlob(segments[i])).Ok?
      && place in after && after[place] == PatternCSeal(p, c, a.tenant, EncodeBlob(segments[i])).value
  {
    var n := |segments| - 1;
    if i == n {
    } else {
      UploadsStay(p, c, a, store, segments[..n], i);
      KeysDiffer(p, segments[i].segmentId, segments[n].segmentId);
    }
  }

  lemma {:induction false} KeysDiffer(p: Primitives, u: Uuid, v: Uuid)
    requires Lawful(p) && u != v
    ensures Prefetch.ObjectKey(p.idText(u)) != Prefetch.ObjectKey(p.idText(v))
  {
    var a, b := Prefetch.ObjectKey(p.idText(u)), Prefetch.ObjectKey(p.idText(v));
    assert a[|Prefetch.ObjectKey("")|..] == p.idText(u) && b[|Prefetch.ObjectKey("")|..] == p.idText(v);
  }

  /** `segments` are one sealed segment for each of the listed keys of a batch. */
  ghost predicate Sealed(p: Primitives, events: seq<ArchiveEvent>, bucketFor: ArchiveEvent -> string,
                         keys: seq<BucketKey>, secrets: seq<Key>, segments: seq<BuiltSegment>)
  {
    && |keys| == |secrets| == |segments|
    && forall i | 0 <= i < |keys| ::
         BuildSegment(p, BuildRequest(keys[i].0, keys[i].1, Matching(events, bucketFor, keys[i]), MessageDelta),
                      secrets[i], segments[i].segmentId, segments[i].nonce) == Ok(segments[i])
  }

  /** The listed keys are the keys of the batch, each once. */
  ghost predicate ListsKeys(events: seq<ArchiveEvent>, bucketFor: ArchiveEvent -> string, keys: seq<BucketKey>) {
    && (forall i, j | 0 <= i < j < |keys| :: keys[i] != keys[j])
    && (forall e | e in events :: KeyOf(bucketFor, e) in keys)
  }

  function AllMatching(events: seq<ArchiveEvent>, bucketFor: ArchiveEvent -> string, keys: seq<BucketKey>): seq<ArchiveEvent> {
    if keys == [] then [] else AllMatching(events, bucketFor, keys[..|keys| - 1]) + Matching(events, bucketFor, keys[|keys| - 1])
  }

  lemma {:induction false} AllMatchingCounts(events: seq<ArchiveEvent>, bucketFor: ArchiveEvent -> string, keys: seq<BucketKey>, e: ArchiveEvent)
    requires forall i, j | 0 <= i < j < |keys| :: keys[i] != keys[j]
    ensures multiset(AllMatching(events, bucketFor, keys))[e] == if KeyOf(bucketFor, e) in keys then multiset(events)[e] else 0
  {
    if keys == [] {
    } else {
      var front, last := keys[..|keys| - 1], keys[|keys| - 1];
      AllMatchingCounts(events, bucketFor, front, e);
      MatchingCounts(events, bucketFor, last, e);
      assert keys == front + [last];
    }
  }

  /** Grouping loses and repeats nothing. */
  lemma {:induction false} GroupsPartition(events: seq<ArchiveEvent>, bucketFor: ArchiveEvent -> string, keys: seq<BucketKey>)
    requires ListsKeys(events, bucketFor, keys)
    ensures multiset(AllMatching(events, bucketFor, keys)) == multiset(events)
  {
    forall e ensures multiset(AllMatching(events, bucketFor, keys))[e] == multiset(events)[e] {
      AllMatchingCounts(events, bucketFor, keys, e);
      assert e in events <==> e in multiset(events);
    }
  }

  function RecoveredEvents(p: Primitives, c: Sealing, a: Adapter, store: Store, segments: seq<BuiltSegment>, secrets: seq<Key>): seq<ArchiveEvent>
    requires |segments| == |secrets|
  {
    if segments == [] then []
    else
      var n := |segments| - 1;
      var r := Recover(p, c, a, store, p.idText(segments[n].segmentId), p.contentHash(EncodeBlob(segments[n])), secrets[n]);
      RecoveredEvents(p, c, a, store, segments[..n], secrets[..n]) + if r.Ok? then r.value.events else []
  }

  lemma {:induction false} OneSegmentRecovers(p: Primitives, c: Sealing, a: Adapter, store: Store, events: seq<ArchiveEvent>,
      bucketFor: ArchiveEvent -> string, keys: seq<BucketKey>, secrets: seq<Key>, segments: seq<BuiltSegment>, i: nat)
    requires Lawful(p) && PatternC.Lawful(c.cipher) && Sealed(p, events, bucketFor, keys, secrets, segments) && i < |keys|
    requires forall j | 0 <= j < |segments| :: Fits(p, c, a, segments[j])
    requires forall j, k | 0 <= j < k < |segments| :: segments[j].segmentId != segments[k].segmentId
    requires UploadAll(p, c, a, store, segments).Ok?
    ensures var after := UploadAll(p, c, a, store, segments).value;
      Recover(p, c, a, after, p.idText(segments[i].segmentId), p.contentHash(EncodeBlob(segments[i])), secrets[i])
        == Ok(Payload(Ascii(ARCHIVE_SEGMENT_PAYLOAD_MAGIC), p.idText(keys[i].0), keys[i].1, Matching(events, bucketFor, keys[i])))
  {
    var r := BuildRequest(keys[i].0, keys[i].1, Matching(events, bucketFor, keys[i]), MessageDelta);
    BuildDecrypts(p, r, secrets[i], segments[i].segmentId, segments[i].nonce);
    UploadsStay(p, c, a, store, segments, i);
    RecoverAgrees(p, c, a, UploadAll(p, c, a, store, segments).value, segments[i], secrets[i]);
    assert DecryptSegment(p, segments[i], secrets[i]) == Ok(PayloadOf(p, r));
  }

  lemma {:induction false} RecoveredIsMatching(p: Primitives, c: Sealing, a: Adapter, after: Store, events: seq<ArchiveEvent>,
      bucketFor: ArchiveEvent -> string, keys: seq<BucketKey>, secrets: seq<Key>, segments: seq<BuiltSegment>)
    requires |keys| == |secrets| == |segments|
    requires forall i | 0 <= i < |keys| ::
      var r := Recover(p, c, a, after, p.idText(segments[i].segmentId), p.contentHash(EncodeBlob(segments[i])), secrets[i]);
      r.Ok? && r.value.events == Matching(events, bucketFor, keys[i])
    ensures RecoveredEvents(p, c, a, after, segments, secrets) == AllMatching(events, bucketFor, keys)
  {
    if keys == [] {
    } else {
      var n := |keys| - 1;
      RecoveredIsMatching(p, c, a, after, events, bucketFor, keys[..n], secrets[..n], segments[..n]);
    }
  }

  /** Grouped, sealed, uploaded, fetched, opened and decrypted: every segment gives back the events of
      its key in journal order, and together they are the batch, no event lost or repeated. */
  lemma {:induction false} EveryEventOnce(p: Primitives, c: Sealing, a: Adapter, store: Store, events: seq<ArchiveEvent>,
      bucketFor: ArchiveEvent -> string, keys: seq<BucketKey>, secrets: seq<Key>, segments: seq<BuiltSegment>)
    requires Lawful(p) && PatternC.Lawful(c.cipher)
    requires ListsKeys(events, bucketFor, keys) && Sealed(p, events, bucketFor, keys, secrets, segments)
    requires forall i | 0 <= i < |segments| :: Fits(p, c, a, segments[i])
    requires forall i, j | 0 <= i < j < |segments| :: segments[i].segmentId != segments[j].segmentId
    requires UploadAll(p, c, a, store, segments).Ok?
    ensures forall i | 0 <= i < |keys| ::
      var r := Recover(p, c, a, UploadAll(p, c, a, store, segments).value, p.idText(segments[i].segmentId), p.contentHash(EncodeBlob(segments[i])), secrets[i]);
      r.Ok? && InBatchOrder(events, bucketFor, keys[i], r.value.events)
    ensures var after := UploadAll(p, c, a, store, segments).value;
      && RecoveredEvents(p, c, a, after, segments, secrets) == AllMatching(events, bucketFor, keys)
      && multiset(RecoveredEvents(p, c, a, after, segments, secrets)) == multiset(events)
  {
    forall i | 0 <= i < |keys| ensures
      var r := Recover(p, c, a, UploadAll(p, c, a, store, segments).value, p.idText(segments[i].segmentId), p.contentHash(EncodeBlob(segments[i])), secrets[i]);
      r.Ok? && r.value.events == Matching(events, bucketFor, keys[i]) && InBatchOrder(events, bucketFor, keys[i], r.value.events)
    {
      OneSegmentRecovers(p, c, a, store, events, bucketFor, keys, secrets, segments, i);
      MatchingInOrder(events, bucketFor, keys[i]);
    }
    RecoveredIsMatching(p, c, a, UploadAll(p, c, a, store, segments).value, events, bucketFor, keys, secrets, segments);
    GroupsPartition(events, bucketFor, keys);
  }
}
