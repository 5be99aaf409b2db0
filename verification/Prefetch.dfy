/** Fetching every archive segment of one bucket: plainly, through a backend router, and padded with
    dummy requests in a shuffled order. */
module Prefetch {
  import opened Foundations

  const MAX_PADDING_PER_BUCKET := 32

  datatype StorageBackend = KChatBackend | ZkObjectFabric

  datatype Row = Row(segmentId: string, blobId: string, storageBackend: string)

  datatype Prefetched = Prefetched(segmentId: string, blobId: string, storageBackend: string, ciphertext: seq<byte>)

  datatype FetchError =
    | TransportFailed(detail: string)
    | NotRoutable(segmentId: string)
    | NoS3Client
    | NoZkofConfig

  type Serve = string -> Result<seq<byte>, FetchError>

  /** A backend that answers each id the same way for the length of one batch, and its access log. */
  class Transport {
    const serve: Serve
    var log: seq<string>

    constructor (serve: Serve)
      ensures this.serve == serve && log == []
    {
      this.serve := serve;
      log := [];
    }

    method Fetch(id: string) returns (r: Result<seq<byte>, FetchError>)
      modifies this
      ensures r == serve(id) && log == old(log) + [id]
    {
      log := log + [id];
      r := serve(id);
    }
  }

  // ------------------------------------------------------------------ backends

  function ParseBackend(s: string): Option<StorageBackend> {
    if s == "kchat_backend" then Some(KChatBackend)
    else if s == "zk_object_fabric" then Some(ZkObjectFabric)
    else None
  }

  /** An unknown backend name is taken for the default one. */
  function BackendOf(row: Row): StorageBackend {
    var b := ParseBackend(row.storageBackend);
    if b.Some? then b.value else KChatBackend
  }

  predicate AllKChat(rows: seq<Row>) {
    forall i | 0 <= i < |rows| :: BackendOf(rows[i]).KChatBackend?
  }

  /** Only rows that name the S3 tier literally are refused; an unknown name passes for KChat. */
  lemma {:induction false} AllKChatExactlyWhen(rows: seq<Row>)
    ensures AllKChat(rows) <==> forall i | 0 <= i < |rows| :: rows[i].storageBackend != "zk_object_fabric"
  {
    assert "zk_object_fabric"[0] != "kchat_backend"[0];
    forall i | 0 <= i < |rows| ensures BackendOf(rows[i]).KChatBackend? <==> rows[i].storageBackend != "zk_object_fabric" {
    }
  }

  method EnsureAllKChatBackend(rows: seq<Row>) returns (r: Result<(), FetchError>)
    ensures r.Ok? <==> AllKChat(rows)
    ensures r.Err? ==> exists i | 0 <= i < |rows| :: AllKChat(rows[..i]) && !AllKChat(rows[..i + 1]) && r.error == NotRoutable(rows[i].segmentId)
  {
    for i := 0 to |rows|
      invariant forall j | 0 <= j < i :: BackendOf(rows[j]).KChatBackend?
    {
      if BackendOf(rows[i]) != KChatBackend {
        assert AllKChat(rows[..i]) && rows[..i + 1][i] == rows[i];
        return Err(NotRoutable(rows[i].segmentId));
      }
    }
    r := Ok(());
  }

  // ------------------------------------------------------------------ what a batch returns and requests

  function Ids(rows: seq<Row>): (r: seq<string>)
    ensures |r| == |rows| && forall i | 0 <= i < |rows| :: r[i] == rows[i].segmentId
  {
    if rows == [] then [] else Ids(rows[..|rows| - 1]) + [rows[|rows| - 1].segmentId]
  }

  type Answers = Row -> Result<seq<byte>, FetchError>

  /** The rows in order with the answer to each; the first failure fails the batch. */
  function FetchAll(answers: Answers, rows: seq<Row>): Result<seq<Prefetched>, FetchError> {
    if rows == [] then Ok([])
    else
      var front, row := FetchAll(answers, rows[..|rows| - 1]), rows[|rows| - 1];
      if front.Err? then front
      else match answers(row)
        case Err(e) => Err(e)
        case Ok(bytes) => Ok(front.value + [Prefetched(row.segmentId, row.blobId, row.storageBackend, bytes)])
  }

  /** The ids such a batch asks the KChat transport for: those of its KChat rows, up to and including
      the first row that fails. */
  function Requested(answers: Answers, rows: seq<Row>): seq<string> {
    if rows == [] then []
    else
      var front, row := rows[..|rows| - 1], rows[|rows| - 1];
      Requested(answers, front)
        + if FetchAll(answers, front).Ok? && BackendOf(row).KChatBackend? then [row.segmentId] else []
  }

  lemma {:induction false} FailureIsFinal(answers: Answers, rows: seq<Row>, n: nat)
    requires n <= |rows| && FetchAll(answers, rows[..n]).Err?
    ensures FetchAll(answers, rows) == FetchAll(answers, rows[..n]) && Requested(answers, rows) == Requested(answers, rows[..n])
  {
    if n < |rows| {
      var front := rows[..|rows| - 1];
      assert front[..n] == rows[..n];
      FailureIsFinal(answers, front, n);
    } else {
      assert rows[..n] == rows;
    }
  }

  /** A batch succeeds exactly when every row is answered, and then holds one entry per row, in
      order; a batch of KChat rows has requested every id once. */
  lemma {:induction false} FetchesExactlyWhen(answers: Answers, rows: seq<Row>)
    ensures FetchAll(answers, rows).Ok? <==> forall i | 0 <= i < |rows| :: answers(rows[i]).Ok?
    ensures FetchAll(answers, rows).Ok? ==> |FetchAll(answers, rows).value| == |rows|
    ensures FetchAll(answers, rows).Ok? && AllKChat(rows) ==> Requested(answers, rows) == Ids(rows)
    ensures FetchAll(answers, rows).Ok? ==> forall i | 0 <= i < |rows| ::
      FetchAll(answers, rows).value[i] == Prefetched(rows[i].segmentId, rows[i].blobId, rows[i].storageBackend, answers(rows[i]).value)
  {
    if rows == [] {
    } else {
      var front := rows[..|rows| - 1];
      FetchesExactlyWhen(answers, front);
      assert forall i | 0 <= i < |front| :: front[i] == rows[i];
    }
  }

  function Plain(serve: Serve): Answers {
    (row: Row) => serve(row.segmentId)
  }

  method BatchPrefetchBucket(transport: Transport, rows: seq<Row>) returns (r: Result<seq<Prefetched>, FetchError>)
    modifies transport
    ensures AllKChat(rows) ==> r == FetchAll(Plain(transport.serve), rows)
    ensures AllKChat(rows) ==> transport.log == old(transport.log) + Requested(Plain(transport.serve), rows)
    ensures !AllKChat(rows) ==> r.Err? && r.error.NotRoutable? && transport.log == old(transport.log)
  {
    var check := EnsureAllKChatBackend(rows);
    if check.Err? { return Err(check.error); }
    ghost var answers := Plain(transport.serve);
    var out: seq<Prefetched> := [];
    for i := 0 to |rows|
      invariant FetchAll(answers, rows[..i]) == Ok(out)
      invariant transport.log == old(transport.log) + Requested(answers, rows[..i])
    {
      assert rows[..i + 1][..i] == rows[..i];
      var answer := transport.Fetch(rows[i].segmentId);
      if answer.Err? {
        FailureIsFinal(answers, rows, i + 1);
        return Err(answer.error);
      }
      out := out + [Prefetched(rows[i].segmentId, rows[i].blobId, rows[i].storageBackend, answer.value)];
    }
    assert rows[..|rows|] == rows;
    r := Ok(out);
  }

  // ------------------------------------------------------------------ the router

  datatype S3 = S3(get: (string, string) -> Result<seq<byte>, FetchError>)

  function ObjectKey(segmentId: string): string {
    "archive/segments/" + segmentId
  }

  function Routed(serve: Serve, s3: Option<S3>, bucket: Option<string>): Answers {
    (row: Row) =>
      if BackendOf(row).KChatBackend? then serve(row.segmentId)
      else if s3.None? then Err(NoS3Client)
      else if bucket.None? then Err(NoZkofConfig)
      else s3.value.get(bucket.value, ObjectKey(row.segmentId))
  }

  method RouterFetch(transport: Transport, s3: Option<S3>, bucket: Option<string>, row: Row)
    returns (r: Result<seq<byte>, FetchError>)
    modifies transport
    ensures r == Routed(transport.serve, s3, bucket)(row)
    ensures row.storageBackend != "zk_object_fabric" ==> r == transport.serve(row.segmentId)
    ensures row.storageBackend == "zk_object_fabric" ==>
      r == if s3.None? then Err(NoS3Client) else if bucket.None? then Err(NoZkofConfig)
           else s3.value.get(bucket.value, "archive/segments/" + row.segmentId)
    ensures transport.log == old(transport.log) + if BackendOf(row).KChatBackend? then [row.segmentId] else []
  {
    assert AllKChat([row]) <==> BackendOf([row][0]).KChatBackend?;
    AllKChatExactlyWhen([row]);
    match BackendOf(row)
    case KChatBackend => r := transport.Fetch(row.segmentId);
    case ZkObjectFabric =>
      if s3.None? { return Err(NoS3Client); }
      if bucket.None? { return Err(NoZkofConfig); }
      r := s3.value.get(bucket.value, ObjectKey(row.segmentId));
  }

  method BatchPrefetchBucketWithRouter(transport: Transport, s3: Option<S3>, bucket: Option<string>, rows: seq<Row>)
    returns (r: Result<seq<Prefetched>, FetchError>)
    modifies transport
    ensures r == FetchAll(Routed(transport.serve, s3, bucket), rows)
    ensures transport.log == old(transport.log) + Requested(Routed(transport.serve, s3, bucket), rows)
  {
    ghost var answers := Routed(transport.serve, s3, bucket);
    var out: seq<Prefetched> := [];
    for i := 0 to |rows|
      invariant FetchAll(answers, rows[..i]) == Ok(out)
      invariant transport.log == old(transport.log) + Requested(answers, rows[..i])
    {
      assert rows[..i + 1][..i] == rows[..i];
      var answer := RouterFetch(transport, s3, bucket, rows[i]);
      if answer.Err? {
        FailureIsFinal(answers, rows, i + 1);
        return Err(answer.error);
      }
      out := out + [Prefetched(rows[i].segmentId, rows[i].blobId, rows[i].storageBackend, answer.value)];
    }
    assert rows[..|rows|] == rows;
    r := Ok(out);
  }

  /** On a table of KChat rows the router changes nothing, whatever it was built with. */
  lemma {:induction false} RouterAgreesOnKChat(serve: Serve, s3: Option<S3>, bucket: Option<string>, rows: seq<Row>)
    requires AllKChat(rows)
    ensures FetchAll(Routed(serve, s3, bucket), rows) == FetchAll(Plain(serve), rows)
    ensures Requested(Routed(serve, s3, bucket), rows) == Requested(Plain(serve), rows)
  {
    if rows == [] {
    } else {
      RouterAgreesOnKChat(serve, s3, bucket, rows[..|rows| - 1]);
    }
  }

  /** A router without an S3 client serves a table exactly when the KChat-only entry point does. */
  lemma {:induction false} KChatOnlyExactlyWhen(serve: Serve, rows: seq<Row>)
    ensures FetchAll(Routed(serve, None, None), rows).Ok? <==> AllKChat(rows) && FetchAll(Plain(serve), rows).Ok?
  {
    FetchesExactlyWhen(Routed(serve, None, None), rows);
    FetchesExactlyWhen(Plain(serve), rows);
  }

  // ------------------------------------------------------------------ padding

  function Got(serve: Serve, row: Row): Prefetched {
    var answer := serve(row.segmentId);
    Prefetched(row.segmentId, row.blobId, row.storageBackend, if answer.Ok? then answer.value else [])
  }

  /** Twice the real requests, at most 32; `saturating_mul` never matters below the cap. */
  function ComputePaddingCount(realCount: u64): (n: nat)
    ensures n == 0 <==> realCount == 0
    ensures n <= MAX_PADDING_PER_BUCKET && n <= 2 * realCount && (n == 2 * realCount || n == MAX_PADDING_PER_BUCKET)
  {
    if realCount == 0 then 0
    else
      var doubled := if 2 * realCount < TWO_64 then 2 * realCount else TWO_64 - 1;
      if doubled < MAX_PADDING_PER_BUCKET then doubled else MAX_PADDING_PER_BUCKET
  }

  /** The real rows keyed by segment id. */
  function TableOf(rows: seq<Row>): map<string, Row> {
    if rows == [] then map[] else TableOf(rows[..|rows| - 1])[rows[|rows| - 1].segmentId := rows[|rows| - 1]]
  }

  predicate UniqueIds(rows: seq<Row>) {
    forall i, j | 0 <= i < j < |rows| :: rows[i].segmentId != rows[j].segmentId
  }

  /** A padded batch: ids without a row are requested and their answers dropped. */
  function FetchPadded(serve: Serve, table: map<string, Row>, order: seq<string>): Result<seq<Prefetched>, FetchError> {
    if order == [] then Ok([])
    else
      var front, id := FetchPadded(serve, table, order[..|order| - 1]), order[|order| - 1];
      if front.Err? then front
      else if id !in table then front
      else match serve(id)
        case Err(e) => Err(e)
        case Ok(bytes) => Ok(front.value + [Prefetched(id, table[id].blobId, table[id].storageBackend, bytes)])
  }

  function RequestedPadded(serve: Serve, table: map<string, Row>, order: seq<string>): seq<string> {
    if order == [] then []
    else
      var front := order[..|order| - 1];
      RequestedPadded(serve, table, front) + if FetchPadded(serve, table, front).Ok? then [order[|order| - 1]] else []
  }

  lemma {:induction false} PaddedFailureIsFinal(serve: Serve, table: map<string, Row>, order: seq<string>, n: nat)
    requires n <= |order| && FetchPadded(serve, table, order[..n]).Err?
    ensures FetchPadded(serve, table, order) == FetchPadded(serve, table, order[..n])
    ensures RequestedPadded(serve, table, order) == RequestedPadded(serve, table, order[..n])
  {
    if n < |order| {
      var front := order[..|order| - 1];
      assert front[..n] == order[..n];
      PaddedFailureIsFinal(serve, table, front, n);
    } else {
      assert order[..n] == order;
    }
  }

  /** `order` is a shuffle of the real ids and as many fresh ids as the policy asks for. */
  ghost predicate Shuffled(rows: seq<Row>, dummies: seq<string>, order: seq<string>) {
    && |rows| < TWO_64
    && |dummies| == ComputePaddingCount(|rows|)
    && multiset(order) == multiset(Ids(rows)) + multiset(dummies)
  }

  method FetchInOrder(transport: Transport, realRows: map<string, Row>, order: seq<string>)
    returns (r: Result<seq<Prefetched>, FetchError>)
    modifies transport
    ensures r == FetchPadded(transport.serve, realRows, order)
    ensures transport.log == old(transport.log) + RequestedPadded(transport.serve, realRows, order)
  {
    var serve := transport.serve;
    var out: seq<Prefetched> := [];
    for i := 0 to |order|
      invariant FetchPadded(serve, realRows, order[..i]) == Ok(out)
      invariant transport.log == old(transport.log) + RequestedPadded(serve, realRows, order[..i])
    {
      assert order[..i + 1][..i] == order[..i];
      var id := order[i];
      var answer := transport.Fetch(id);
      if id in realRows {
        if answer.Err? {
          PaddedFailureIsFinal(serve, realRows, order, i + 1);
          return Err(answer.error);
        }
        out := out + [Prefetched(id, realRows[id].blobId, realRows[id].storageBackend, answer.value)];
      }
    }
    assert order[..|order|] == order;
    r := Ok(out);
  }

  method BatchPrefetchBucketWithPadding(pad: bool, transport: Transport, rows: seq<Row>, dummies: seq<string>, order: seq<string>)
    returns (r: Result<seq<Prefetched>, FetchError>)
    requires UniqueIds(rows) && Shuffled(rows, dummies, order)
    modifies transport
    ensures !AllKChat(rows) ==> r.Err? && r.error.NotRoutable? && transport.log == old(transport.log)
    ensures AllKChat(rows) && !pad ==> r == FetchAll(Plain(transport.serve), rows)
    ensures AllKChat(rows) && !pad ==> transport.log == old(transport.log) + Requested(Plain(transport.serve), rows)
    ensures AllKChat(rows) && pad ==> r == FetchPadded(transport.serve, TableOf(rows), order)
    ensures AllKChat(rows) && pad ==> transport.log == old(transport.log) + RequestedPadded(transport.serve, TableOf(rows), order)
  {
    if !pad {
      r := BatchPrefetchBucket(transport, rows);
      return;
    }
    var realRows: map<string, Row> := map[];
    for i := 0 to |rows|
      invariant realRows == TableOf(rows[..i])
    {
      assert rows[..i + 1][..i] == rows[..i];
      realRows := realRows[rows[i].segmentId := rows[i]];
    }
    assert rows[..|rows|] == rows;
    var check := EnsureAllKChatBackend(rows);
    if check.Err? { return Err(check.error); }
    r := FetchInOrder(transport, realRows, order);
  }

  lemma {:induction false} TableHolds(rows: seq<Row>)
    ensures forall id :: id in TableOf(rows) <==> id in Ids(rows)
    ensures forall id | id in TableOf(rows) :: TableOf(rows)[id].segmentId == id
    ensures UniqueIds(rows) ==> forall i | 0 <= i < |rows| :: rows[i].segmentId in TableOf(rows) && TableOf(rows)[rows[i].segmentId] == rows[i]
  {
    if rows == [] {
    } else {
      TableHolds(rows[..|rows| - 1]);
    }
  }

  /** Success and the number of requests, whatever the order. */
  lemma {:induction false} PaddedExactlyWhen(serve: Serve, table: map<string, Row>, order: seq<string>)
    ensures FetchPadded(serve, table, order).Ok? <==> forall i | 0 <= i < |order| && order[i] in table :: serve(order[i]).Ok?
    ensures FetchPadded(serve, table, order).Ok? ==> RequestedPadded(serve, table, order) == order
  {
    if order == [] {
    } else {
      var front := order[..|order| - 1];
      PaddedExactlyWhen(serve, table, front);
      assert forall i | 0 <= i < |front| :: front[i] == order[i];
    }
  }

  /** How often a result occurs is how often its id was requested. */
  lemma {:induction false} PaddedCounts(serve: Serve, table: map<string, Row>, order: seq<string>, x: Prefetched)
    requires FetchPadded(serve, table, order).Ok?
    requires forall id | id in table :: table[id].segmentId == id
    ensures multiset(FetchPadded(serve, table, order).value)[x]
         == if x.segmentId in table && x == Got(serve, table[x.segmentId]) then multiset(order)[x.segmentId] else 0
  {
    if order == [] {
    } else {
      var front, id := order[..|order| - 1], order[|order| - 1];
      PaddedCounts(serve, table, front, x);
      assert order == front + [id];
      if id in table {
        var y := Got(serve, table[id]);
        assert FetchPadded(serve, table, order).value == FetchPadded(serve, table, front).value + [y];
      }
    }
  }

  lemma {:induction false} PlainIsPaddedInOrder(serve: Serve, rows: seq<Row>, table: map<string, Row>)
    requires forall i | 0 <= i < |rows| :: rows[i].segmentId in table && table[rows[i].segmentId] == rows[i]
    ensures FetchAll(Plain(serve), rows) == FetchPadded(serve, table, Ids(rows))
  {
    if rows == [] {
    } else {
      PlainIsPaddedInOrder(serve, rows[..|rows| - 1], table);
      assert Ids(rows)[..|rows| - 1] == Ids(rows[..|rows| - 1]);
    }
  }

  /** Padding and shuffling change neither whether a batch succeeds nor, as long as no dummy hits a
      real id, what it returns; a success always costs the real requests and min(2n, 32) more. */
  lemma {:induction false} PaddingRefinesPlain(serve: Serve, rows: seq<Row>, dummies: seq<string>, order: seq<string>)
    requires UniqueIds(rows) && Shuffled(rows, dummies, order)
    ensures var plain, padded := FetchAll(Plain(serve), rows), FetchPadded(serve, TableOf(rows), order);
      && (padded.Ok? <==> plain.Ok?)
      && (padded.Ok? ==>
            && (multiset(padded.value) == multiset(plain.value) <==> forall d | d in dummies :: d !in Ids(rows))
            && |RequestedPadded(serve, TableOf(rows), order)| == |rows| + if 2 * |rows| < 32 then 2 * |rows| else 32)
  {
    var table := TableOf(rows);
    var plain, padded := FetchAll(Plain(serve), rows), FetchPadded(serve, table, order);
    TableHolds(rows);
    PlainIsPaddedInOrder(serve, rows, table);
    PaddedExactlyWhen(serve, table, order);
    FetchesExactlyWhen(Plain(serve), rows);
    SameSuccess(serve, rows, dummies, order);
    if padded.Ok? {
      assert |order| == |multiset(order)| == |rows| + |dummies|;
      SameResults(serve, rows, dummies, order);
    }
  }

  lemma {:induction false} SameSuccess(serve: Serve, rows: seq<Row>, dummies: seq<string>, order: seq<string>)
    requires UniqueIds(rows) && Shuffled(rows, dummies, order)
    ensures FetchPadded(serve, TableOf(rows), order).Ok? <==> FetchAll(Plain(serve), rows).Ok?
  {
    TableHolds(rows);
    PaddedExactlyWhen(serve, TableOf(rows), order);
    FetchesExactlyWhen(Plain(serve), rows);
    forall i | 0 <= i < |rows| ensures rows[i].segmentId in order {
      assert Ids(rows)[i] in multiset(Ids(rows));
      assert rows[i].segmentId in multiset(order);
    }
    if FetchPadded(serve, TableOf(rows), order).Ok? {
      forall i | 0 <= i < |rows| ensures serve(rows[i].segmentId).Ok? {
        var k :| 0 <= k < |order| && order[k] == rows[i].segmentId;
      }
    }
  }

  lemma {:induction false} SameResults(serve: Serve, rows: seq<Row>, dummies: seq<string>, order: seq<string>)
    requires UniqueIds(rows) && Shuffled(rows, dummies, order)
    requires FetchPadded(serve, TableOf(rows), order).Ok? && FetchAll(Plain(serve), rows).Ok?
    ensures multiset(FetchPadded(serve, TableOf(rows), order).value) == multiset(FetchAll(Plain(serve), rows).value)
       <==> forall d | d in dummies :: d !in Ids(rows)
  {
    var table := TableOf(rows);
    var plain, padded := FetchAll(Plain(serve), rows).value, FetchPadded(serve, table, order).value;
    TableHolds(rows);
    PlainIsPaddedInOrder(serve, rows, table);
    if forall d | d in dummies :: d !in Ids(rows) {
      forall x ensures multiset(padded)[x] == multiset(plain)[x] {
        PaddedCounts(serve, table, order, x);
        PaddedCounts(serve, table, Ids(rows), x);
        assert x.segmentId in dummies <==> multiset(dummies)[x.segmentId] > 0;
      }
      assert multiset(padded) == multiset(plain);
    } else {
      var d :| d in dummies && d in Ids(rows);
      var x := Got(serve, table[d]);
      PaddedCounts(serve, table, order, x);
      PaddedCounts(serve, table, Ids(rows), x);
      assert multiset(dummies)[d] > 0;
    }
  }
}
