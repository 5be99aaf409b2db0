/** An append-only event table with a single cursor row, drained in batches by one reader while
    writers keep appending. Shared by the backup and the archive journal, which differ only in how
    a stored row is read back: see BackupJournal and ArchiveJournal. */
module Journals {
  import opened Arithmetic
  import opened Foundations
  import opened Sequences

  datatype Row = Row(
    tag: string,
    conversationId: Option<string>,
    messageId: Option<string>,
    payload: seq<byte>,
    createdAtMs: i64)

  datatype StoredRow = StoredRow(eventSeq: int, row: Row)

  datatype JournalError =
    | UnknownEventType(tag: string)
    | MissingColumn
    | InvalidId(kind: string)
    | CursorBackwards(current: int, requested: int)
    | JournalFull

  datatype Reading<E> = Readable(event: E) | Legacy | Corrupt(error: JournalError)

  datatype Codec<!E> = Codec(store: E -> Row, read: Row -> Reading<E>)

  datatype Tables = Tables(rows: seq<StoredRow>, lastSeq: nat, cursor: Option<int>)

  type Batch<E> = seq<(int, E)>

  // ------------------------------------------------------------------ queries

  /** The rows past `lo` and not past `hi`, in table order. */
  function Between(rows: seq<StoredRow>, lo: int, hi: int): seq<StoredRow> {
    if rows == [] then []
    else
      var front, last := rows[..|rows| - 1], rows[|rows| - 1];
      Between(front, lo, hi) + if lo < last.eventSeq <= hi then [last] else []
  }

  /** Row ids are assigned in increasing order, starting from 1. */
  predicate Ascending(t: Tables) {
    && t.lastSeq <= I64_MAX
    && (forall i, j | 0 <= i < j < |t.rows| :: t.rows[i].eventSeq < t.rows[j].eventSeq)
    && (forall i | 0 <= i < |t.rows| :: 1 <= t.rows[i].eventSeq <= t.lastSeq)
  }

  function CursorOf(t: Tables): int {
    if t.cursor.Some? then t.cursor.value else 0
  }

  function Past(t: Tables, after: int): seq<StoredRow> {
    Between(t.rows, after, t.lastSeq)
  }

  /** `LIMIT` of a `usize` cast to a signed 64-bit value: a negative limit is no limit. */
  function Limited(rows: seq<StoredRow>, limit: u64): seq<StoredRow> {
    if limit >= 0x8000_0000_0000_0000 || |rows| <= limit then rows else rows[..limit]
  }

  function Window(t: Tables, after: int, limit: u64): seq<StoredRow> {
    Limited(Past(t, after), limit)
  }

  /** The readable rows of `w`, with their ids, in order. */
  function Typed<E>(c: Codec<E>, w: seq<StoredRow>): Batch<E> {
    if w == [] then []
    else
      var front, last := w[..|w| - 1], w[|w| - 1];
      Typed(c, front) + if c.read(last.row).Readable? then [(last.eventSeq, c.read(last.row).event)] else []
  }

  predicate HasCorrupt<E>(c: Codec<E>, w: seq<StoredRow>) {
    exists i | 0 <= i < |w| :: c.read(w[i].row).Corrupt?
  }

  /** `error` is what reading the first corrupt row of `w` reports. */
  predicate FirstError<E>(c: Codec<E>, w: seq<StoredRow>, error: JournalError) {
    exists i | 0 <= i < |w| :: c.read(w[i].row) == Corrupt(error) && !HasCorrupt(c, w[..i])
  }

  // ------------------------------------------------------------------ the journal

  function Written(t: Tables, row: Row): Result<Tables, JournalError> {
    if t.lastSeq >= I64_MAX then Err(JournalFull)
    else Ok(t.(rows := t.rows + [StoredRow(t.lastSeq + 1, row)], lastSeq := t.lastSeq + 1))
  }

  function Advanced(t: Tables, newCursor: int): Result<Tables, JournalError> {
    if newCursor < CursorOf(t) then Err(CursorBackwards(CursorOf(t), newCursor))
    else Ok(t.(cursor := Some(newCursor)))
  }

  class EventJournal<!E> {
    const codec: Codec<E>
    var rows: seq<StoredRow>
    var lastSeq: nat
    var cursor: Option<int>

    constructor (codec: Codec<E>)
      ensures this.codec == codec && View() == Tables([], 0, None)
    {
      this.codec := codec;
      rows, lastSeq, cursor := [], 0, None;
    }

    function View(): Tables
      reads this
    {
      Tables(rows, lastSeq, cursor)
    }

    method WriteEvent(event: E) returns (r: Result<int, JournalError>)
      modifies this
      ensures match Written(old(View()), codec.store(event))
              case Ok(t) => View() == t && r == Ok(t.lastSeq)
              case Err(e) => View() == old(View()) && r == Err(e)
      ensures old(lastSeq) < I64_MAX ==>
        r == Ok(old(lastSeq) + 1) && rows == old(rows) + [StoredRow(old(lastSeq) + 1, codec.store(event))] && cursor == old(cursor)
      ensures old(lastSeq) >= I64_MAX ==> r == Err(JournalFull)
    {
      if lastSeq >= I64_MAX { return Err(JournalFull); }
      lastSeq := lastSeq + 1;
      rows := rows + [StoredRow(lastSeq, codec.store(event))];
      r := Ok(lastSeq);
    }

    method ReadEventsSince(after: int, limit: u64) returns (r: Result<Batch<E>, JournalError>)
      ensures r.Ok? <==> !HasCorrupt(codec, Window(View(), after, limit))
      ensures r.Ok? ==> r.value == Typed(codec, Window(View(), after, limit))
      ensures r.Err? ==> FirstError(codec, Window(View(), after, limit), r.error)
    {
      var window := Window(View(), after, limit);
      var out: Batch<E> := [];
      for i := 0 to |window|
        invariant !HasCorrupt(codec, window[..i])
        invariant out == Typed(codec, window[..i])
      {
        assert window[..i + 1][..i] == window[..i];
        match codec.read(window[i].row)
        case Corrupt(e) => return Err(e);
        case Legacy => continue;
        case Readable(event) => out := out + [(window[i].eventSeq, event)];
      }
      assert window[..|window|] == window;
      r := Ok(out);
    }

    method ReadCursor() returns (r: int)
      ensures r == CursorOf(View())
    {
      r := if cursor.Some? then cursor.value else 0;
    }

    method AdvanceCursor(newCursor: int) returns (r: Result<(), JournalError>)
      modifies this
      ensures match Advanced(old(View()), newCursor)
              case Ok(t) => View() == t && r == Ok(())
              case Err(e) => View() == old(View()) && r == Err(e)
      ensures r.Ok? <==> old(CursorOf(View())) <= newCursor
      ensures View() == old(View()).(cursor := if r.Ok? then Some(newCursor) else old(cursor))
      ensures r.Err? ==> r.error == CursorBackwards(old(CursorOf(View())), newCursor)
    {
      var current := ReadCursor();
      if newCursor < current { return Err(CursorBackwards(current, newCursor)); }
      cursor := Some(newCursor);
      r := Ok(());
    }

    method ReadUnsegmented(limit: u64) returns (r: Result<Batch<E>, JournalError>)
      ensures var w := Window(View(), CursorOf(View()), limit);
        if HasCorrupt(codec, w) then r.Err? && FirstError(codec, w, r.error) else r == Ok(Typed(codec, w))
    {
      var current := ReadCursor();
      r := ReadEventsSince(current, limit);
    }
  }

  // ------------------------------------------------------------------ runs of one drain and many writers

  /** `pending` is a batch read but not yet sealed and stored; `delivered` is everything stored. */
  datatype State<E> = State(tables: Tables, pending: Option<Batch<E>>, delivered: Batch<E>)

  datatype Step =
    | Write(row: Row)
    | Read(limit: u64)
    | Commit
    | Abandon

  function Next<E>(c: Codec<E>, s: State<E>, step: Step): State<E> {
    match step
    case Write(row) =>
      (match Written(s.tables, row)
       case Ok(t) => s.(tables := t)
       case Err(_) => s)
    case Read(limit) =>
      var w := Window(s.tables, CursorOf(s.tables), limit);
      s.(pending := if HasCorrupt(c, w) || Typed(c, w) == [] then None else Some(Typed(c, w)))
    case Commit =>
      if s.pending.None? || s.pending.value == [] then s
      else
        var batch := s.pending.value;
        (match Advanced(s.tables, batch[|batch| - 1].0)
         case Ok(t) => State(t, None, s.delivered + batch)
         case Err(_) => s.(pending := None))
    case Abandon => s.(pending := None)
  }

  function Run<E>(c: Codec<E>, s: State<E>, steps: seq<Step>): State<E>
    decreases |steps|
  {
    if steps == [] then s else Run(c, Next(c, s, steps[0]), steps[1..])
  }

  function Fresh<E>(): State<E> {
    State(Tables([], 0, None), None, [])
  }

  /** The batch waiting to be stored is exactly the readable rows from the cursor to its last one. */
  ghost predicate PendingIsNext<E>(c: Codec<E>, t: Tables, batch: Batch<E>) {
    && batch != []
    && CursorOf(t) < batch[|batch| - 1].0 <= t.lastSeq
    && batch == Typed(c, Between(t.rows, CursorOf(t), batch[|batch| - 1].0))
  }

  ghost predicate Inv<E>(c: Codec<E>, s: State<E>) {
    && Ascending(s.tables)
    && 0 <= CursorOf(s.tables) <= s.tables.lastSeq
    && s.delivered == Typed(c, Between(s.tables.rows, 0, CursorOf(s.tables)))
    && (s.pending.Some? ==> PendingIsNext(c, s.tables, s.pending.value))
  }

  // ------------------------------------------------------------------ queries over ascending rows

  lemma {:induction false} TypedConcat<E>(c: Codec<E>, a: seq<StoredRow>, b: seq<StoredRow>)
    ensures Typed(c, a + b) == Typed(c, a) + Typed(c, b)
    decreases |b|
  {
    if b == [] {
      assert a + b == a;
    } else {
      var front, last := b[..|b| - 1], b[|b| - 1];
      assert (a + b)[..|a + b| - 1] == a + front && (a + b)[|a + b| - 1] == last;
      TypedConcat(c, a, front);
    }
  }

  lemma {:induction false} BetweenMembers(rows: seq<StoredRow>, lo: int, hi: int)
    ensures forall i | 0 <= i < |Between(rows, lo, hi)| :: Between(rows, lo, hi)[i] in rows && lo < Between(rows, lo, hi)[i].eventSeq <= hi
  {
    if rows == [] {
    } else {
      BetweenMembers(rows[..|rows| - 1], lo, hi);
    }
  }

  ghost predicate Sorted(rows: seq<StoredRow>) {
    forall i, j | 0 <= i < j < |rows| :: rows[i].eventSeq < rows[j].eventSeq
  }

  lemma {:induction false} BetweenSorted(rows: seq<StoredRow>, lo: int, hi: int)
    requires Sorted(rows)
    ensures Sorted(Between(rows, lo, hi))
  {
    if rows == [] {
    } else {
      var front := rows[..|rows| - 1];
      BetweenSorted(front, lo, hi);
      BetweenMembers(front, lo, hi);
      var b := Between(front, lo, hi);
      forall i | 0 <= i < |b| ensures b[i].eventSeq < rows[|rows| - 1].eventSeq {
        assert b[i] in front;
      }
    }
  }

  lemma {:induction false} BetweenNone(rows: seq<StoredRow>, lo: int, hi: int)
    requires forall i | 0 <= i < |rows| :: rows[i].eventSeq <= lo
    ensures Between(rows, lo, hi) == []
  {
    if rows == [] {
    } else {
      BetweenNone(rows[..|rows| - 1], lo, hi);
    }
  }

  /** Adjacent ranges are adjacent in the table. */
  lemma {:induction false} BetweenSplits(rows: seq<StoredRow>, lo: int, mid: int, hi: int)
    requires Sorted(rows) && lo <= mid <= hi
    ensures Between(rows, lo, hi) == Between(rows, lo, mid) + Between(rows, mid, hi)
  {
    if rows == [] {
    } else {
      var front, last := rows[..|rows| - 1], rows[|rows| - 1];
      BetweenSplits(front, lo, mid, hi);
      if last.eventSeq <= mid {
        BetweenNone(front, mid, hi);
      }
    }
  }

  /** A prefix of a range ends where its last row says. */
  lemma {:induction false} PrefixIsRange(rows: seq<StoredRow>, lo: int, hi: int, n: nat)
    requires Sorted(rows) && 0 < n <= |Between(rows, lo, hi)|
    ensures var p := Between(rows, lo, hi);
      lo < p[n - 1].eventSeq <= hi && Between(rows, lo, p[n - 1].eventSeq) == p[..n]
  {
    var p := Between(rows, lo, hi);
    BetweenMembers(rows, lo, hi);
    var mid := p[n - 1].eventSeq;
    BetweenSplits(rows, lo, mid, hi);
    var a, b := Between(rows, lo, mid), Between(rows, mid, hi);
    BetweenMembers(rows, lo, mid);
    BetweenMembers(rows, mid, hi);
    BetweenSorted(rows, lo, hi);
    assert p == a + b;
    assert forall i | 0 <= i < |a| :: p[i] == a[i];
    assert forall i | |a| <= i < |p| :: p[i] == b[i - |a|];
    assert n < |p| ==> p[n].eventSeq > mid;
    assert p[n - 1].eventSeq == mid;
    assert |a| == n;
    assert p[..n] == a;
  }

  lemma {:induction false} BetweenAll(rows: seq<StoredRow>, lo: int, hi: int)
    requires forall i | 0 <= i < |rows| :: lo < rows[i].eventSeq <= hi
    ensures Between(rows, lo, hi) == rows
  {
    if rows == [] {
    } else {
      BetweenAll(rows[..|rows| - 1], lo, hi);
    }
  }

  lemma {:induction false} IdsCount(t: Tables, i: nat)
    requires Ascending(t) && i < |t.rows|
    ensures i < t.rows[i].eventSeq
  {
    if i == 0 {
    } else {
      IdsCount(t, i - 1);
    }
  }

  lemma {:induction false} BetweenShrinks(rows: seq<StoredRow>, lo: int, hi: int)
    ensures |Between(rows, lo, hi)| <= |rows|
  {
    if rows == [] {
    } else {
      BetweenShrinks(rows[..|rows| - 1], lo, hi);
    }
  }

  /** Ids run out before rows outnumber any limit that the cast turns negative. */
  lemma {:induction false} WindowFits(t: Tables, after: int, limit: u64)
    requires Ascending(t)
    ensures |Past(t, after)| <= I64_MAX && |Window(t, after, limit)| <= limit
  {
    BetweenShrinks(t.rows, after, t.lastSeq);
    if t.rows != [] {
      IdsCount(t, |t.rows| - 1);
    }
  }

  /** The batch a window yields is the readable rows up to its last readable row. */
  lemma {:induction false} BatchEndsAtLast<E>(c: Codec<E>, rows: seq<StoredRow>, lo: int, hi: int, n: nat)
    requires Sorted(rows) && n <= |Between(rows, lo, hi)|
    requires Typed(c, Between(rows, lo, hi)[..n]) != []
    ensures var b := Typed(c, Between(rows, lo, hi)[..n]);
      lo < b[|b| - 1].0 <= hi && b == Typed(c, Between(rows, lo, b[|b| - 1].0))
    decreases n
  {
    var p := Between(rows, lo, hi);
    assert p[..n][..n - 1] == p[..n - 1];
    if c.read(p[n - 1].row).Readable? {
      PrefixIsRange(rows, lo, hi, n);
    } else {
      BatchEndsAtLast(c, rows, lo, hi, n - 1);
    }
  }

  lemma {:induction false} WindowIsPrefix(t: Tables, after: int, limit: u64)
    ensures exists n: nat | n <= |Past(t, after)| :: Window(t, after, limit) == Past(t, after)[..n]
  {
    var p := Past(t, after);
    assert p[..|p|] == p;
    if limit < 0x8000_0000_0000_0000 && |p| > limit {
      assert Window(t, after, limit) == p[..limit];
    } else {
      assert Window(t, after, limit) == p[..|p|];
    }
  }

  // ------------------------------------------------------------------ exactly once

  /** Writing changes no range that ended before the write. */
  lemma {:induction false} WriteIsOutside(t: Tables, row: Row, lo: int, hi: int)
    requires Written(t, row).Ok? && hi <= t.lastSeq
    ensures Between(Written(t, row).value.rows, lo, hi) == Between(t.rows, lo, hi)
  {
    var rows := Written(t, row).value.rows;
    assert rows[..|rows| - 1] == t.rows;
  }

  lemma {:induction false} WriteKeepsOrder(t: Tables, row: Row)
    requires Ascending(t) && Written(t, row).Ok?
    ensures Ascending(Written(t, row).value)
  {
    var t' := Written(t, row).value;
    forall i | 0 <= i < |t.rows| ensures t'.rows[i] == t.rows[i] && t'.rows[i].eventSeq <= t.lastSeq {
    }
  }

  lemma {:induction false} WriteKeepsPending<E>(c: Codec<E>, t: Tables, row: Row, batch: Batch<E>)
    requires PendingIsNext(c, t, batch) && Written(t, row).Ok?
    ensures PendingIsNext(c, Written(t, row).value, batch)
  {
    WriteIsOutside(t, row, CursorOf(t), batch[|batch| - 1].0);
  }

  lemma {:induction false} WriteKeeps<E>(c: Codec<E>, s: State<E>, row: Row)
    requires Inv(c, s)
    ensures Inv(c, Next(c, s, Write(row)))
  {
    if Written(s.tables, row).Ok? {
      WriteKeepsOrder(s.tables, row);
      WriteIsOutside(s.tables, row, 0, CursorOf(s.tables));
      if s.pending.Some? {
        WriteKeepsPending(c, s.tables, row, s.pending.value);
      }
    }
  }

  lemma {:induction false} ReadKeeps<E>(c: Codec<E>, s: State<E>, limit: u64)
    requires Inv(c, s)
    ensures Inv(c, Next(c, s, Read(limit)))
  {
    var t := s.tables;
    var w := Window(t, CursorOf(t), limit);
    WindowIsPrefix(t, CursorOf(t), limit);
    var n: nat :| n <= |Past(t, CursorOf(t))| && w == Past(t, CursorOf(t))[..n];
    if Typed(c, w) != [] {
      BatchEndsAtLast(c, t.rows, CursorOf(t), t.lastSeq, n);
    }
  }

  /** The range up to a pending batch's last row is the range up to the cursor and the batch. */
  lemma {:induction false} PendingExtends<E>(c: Codec<E>, t: Tables, batch: Batch<E>)
    requires Ascending(t) && 0 <= CursorOf(t) && PendingIsNext(c, t, batch)
    ensures Typed(c, Between(t.rows, 0, batch[|batch| - 1].0)) == Typed(c, Between(t.rows, 0, CursorOf(t))) + batch
  {
    var last := batch[|batch| - 1].0;
    BetweenSplits(t.rows, 0, CursorOf(t), last);
    TypedConcat(c, Between(t.rows, 0, CursorOf(t)), Between(t.rows, CursorOf(t), last));
  }

  lemma {:induction false} CommitKeeps<E>(c: Codec<E>, s: State<E>)
    requires Inv(c, s)
    ensures Inv(c, Next(c, s, Commit))
    ensures s.pending.Some? ==> Next(c, s, Commit).delivered == s.delivered + s.pending.value
  {
    if s.pending.Some? {
      PendingExtends(c, s.tables, s.pending.value);
    }
  }

  lemma {:induction false} StepKeeps<E>(c: Codec<E>, s: State<E>, step: Step)
    requires Inv(c, s)
    ensures Inv(c, Next(c, s, step)) && CursorOf(s.tables) <= CursorOf(Next(c, s, step).tables)
  {
    match step
    case Write(row) => WriteKeeps(c, s, row);
    case Read(limit) => ReadKeeps(c, s, limit);
    case Commit => CommitKeeps(c, s);
    case Abandon =>
  }

  lemma {:induction false} RunKeeps<E>(c: Codec<E>, s: State<E>, steps: seq<Step>)
    requires Inv(c, s)
    ensures Inv(c, Run(c, s, steps)) && CursorOf(s.tables) <= CursorOf(Run(c, s, steps).tables)
    decreases |steps|
  {
    if steps == [] {
    } else {
      StepKeeps(c, s, steps[0]);
      RunKeeps(c, Next(c, s, steps[0]), steps[1..]);
    }
  }

  lemma {:induction false} TypedBelow<E>(c: Codec<E>, w: seq<StoredRow>, bound: int)
    requires forall i | 0 <= i < |w| :: w[i].eventSeq < bound
    ensures forall i | 0 <= i < |Typed(c, w)| :: Typed(c, w)[i].0 < bound
  {
    if w == [] {
    } else {
      TypedBelow(c, w[..|w| - 1], bound);
    }
  }

  lemma {:induction false} TypedSorted<E>(c: Codec<E>, w: seq<StoredRow>)
    requires Sorted(w)
    ensures forall i, j | 0 <= i < j < |Typed(c, w)| :: Typed(c, w)[i].0 < Typed(c, w)[j].0
  {
    if w == [] {
    } else {
      TypedSorted(c, w[..|w| - 1]);
      TypedBelow(c, w[..|w| - 1], w[|w| - 1].eventSeq);
    }
  }

  /** However writes, reads, commits and abandoned batches interleave: what has been stored is every
      readable event up to the cursor, once, in order; the cursor never falls, between any two
      points of the run. */
  lemma {:induction false} ExactlyOnce<E>(c: Codec<E>, before: seq<Step>, after: seq<Step>)
    ensures var m, s := Run(c, Fresh(), before), Run(c, Run(c, Fresh(), before), after);
      && s.delivered == Typed(c, Between(s.tables.rows, 0, CursorOf(s.tables)))
      && (forall i, j | 0 <= i < j < |s.delivered| :: s.delivered[i].0 < s.delivered[j].0)
      && CursorOf(m.tables) <= CursorOf(s.tables) && m.delivered <= s.delivered
  {
    RunKeeps(c, Fresh(), before);
    var m := Run(c, Fresh(), before);
    RunKeeps(c, m, after);
    var s := Run(c, m, after);
    BetweenSorted(s.tables.rows, 0, CursorOf(s.tables));
    TypedSorted(c, Between(s.tables.rows, 0, CursorOf(s.tables)));
    DeliveredGrows(c, m, after);
  }

  /** A row with the id reads as the event. */
  ghost predicate HoldsEvent<E(!new)>(c: Codec<E>, rows: seq<StoredRow>, n: int, event: E) {
    exists i | 0 <= i < |rows| :: rows[i].eventSeq == n && c.read(rows[i].row) == Readable(event)
  }

  lemma {:induction false} HoldsEventGrows<E(!new)>(c: Codec<E>, front: seq<StoredRow>, last: StoredRow, n: int, event: E)
    ensures HoldsEvent(c, front + [last], n, event)
       <==> HoldsEvent(c, front, n, event) || (last.eventSeq == n && c.read(last.row) == Readable(event))
  {
    var rows := front + [last];
    assert rows[|front|] == last;
    if HoldsEvent(c, front, n, event) {
      var i :| 0 <= i < |front| && front[i].eventSeq == n && c.read(front[i].row) == Readable(event);
      assert rows[i] == front[i];
    }
  }

  lemma {:induction false} TypedOneMore<E(!new)>(c: Codec<E>, w: seq<StoredRow>, last: StoredRow, n: int, event: E)
    ensures (n, event) in Typed(c, w + [last])
       <==> (n, event) in Typed(c, w) || (last.eventSeq == n && c.read(last.row) == Readable(event))
  {
    assert (w + [last])[..|w|] == w;
    var reading := c.read(last.row);
    assert Typed(c, w + [last]) == Typed(c, w) + if reading.Readable? then [(last.eventSeq, reading.event)] else [];
  }

  lemma {:induction false} TypedBetweenMembers<E(!new)>(c: Codec<E>, rows: seq<StoredRow>, lo: int, hi: int, n: int, event: E)
    ensures (n, event) in Typed(c, Between(rows, lo, hi)) <==> lo < n <= hi && HoldsEvent(c, rows, n, event)
  {
    if rows == [] {
    } else {
      var front, last := rows[..|rows| - 1], rows[|rows| - 1];
      TypedBetweenMembers(c, front, lo, hi, n, event);
      var before := Between(front, lo, hi);
      assert rows == front + [last];
      HoldsEventGrows(c, front, last, n, event);
      if lo < last.eventSeq <= hi {
        TypedOneMore(c, before, last, n, event);
      } else {
        assert Between(rows, lo, hi) == before;
      }
    }
  }

  /** At every point of every run: an event is stored under a row id exactly when a row up to the cursor
      has that id and reads as that event. */
  lemma {:induction false} DeliveredExactlyWhen<E(!new)>(c: Codec<E>, steps: seq<Step>, n: int, event: E)
    ensures var s := Run(c, Fresh(), steps);
      (n, event) in s.delivered
      <==> n <= CursorOf(s.tables) && HoldsEvent(c, s.tables.rows, n, event)
  {
    var s := Run(c, Fresh(), steps);
    RunKeeps(c, Fresh(), steps);
    TypedBetweenMembers(c, s.tables.rows, 0, CursorOf(s.tables), n, event);
    assert HoldsEvent(c, s.tables.rows, n, event) ==> 0 < n;
  }

  lemma {:induction false} DeliveredGrows<E>(c: Codec<E>, s: State<E>, steps: seq<Step>)
    ensures s.delivered <= Run(c, s, steps).delivered
    decreases |steps|
  {
    if steps == [] {
    } else {
      DeliveredGrows(c, Next(c, s, steps[0]), steps[1..]);
    }
  }

  // ------------------------------------------------------------------ progress

  predicate IsEvent<E>(c: Codec<E>, r: StoredRow) {
    c.read(r.row).Readable?
  }

  /** No readable row at the positions from `i` to `j`. */
  predicate Quiet<E>(c: Codec<E>, w: seq<StoredRow>, i: int, j: int)
    requires 0 <= i <= j <= |w|
  {
    forall k | i <= k < j :: !IsEvent(c, w[k])
  }

  lemma {:induction false} TypedEmptyExactlyWhen<E>(c: Codec<E>, w: seq<StoredRow>)
    ensures Typed(c, w) == [] <==> Quiet(c, w, 0, |w|)
  {
    if w == [] {
    } else {
      var front := w[..|w| - 1];
      TypedEmptyExactlyWhen(c, front);
      assert forall k | 0 <= k < |front| :: front[k] == w[k];
      if Quiet(c, w, 0, |w|) {
        assert !IsEvent(c, w[|w| - 1]);
      }
    }
  }

  /** One round: read a batch, store it, advance the cursor to its last row. */
  function Round<E>(c: Codec<E>, s: State<E>, limit: u64): State<E> {
    Next(c, Next(c, s, Read(limit)), Commit)
  }

  lemma {:induction false} RoundKeeps<E>(c: Codec<E>, s: State<E>, limit: u64)
    requires Inv(c, s)
    ensures Inv(c, Round(c, s, limit)) && Round(c, s, limit).pending == None
    ensures Round(c, s, limit).tables.rows == s.tables.rows && Round(c, s, limit).tables.lastSeq == s.tables.lastSeq
  {
    ReadKeeps(c, s, limit);
    CommitKeeps(c, Next(c, s, Read(limit)));
  }

  /** A round moves the cursor exactly when the `limit` rows past it hold no corrupt row and at
      least one readable one; the limit is applied before the legacy rows are skipped. */
  lemma {:induction false} RoundProgressesExactlyWhen<E>(c: Codec<E>, s: State<E>, limit: u64)
    requires Inv(c, s)
    ensures var w := Window(s.tables, CursorOf(s.tables), limit);
      CursorOf(Round(c, s, limit).tables) > CursorOf(s.tables) <==> !HasCorrupt(c, w) && !Quiet(c, w, 0, |w|)
  {
    var w := Window(s.tables, CursorOf(s.tables), limit);
    TypedEmptyExactlyWhen(c, w);
    ReadKeeps(c, s, limit);
    CommitKeeps(c, Next(c, s, Read(limit)));
  }

  /** The reader finds nothing it can store. */
  predicate Stalled<E>(c: Codec<E>, t: Tables, limit: u64) {
    var w := Window(t, CursorOf(t), limit);
    limit < 0x8000_0000_0000_0000 && |w| == limit && Quiet(c, w, 0, |w|)
  }

  lemma {:induction false} SameRange(rows: seq<StoredRow>, lo: int, hi: int, hi': int)
    requires hi <= hi' && forall i | 0 <= i < |rows| :: rows[i].eventSeq <= hi
    ensures Between(rows, lo, hi') == Between(rows, lo, hi)
  {
    if rows == [] {
    } else {
      SameRange(rows[..|rows| - 1], lo, hi, hi');
    }
  }

  /** Writing only appends to what lies ahead of the cursor. */
  lemma {:induction false} WriteAppends(t: Tables, row: Row, after: int)
    requires Ascending(t) && Written(t, row).Ok?
    ensures Past(t, after) <= Past(Written(t, row).value, after)
  {
    var t' := Written(t, row).value;
    assert t'.rows[..|t'.rows| - 1] == t.rows;
    SameRange(t.rows, after, t.lastSeq, t'.lastSeq);
  }

  lemma {:induction false} StallOutlastsStep<E>(c: Codec<E>, s: State<E>, limit: u64, step: Step)
    requires Inv(c, s) && s.pending.None? && Stalled(c, s.tables, limit)
    requires step.Read? ==> step.limit <= limit
    ensures var s' := Next(c, s, step);
      s'.pending.None? && Stalled(c, s'.tables, limit) && s'.tables.cursor == s.tables.cursor && s'.delivered == s.delivered
  {
    var t := s.tables;
    if step.Write? {
      if Written(t, step.row).Ok? {
        WriteAppends(t, step.row, CursorOf(t));
      }
    } else if step.Read? {
      var w, v := Window(t, CursorOf(t), limit), Window(t, CursorOf(t), step.limit);
      assert v == w[..step.limit];
      assert forall k | 0 <= k < |v| :: v[k] == w[k] && !IsEvent(c, w[k]);
      TypedEmptyExactlyWhen(c, v);
    }
  }

  /** A full window without a readable row stalls the drain for good: whatever is written later and
      however often batches of that size or less are read, nothing more is ever stored. */
  lemma {:induction false} StallIsForever<E>(c: Codec<E>, s: State<E>, limit: u64, steps: seq<Step>)
    requires Inv(c, s) && s.pending.None? && Stalled(c, s.tables, limit)
    requires forall i | 0 <= i < |steps| :: steps[i].Read? ==> steps[i].limit <= limit
    ensures Run(c, s, steps).delivered == s.delivered && Run(c, s, steps).tables.cursor == s.tables.cursor
    decreases |steps|
  {
    if steps == [] {
    } else {
      StallOutlastsStep(c, s, limit, steps[0]);
      StepKeeps(c, s, steps[0]);
      StallIsForever(c, Next(c, s, steps[0]), limit, steps[1..]);
    }
  }

  // ------------------------------------------------------------------ draining to the end

  /** Rounds until one leaves the cursor where it was. */
  function Drain<E>(c: Codec<E>, s: State<E>, limit: u64): State<E>
    decreases s.tables.lastSeq - CursorOf(s.tables)
  {
    var s' := Round(c, s, limit);
    if CursorOf(s.tables) < CursorOf(s'.tables) <= s'.tables.lastSeq == s.tables.lastSeq then Drain(c, s', limit) else s
  }

  /** `limit` rows in a row without an event, and an event after them. */
  predicate BlockedAt<E>(c: Codec<E>, p: seq<StoredRow>, limit: nat, k: nat) {
    k + limit <= |p| && Quiet(c, p, k, k + limit) && !Quiet(c, p, k + limit, |p|)
  }

  predicate Blocked<E>(c: Codec<E>, p: seq<StoredRow>, limit: nat) {
    exists k: nat | k <= |p| :: BlockedAt(c, p, limit, k)
  }

  /** Cutting off a prefix that ends in an event, no longer than a window, loses no blocking run. */
  lemma {:induction false} BlockedPastEvent<E>(c: Codec<E>, p: seq<StoredRow>, limit: nat, e: nat)
    requires e < |p| && e < limit && IsEvent(c, p[e])
    ensures Blocked(c, p, limit) <==> Blocked(c, p[e + 1..], limit)
  {
    var q := p[e + 1..];
    assert forall k | 0 <= k < |q| :: q[k] == p[e + 1 + k];
    forall k: nat | k <= |q| ensures BlockedAt(c, q, limit, k) <==> BlockedAt(c, p, limit, k + e + 1) {
      ShiftQuiet(c, p, e + 1, k, limit);
    }
    forall k: nat | k <= |p| && BlockedAt(c, p, limit, k) ensures k >= e + 1 && BlockedAt(c, q, limit, k - e - 1) {
      assert forall i | k <= i < k + limit :: !IsEvent(c, p[i]);
      ShiftQuiet(c, p, e + 1, k - e - 1, limit);
    }
    if Blocked(c, q, limit) {
      var k: nat :| k <= |q| && BlockedAt(c, q, limit, k);
      assert BlockedAt(c, p, limit, k + e + 1);
    }
  }

  lemma {:induction false} ShiftQuiet<E>(c: Codec<E>, p: seq<StoredRow>, d: nat, k: nat, limit: nat)
    requires d <= |p|
    ensures BlockedAt(c, p[d..], limit, k) <==> BlockedAt(c, p, limit, k + d)
  {
    var q := p[d..];
    if k + limit <= |q| {
      assert forall i | 0 <= i < |q| :: q[i] == p[i + d];
      assert Quiet(c, q, k, k + limit) <==> Quiet(c, p, k + d, k + d + limit) by {
        if Quiet(c, q, k, k + limit) {
          forall i | k + d <= i < k + d + limit ensures !IsEvent(c, p[i]) { assert q[i - d] == p[i]; }
        }
      }
      assert Quiet(c, q, k + limit, |q|) <==> Quiet(c, p, k + d + limit, |p|) by {
        if Quiet(c, q, k + limit, |q|) {
          forall i | k + d + limit <= i < |p| ensures !IsEvent(c, p[i]) { assert q[i - d] == p[i]; }
        }
      }
    }
  }

  /** Nothing left to read: every readable row of the table has been stored. */
  ghost predicate Drained<E>(c: Codec<E>, s: State<E>) {
    s.delivered == Typed(c, s.tables.rows)
  }

  lemma {:induction false} RowsArePast(t: Tables)
    requires Ascending(t) && 0 <= CursorOf(t) <= t.lastSeq
    ensures t.rows == Between(t.rows, 0, CursorOf(t)) + Past(t, CursorOf(t))
  {
    BetweenAll(t.rows, 0, t.lastSeq);
    BetweenSplits(t.rows, 0, CursorOf(t), t.lastSeq);
  }

  lemma {:induction false} DrainedExactlyWhen<E>(c: Codec<E>, s: State<E>)
    requires Inv(c, s)
    ensures Drained(c, s) <==> Quiet(c, Past(s.tables, CursorOf(s.tables)), 0, |Past(s.tables, CursorOf(s.tables))|)
  {
    var p := Past(s.tables, CursorOf(s.tables));
    RowsArePast(s.tables);
    TypedConcat(c, Between(s.tables.rows, 0, CursorOf(s.tables)), p);
    TypedEmptyExactlyWhen(c, p);
  }

  lemma {:induction false} SuffixIsPast(t: Tables, lo: int, e: nat)
    requires Ascending(t) && e < |Past(t, lo)|
    ensures Past(t, Past(t, lo)[e].eventSeq) == Past(t, lo)[e + 1..]
  {
    PrefixIsRange(t.rows, lo, t.lastSeq, e + 1);
    BetweenSplits(t.rows, lo, Past(t, lo)[e].eventSeq, t.lastSeq);
  }

  /** How many rows of `w` lead up to its last event, that event included. */
  function EventEnd<E>(c: Codec<E>, w: seq<StoredRow>): (n: nat)
    ensures n <= |w|
  {
    if w == [] then 0 else if IsEvent(c, w[|w| - 1]) then |w| else EventEnd(c, w[..|w| - 1])
  }

  lemma {:induction false} EventEndIs<E>(c: Codec<E>, w: seq<StoredRow>)
    ensures var n := EventEnd(c, w);
      && Typed(c, w) == Typed(c, w[..n]) && Quiet(c, w, n, |w|)
      && (n > 0 ==> IsEvent(c, w[n - 1]) && Typed(c, w) != [] && Typed(c, w)[|Typed(c, w)| - 1].0 == w[n - 1].eventSeq)
  {
    if w == [] {
    } else if IsEvent(c, w[|w| - 1]) {
      assert w[..|w|] == w;
    } else {
      var front := w[..|w| - 1];
      EventEndIs(c, front);
      var n := EventEnd(c, front);
      assert front[..n] == w[..n];
      assert forall k | 0 <= k < |front| :: front[k] == w[k];
    }
  }

  function Head(p: seq<StoredRow>, limit: nat): seq<StoredRow> {
    if |p| <= limit then p else p[..limit]
  }

  /** How many of the rows `p` repeated rounds get past: windows of `limit` rows, each from just after
      the last event of the one before, until one holds a corrupt row or no event. */
  function Reach<E>(c: Codec<E>, p: seq<StoredRow>, limit: nat): (n: nat)
    ensures n <= |p|
    decreases |p|
  {
    var w := Head(p, limit);
    var n := EventEnd(c, w);
    if HasCorrupt(c, w) || n == 0 then 0 else n + Reach(c, p[n..], limit)
  }

  lemma {:induction false} WindowIsHead(t: Tables, limit: u64)
    requires Ascending(t)
    ensures Window(t, CursorOf(t), limit) == Head(Past(t, CursorOf(t)), limit)
  {
    WindowFits(t, CursorOf(t), limit);
  }

  /** What the round after a window with events does to the cursor and the stored events. */
  lemma {:induction false} RoundStores<E>(c: Codec<E>, s: State<E>, limit: u64)
    requires Inv(c, s)
    ensures var w, s' := Window(s.tables, CursorOf(s.tables), limit), Round(c, s, limit);
      if HasCorrupt(c, w) || Typed(c, w) == [] then s'.tables.cursor == s.tables.cursor && s'.delivered == s.delivered
      else s'.tables.cursor == Some(Typed(c, w)[|Typed(c, w)| - 1].0) && s'.delivered == s.delivered + Typed(c, w)
  {
    ReadKeeps(c, s, limit);
    CommitKeeps(c, Next(c, s, Read(limit)));
  }

  /** One round, in terms of the rows past the cursor. */
  lemma {:induction false} RoundMoves<E>(c: Codec<E>, s: State<E>, limit: u64)
    requires Inv(c, s)
    ensures var p, s' := Past(s.tables, CursorOf(s.tables)), Round(c, s, limit);
      var n := EventEnd(c, Head(p, limit));
      if HasCorrupt(c, Head(p, limit)) || n == 0 then s'.tables.cursor == s.tables.cursor && s'.delivered == s.delivered
      else CursorOf(s'.tables) > CursorOf(s.tables) && s'.delivered == s.delivered + Typed(c, p[..n]) && Past(s'.tables, CursorOf(s'.tables)) == p[n..]
  {
    var t, p := s.tables, Past(s.tables, CursorOf(s.tables));
    var w := Head(p, limit);
    var n := EventEnd(c, w);
    WindowIsHead(t, limit);
    RoundStores(c, s, limit);
    EventEndIs(c, w);
    TypedEmptyExactlyWhen(c, w);
    if !HasCorrupt(c, w) && n > 0 {
      HeadCut(t, limit, n);
      RoundKeeps(c, s, limit);
    }
  }

  /** Where the rows past the cursor are cut after the first `n`. */
  lemma {:induction false} HeadCut(t: Tables, limit: u64, n: nat)
    requires Ascending(t) && 0 < n <= |Head(Past(t, CursorOf(t)), limit)|
    ensures var p := Past(t, CursorOf(t));
      var w := Head(p, limit);
      w[..n] == p[..n] && w[n - 1] == p[n - 1] && p[n - 1].eventSeq > CursorOf(t) && Past(t, p[n - 1].eventSeq) == p[n..]
  {
    SuffixIsPast(t, CursorOf(t), n - 1);
    PrefixIsRange(t.rows, CursorOf(t), t.lastSeq, n);
  }

  lemma {:induction false} TypedSplits<E>(c: Codec<E>, p: seq<StoredRow>, n: nat, more: nat)
    requires n + more <= |p|
    ensures Typed(c, p[..n + more]) == Typed(c, p[..n]) + Typed(c, p[n..][..more])
  {
    assert p[..n + more] == p[..n] + p[n..][..more];
    TypedConcat(c, p[..n], p[n..][..more]);
  }

  /** For any table, corrupt rows included: repeated rounds store exactly the events among the first
      `Reach` rows past the cursor. */
  lemma {:induction false} DrainReaches<E>(c: Codec<E>, s: State<E>, limit: u64)
    requires Inv(c, s)
    ensures var p := Past(s.tables, CursorOf(s.tables));
      Drain(c, s, limit).delivered == s.delivered + Typed(c, p[..Reach(c, p, limit)])
    ensures Drain(c, s, limit).tables.rows == s.tables.rows
    decreases s.tables.lastSeq - CursorOf(s.tables)
  {
    var s', p := Round(c, s, limit), Past(s.tables, CursorOf(s.tables));
    var n := EventEnd(c, Head(p, limit));
    DrainStep(c, s, limit);
    RoundMoves(c, s, limit);
    if HasCorrupt(c, Head(p, limit)) || n == 0 {
      assert Typed(c, p[..0]) == [];
    } else {
      RoundKeeps(c, s, limit);
      DrainReaches(c, s', limit);
      ReachStep(c, p, limit);
      Regroup(s.delivered, Typed(c, p[..n]), Typed(c, p[n..][..Reach(c, p[n..], limit)]));
    }
  }

  lemma {:induction false} DrainStep<E>(c: Codec<E>, s: State<E>, limit: u64)
    requires Inv(c, s)
    ensures var s' := Round(c, s, limit);
      Drain(c, s, limit) == if CursorOf(s.tables) < CursorOf(s'.tables) then Drain(c, s', limit) else s
  {
    RoundKeeps(c, s, limit);
  }

  lemma {:induction false} ReachUnfolds<E>(c: Codec<E>, p: seq<StoredRow>, limit: nat)
    requires !HasCorrupt(c, Head(p, limit)) && EventEnd(c, Head(p, limit)) > 0
    ensures var n := EventEnd(c, Head(p, limit)); Reach(c, p, limit) == n + Reach(c, p[n..], limit)
  {
  }

  lemma {:induction false} ReachStep<E>(c: Codec<E>, p: seq<StoredRow>, limit: nat)
    requires !HasCorrupt(c, Head(p, limit)) && EventEnd(c, Head(p, limit)) > 0
    ensures var n := EventEnd(c, Head(p, limit));
      Typed(c, p[..Reach(c, p, limit)]) == Typed(c, p[..n]) + Typed(c, p[n..][..Reach(c, p[n..], limit)])
  {
    var n := EventEnd(c, Head(p, limit));
    ReachUnfolds(c, p, limit);
    TypedSplitsAt(c, p, n, Reach(c, p[n..], limit), Reach(c, p, limit));
  }

  lemma {:induction false} TypedSplitsAt<E>(c: Codec<E>, p: seq<StoredRow>, n: nat, more: nat, total: nat)
    requires n + more == total <= |p|
    ensures Typed(c, p[..total]) == Typed(c, p[..n]) + Typed(c, p[n..][..more])
  {
    TypedSplits(c, p, n, more);
  }

  lemma {:induction false} CleanSuffix<E>(c: Codec<E>, p: seq<StoredRow>, n: nat)
    requires n <= |p| && !HasCorrupt(c, p)
    ensures !HasCorrupt(c, p[n..])
  {
    assert forall k | 0 <= k < |p| - n :: p[n..][k] == p[n + k];
  }

  lemma {:induction false} CleanHead<E>(c: Codec<E>, p: seq<StoredRow>, limit: nat)
    requires !HasCorrupt(c, p)
    ensures !HasCorrupt(c, Head(p, limit))
    ensures var n := EventEnd(c, Head(p, limit));
      if n == 0 then Quiet(c, Head(p, limit), 0, |Head(p, limit)|) else n <= limit && IsEvent(c, p[n - 1])
  {
    var w := Head(p, limit);
    assert forall k | 0 <= k < |w| :: w[k] == p[k];
    EventEndIs(c, w);
  }

  lemma {:induction false} ReachUnblockedExactlyWhen<E>(c: Codec<E>, p: seq<StoredRow>, limit: nat)
    requires !HasCorrupt(c, p)
    ensures Quiet(c, p, Reach(c, p, limit), |p|) <==> !Blocked(c, p, limit)
    decreases |p|
  {
    var n := EventEnd(c, Head(p, limit));
    CleanHead(c, p, limit);
    if n == 0 {
      ShortOfEvents(c, p, limit);
    } else {
      var rest := p[n..];
      CleanSuffix(c, p, n);
      ReachUnblockedExactlyWhen(c, rest, limit);
      BlockedPastEvent(c, p, limit, n - 1);
      assert Blocked(c, p, limit) <==> Blocked(c, rest, limit);
      ReachUnfolds(c, p, limit);
      var r := Reach(c, rest, limit);
      QuietShift(c, p, n, r);
      assert Quiet(c, rest, r, |rest|) <==> Quiet(c, p, n + r, |p|);
    }
  }

  /** A first window without events: everything is stored already, or the window blocks. */
  lemma {:induction false} ShortOfEvents<E>(c: Codec<E>, p: seq<StoredRow>, limit: nat)
    requires Quiet(c, Head(p, limit), 0, |Head(p, limit)|)
    ensures Quiet(c, p, 0, |p|) <==> !Blocked(c, p, limit)
  {
    var w := Head(p, limit);
    assert forall k | 0 <= k < |w| :: w[k] == p[k] && !IsEvent(c, w[k]);
    if limit <= |p| {
      assert Quiet(c, p, 0, limit);
      if !Quiet(c, p, 0, |p|) {
        assert BlockedAt(c, p, limit, 0);
      }
    }
  }

  /** The first `n` rows past the cursor are all there is to store exactly when no event lies past them. */
  lemma {:induction false} StoredAll<E>(c: Codec<E>, s: State<E>, n: nat)
    requires Inv(c, s) && n <= |Past(s.tables, CursorOf(s.tables))|
    ensures var p := Past(s.tables, CursorOf(s.tables));
      s.delivered + Typed(c, p[..n]) == Typed(c, s.tables.rows) <==> Quiet(c, p, n, |p|)
  {
    var p := Past(s.tables, CursorOf(s.tables));
    RowsArePast(s.tables);
    TypedConcat(c, Between(s.tables.rows, 0, CursorOf(s.tables)), p);
    assert p[..|p|] == p && p[n..][..|p| - n] == p[n..];
    TypedSplits(c, p, n, |p| - n);
    Regroup(s.delivered, Typed(c, p[..n]), Typed(c, p[n..]));
    TypedEmptyExactlyWhen(c, p[n..]);
    QuietShift(c, p, n, 0);
  }

  /** For any table and any limit: repeated rounds store every event exactly when none lies past the
      rows they reach. With no corrupt row ahead that is the case exactly when no `limit` consecutive
      rows without an event lie before an event. */
  lemma {:induction false} DrainsExactlyWhen<E>(c: Codec<E>, s: State<E>, limit: u64)
    requires Inv(c, s)
    ensures var p := Past(s.tables, CursorOf(s.tables));
      && (Drained(c, Drain(c, s, limit)) <==> Quiet(c, p, Reach(c, p, limit), |p|))
      && (!HasCorrupt(c, p) ==> (Drained(c, Drain(c, s, limit)) <==> !Blocked(c, p, limit)))
  {
    var p := Past(s.tables, CursorOf(s.tables));
    var n := Reach(c, p, limit);
    DrainReaches(c, s, limit);
    StoredAll(c, s, n);
    if !HasCorrupt(c, p) {
      ReachUnblockedExactlyWhen(c, p, limit);
    }
  }

  lemma {:induction false} QuietShift<E>(c: Codec<E>, p: seq<StoredRow>, n: nat, r: nat)
    requires n + r <= |p|
    ensures Quiet(c, p[n..], r, |p| - n) <==> Quiet(c, p, n + r, |p|)
  {
    var q := p[n..];
    assert forall k | 0 <= k < |q| :: q[k] == p[n + k];
    if Quiet(c, q, r, |q|) {
      forall k | n + r <= k < |p| ensures !IsEvent(c, p[k]) { assert q[k - n] == p[k]; }
    }
  }

  // ------------------------------------------------------------------ where nothing is ever skipped

  /** The position of the first corrupt row, or the number of rows. */
  function FirstCorrupt<E>(c: Codec<E>, p: seq<StoredRow>): nat {
    if p == [] || c.read(p[0].row).Corrupt? then 0 else 1 + FirstCorrupt(c, p[1..])
  }

  lemma {:induction false} FirstCorruptIs<E>(c: Codec<E>, p: seq<StoredRow>)
    ensures var q := FirstCorrupt(c, p);
      && q <= |p| && (forall k | 0 <= k < q :: !c.read(p[k].row).Corrupt?) && (q < |p| ==> c.read(p[q].row).Corrupt?)
  {
    if p == [] || c.read(p[0].row).Corrupt? {
    } else {
      FirstCorruptIs(c, p[1..]);
      forall k | 0 < k < FirstCorrupt(c, p) ensures !c.read(p[k].row).Corrupt? {
        assert p[k] == p[1..][k - 1];
      }
    }
  }

  /** Rows are stored in whole windows: those before the first corrupt row, rounded down to a multiple
      of the limit, or all of them when there is none. */
  function WholeWindows(q: nat, total: nat, limit: nat): nat {
    if limit == 0 then 0 else if q >= total then total else q / limit * limit
  }

  lemma {:induction false} WholeWindowsNone(q: nat, total: nat, limit: nat)
    requires q < total && q < limit
    ensures WholeWindows(q, total, limit) == 0
  {
    DivModUnique(q, limit, 0, q);
  }

  lemma {:induction false} WholeWindowsStep(q: nat, total: nat, limit: nat)
    requires 0 < limit && q <= total && (if total <= limit then q == total else limit <= q)
    ensures var n := if total <= limit then total else limit;
      WholeWindows(q, total, limit) == n + WholeWindows(q - n, total - n, limit)
  {
    if q < total {
      DivStep(q, limit);
      assert (1 + (q - limit) / limit) * limit == limit + (q - limit) / limit * limit;
    }
  }

  lemma {:induction false} CorruptInHead<E>(c: Codec<E>, p: seq<StoredRow>, limit: nat)
    ensures HasCorrupt(c, Head(p, limit)) <==> FirstCorrupt(c, p) < |Head(p, limit)|
    ensures !HasCorrupt(c, Head(p, limit)) ==> FirstCorrupt(c, p[|Head(p, limit)|..]) == FirstCorrupt(c, p) - |Head(p, limit)|
  {
    var w, q := Head(p, limit), FirstCorrupt(c, p);
    var m := |w|;
    FirstCorruptIs(c, p);
    assert forall k | 0 <= k < m :: w[k] == p[k];
    if !HasCorrupt(c, w) {
      var r := FirstCorrupt(c, p[m..]);
      FirstCorruptIs(c, p[m..]);
      assert forall k | m <= k < |p| :: p[m..][k - m] == p[k];
      FirstIsFirst(c, p, m, q, r);
    }
  }

  lemma {:induction false} FirstIsFirst<E>(c: Codec<E>, p: seq<StoredRow>, m: nat, q: nat, r: nat)
    requires m <= q <= |p| && m + r <= |p|
    requires forall k | 0 <= k < q :: !c.read(p[k].row).Corrupt?
    requires forall k | m <= k < m + r :: !c.read(p[k].row).Corrupt?
    requires q < |p| ==> c.read(p[q].row).Corrupt?
    requires m + r < |p| ==> c.read(p[m + r].row).Corrupt?
    ensures m + r == q
  {
  }

  lemma {:induction false} CleanEndsInEvent<E>(c: Codec<E>, p: seq<StoredRow>, limit: nat)
    requires forall k | 0 <= k < |p| :: !c.read(p[k].row).Legacy?
    requires Head(p, limit) != [] && !HasCorrupt(c, Head(p, limit))
    ensures EventEnd(c, Head(p, limit)) == |Head(p, limit)|
  {
    var w := Head(p, limit);
    assert w[|w| - 1] == p[|w| - 1];
    assert IsEvent(c, w[|w| - 1]);
  }

  lemma {:induction false} ReachWithoutLegacy<E>(c: Codec<E>, p: seq<StoredRow>, limit: nat)
    requires forall k | 0 <= k < |p| :: !c.read(p[k].row).Legacy?
    ensures Reach(c, p, limit) == WholeWindows(FirstCorrupt(c, p), |p|, limit)
    decreases |p|
  {
    var w, q := Head(p, limit), FirstCorrupt(c, p);
    FirstCorruptIs(c, p);
    CorruptInHead(c, p, limit);
    if w == [] {
    } else if HasCorrupt(c, w) {
      WholeWindowsNone(q, |p|, limit);
    } else {
      var n := |w|;
      CleanEndsInEvent(c, p, limit);
      ReachUnfolds(c, p, limit);
      assert forall k | 0 <= k < |p| - n :: p[n..][k] == p[n + k];
      ReachWithoutLegacy(c, p[n..], limit);
      WholeWindowsStep(q, |p|, limit);
    }
  }

  /** A journal whose rows are all readable is drained by any positive limit. */
  lemma {:induction false} ReadableTableDrains<E>(c: Codec<E>, s: State<E>, limit: u64)
    requires Inv(c, s) && 0 < limit
    requires forall i | 0 <= i < |s.tables.rows| :: IsEvent(c, s.tables.rows[i])
    ensures Drained(c, Drain(c, s, limit))
  {
    var p := Past(s.tables, CursorOf(s.tables));
    BetweenMembers(s.tables.rows, CursorOf(s.tables), s.tables.lastSeq);
    assert forall i | 0 <= i < |p| :: IsEvent(c, p[i]);
    DrainsExactlyWhen(c, s, limit);
    forall k: nat | k <= |p| ensures !BlockedAt(c, p, limit, k) {
      assert k + limit <= |p| ==> IsEvent(c, p[k]);
    }
  }

  lemma {:induction false} CorruptionOutlastsStep<E>(c: Codec<E>, s: State<E>, limit: u64, step: Step)
    requires Inv(c, s) && s.pending.None? && HasCorrupt(c, Window(s.tables, CursorOf(s.tables), limit))
    requires step.Read? ==> step.limit >= limit
    ensures var s' := Next(c, s, step);
      && s'.pending.None? && HasCorrupt(c, Window(s'.tables, CursorOf(s'.tables), limit))
      && s'.tables.cursor == s.tables.cursor && s'.delivered == s.delivered
  {
    var t := s.tables;
    var w := Window(t, CursorOf(t), limit);
    var i :| 0 <= i < |w| && c.read(w[i].row).Corrupt?;
    if step.Write? {
      if Written(t, step.row).Ok? {
        WriteAppends(t, step.row, CursorOf(t));
        assert Window(Written(t, step.row).value, CursorOf(t), limit)[i] == w[i];
      }
    } else if step.Read? {
      WindowFits(t, CursorOf(t), limit);
      assert Window(t, CursorOf(t), step.limit)[i] == w[i];
    }
  }

  /** A row that cannot be read stops the drain for good: as long as batches are big enough to reach
      it, nothing more is ever stored, the readable rows before it included. */
  lemma {:induction false} CorruptionIsForever<E>(c: Codec<E>, s: State<E>, limit: u64, steps: seq<Step>)
    requires Inv(c, s) && s.pending.None? && HasCorrupt(c, Window(s.tables, CursorOf(s.tables), limit))
    requires forall i | 0 <= i < |steps| :: steps[i].Read? ==> steps[i].limit >= limit
    ensures Run(c, s, steps).delivered == s.delivered && Run(c, s, steps).tables.cursor == s.tables.cursor
    decreases |steps|
  {
    if steps == [] {
    } else {
      CorruptionOutlastsStep(c, s, limit, steps[0]);
      StepKeeps(c, s, steps[0]);
      CorruptionIsForever(c, Next(c, s, steps[0]), limit, steps[1..]);
    }
  }

  // ------------------------------------------------------------------ corrupt rows stay ahead

  /** No row up to `seq` is corrupt. */
  ghost predicate CleanUpTo<E>(c: Codec<E>, t: Tables, last: int) {
    forall i | 0 <= i < |t.rows| && t.rows[i].eventSeq <= last :: !c.read(t.rows[i].row).Corrupt?
  }

  ghost predicate Clean<E>(c: Codec<E>, s: State<E>) {
    && CleanUpTo(c, s.tables, CursorOf(s.tables))
    && (s.pending.Some? && s.pending.value != [] ==> CleanUpTo(c, s.tables, s.pending.value[|s.pending.value| - 1].0))
  }

  lemma {:induction false} BetweenComplete(rows: seq<StoredRow>, lo: int, hi: int, i: nat)
    requires i < |rows| && lo < rows[i].eventSeq <= hi
    ensures rows[i] in Between(rows, lo, hi)
  {
    if i == |rows| - 1 {
    } else {
      BetweenComplete(rows[..|rows| - 1], lo, hi, i);
    }
  }

  /** A batch that was read comes from rows none of which is corrupt. */
  lemma {:induction false} ReadKeepsClean<E>(c: Codec<E>, s: State<E>, limit: u64)
    requires Inv(c, s) && Clean(c, s)
    ensures Clean(c, Next(c, s, Read(limit)))
  {
    var t := s.tables;
    var w, p := Window(t, CursorOf(t), limit), Past(t, CursorOf(t));
    EventEndIs(c, w);
    TypedEmptyExactlyWhen(c, w);
    var n := EventEnd(c, w);
    if !HasCorrupt(c, w) && Typed(c, w) != [] {
      WindowIsPrefix(t, CursorOf(t), limit);
      assert n > 0 && w[..n] == p[..n] && w[n - 1] == p[n - 1];
      var last := w[n - 1].eventSeq;
      PrefixIsRange(t.rows, CursorOf(t), t.lastSeq, n);
      forall i | 0 <= i < |t.rows| && t.rows[i].eventSeq <= last ensures !c.read(t.rows[i].row).Corrupt? {
        if t.rows[i].eventSeq > CursorOf(t) {
          BetweenComplete(t.rows, CursorOf(t), last, i);
          assert t.rows[i] in p[..n];
          var k :| 0 <= k < n && p[..n][k] == t.rows[i];
          assert w[k] == t.rows[i];
        }
      }
    }
  }

  lemma {:induction false} StepKeepsClean<E>(c: Codec<E>, s: State<E>, step: Step)
    requires Inv(c, s) && Clean(c, s)
    ensures Clean(c, Next(c, s, step))
  {
    match step
    case Write(row) =>
    case Read(limit) => ReadKeepsClean(c, s, limit);
    case Commit =>
    case Abandon =>
  }

  lemma {:induction false} RunKeepsClean<E>(c: Codec<E>, s: State<E>, steps: seq<Step>)
    requires Inv(c, s) && Clean(c, s)
    ensures Inv(c, Run(c, s, steps)) && Clean(c, Run(c, s, steps))
    decreases |steps|
  {
    if steps == [] {
    } else {
      StepKeeps(c, s, steps[0]);
      StepKeepsClean(c, s, steps[0]);
      RunKeepsClean(c, Next(c, s, steps[0]), steps[1..]);
    }
  }

  /** In every run, whatever the limits: the cursor stays before every row that cannot be read, and no
      event past the cursor is ever stored. */
  lemma {:induction false} UnreadableNeverPassed<E>(c: Codec<E>, steps: seq<Step>)
    ensures var s := Run(c, Fresh(), steps);
      && (forall i | 0 <= i < |s.tables.rows| && c.read(s.tables.rows[i].row).Corrupt? :: CursorOf(s.tables) < s.tables.rows[i].eventSeq)
      && (forall k | 0 <= k < |s.delivered| :: s.delivered[k].0 <= CursorOf(s.tables))
  {
    RunKeepsClean(c, Fresh(), steps);
    var s := Run(c, Fresh(), steps);
    var up := Between(s.tables.rows, 0, CursorOf(s.tables));
    BetweenMembers(s.tables.rows, 0, CursorOf(s.tables));
    TypedBelow(c, up, CursorOf(s.tables) + 1);
  }
}
