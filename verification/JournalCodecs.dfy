/** How the two journals store and read back their rows. Identifiers are printed and parsed by a
    library; the row of an unknown tag is skipped by the backup journal and refused by the archive
    journal. */
module JournalIds {
  import opened Foundations

  datatype UuidText = UuidText(print_: Uuid -> string, parse: string -> Option<Uuid>)

  ghost predicate Lawful(ids: UuidText) {
    forall u: Uuid :: ids.parse(ids.print_(u)) == Some(u)
  }

  function Printed(ids: UuidText, id: Option<Uuid>): Option<string> {
    if id.Some? then Some(ids.print_(id.value)) else None
  }

  /** The column holds the id: both are absent, or the text parses to it. */
  ghost predicate Holds(ids: UuidText, column: Option<string>, id: Option<Uuid>) {
    if column.None? then id == None else id.Some? && ids.parse(column.value) == id
  }

  /** The column is there and is no id. */
  ghost predicate Unparsable(ids: UuidText, column: Option<string>) {
    column.Some? && ids.parse(column.value) == None
  }

  /** An absent column is an absent id; a present one has to parse. */
  function Parsed(ids: UuidText, column: Option<string>): Option<Option<Uuid>> {
    if column.None? then Some(None)
    else if ids.parse(column.value).None? then None
    else Some(ids.parse(column.value))
  }
}

module BackupJournal {
  import opened Foundations
  import opened JournalIds
  import opened Journals
  import opened BackupEvents

  function TagOf(t: BackupEventType): string {
    match t
    case MessageReceived => "message_received"
    case MessageEdited => "message_edited"
    case MessageDeleted => "message_deleted"
    case MediaReceived => "media_received"
    case MediaDeleted => "media_deleted"
    case ConversationCreated => "conversation_created"
    case ConversationDeleted => "conversation_deleted"
  }

  function ParseTag(s: string): Option<BackupEventType> {
    if s == "message_received" then Some(MessageReceived)
    else if s == "message_edited" then Some(MessageEdited)
    else if s == "message_deleted" then Some(MessageDeleted)
    else if s == "media_received" then Some(MediaReceived)
    else if s == "media_deleted" then Some(MediaDeleted)
    else if s == "conversation_created" then Some(ConversationCreated)
    else if s == "conversation_deleted" then Some(ConversationDeleted)
    else None
  }

  function Store(ids: UuidText, e: BackupEvent): Row {
    Row(TagOf(e.eventType), Printed(ids, e.conversationId), Printed(ids, e.messageId), e.payload, e.createdAtMs)
  }

  function ReadBack(ids: UuidText, row: Row): Reading<BackupEvent> {
    var tag := ParseTag(row.tag);
    if tag.None? then Legacy
    else
      var conversation := Parsed(ids, row.conversationId);
      if conversation.None? then Corrupt(InvalidId("conversation_id"))
      else
        var message := Parsed(ids, row.messageId);
        if message.None? then Corrupt(InvalidId("message_id"))
        else Readable(BackupEvent(tag.value, conversation.value, message.value, row.payload, row.createdAtMs))
  }

  function BackupCodec(ids: UuidText): Codec<BackupEvent> {
    Codec(e => Store(ids, e), row => ReadBack(ids, row))
  }

  /** Parsing inverts printing and accepts nothing else. */
  lemma {:induction false} TagParsesExactlyWhen(s: string, t: BackupEventType)
    ensures ParseTag(s) == Some(t) <==> s == TagOf(t)
  {
    TagsDiffer();
  }

  lemma {:induction false} TagsDiffer()
    ensures forall a, b | TagOf(a) == TagOf(b) :: a == b
  {
    forall a, b | TagOf(a) == TagOf(b) ensures a == b {
      assert TagOf(a)[|TagOf(a)| - 2] == TagOf(b)[|TagOf(b)| - 2] && TagOf(a)[|TagOf(a)| - 4] == TagOf(b)[|TagOf(b)| - 4];
      assert |TagOf(a)| == |TagOf(b)|;
      assert TagOf(a)[2] == TagOf(b)[2];
    }
  }

  /** A written event is read back as it was. */
  lemma {:induction false} StoredReadsBack(ids: UuidText, e: BackupEvent)
    requires Lawful(ids)
    ensures ReadBack(ids, Store(ids, e)) == Readable(e)
  {
    TagParsesExactlyWhen(TagOf(e.eventType), e.eventType);
  }

  predicate Foreign(row: Row) {
    forall t: BackupEventType :: row.tag != TagOf(t)
  }

  /** A row is skipped exactly when its tag is none of the seven, whatever else it holds. */
  lemma {:induction false} LegacyExactlyWhen(ids: UuidText, row: Row)
    ensures ReadBack(ids, row) == Legacy <==> Foreign(row)
  {
    if ParseTag(row.tag).Some? {
      TagParsesExactlyWhen(row.tag, ParseTag(row.tag).value);
    }
    forall t: BackupEventType | row.tag == TagOf(t) ensures ParseTag(row.tag).Some? {
      TagParsesExactlyWhen(row.tag, t);
    }
  }

  /** A row is read as an event exactly when its tag is the event's and each column holds its field; and
      is corrupt exactly when the tag is known and a column that is there is no id, the conversation
      being reported first. */
  lemma {:induction false} ReadsExactlyWhen(ids: UuidText, row: Row, e: BackupEvent, error: JournalError)
    ensures ReadBack(ids, row) == Readable(e)
       <==> row.tag == TagOf(e.eventType) && Holds(ids, row.conversationId, e.conversationId) && Holds(ids, row.messageId, e.messageId)
            && row.payload == e.payload && row.createdAtMs == e.createdAtMs
    ensures ReadBack(ids, row) == Corrupt(error)
       <==> !Foreign(row)
            && if Unparsable(ids, row.conversationId) then error == InvalidId("conversation_id")
               else Unparsable(ids, row.messageId) && error == InvalidId("message_id")
  {
    TagParsesExactlyWhen(row.tag, e.eventType);
    LegacyExactlyWhen(ids, row);
  }

  /** The row is what some event is written as. */
  ghost predicate IsWritten(ids: UuidText, row: Row) {
    exists e: BackupEvent :: row == Store(ids, e)
  }

  /** A table of written events only is drained by any positive limit. */
  lemma {:induction false} WrittenEventsDrain(ids: UuidText, s: State<BackupEvent>, limit: u64)
    requires Lawful(ids) && Inv(BackupCodec(ids), s) && 0 < limit
    requires forall i | 0 <= i < |s.tables.rows| :: IsWritten(ids, s.tables.rows[i].row)
    ensures Drained(BackupCodec(ids), Drain(BackupCodec(ids), s, limit))
  {
    forall i | 0 <= i < |s.tables.rows| ensures IsEvent(BackupCodec(ids), s.tables.rows[i]) {
      var e: BackupEvent :| s.tables.rows[i].row == Store(ids, e);
      StoredReadsBack(ids, e);
    }
    ReadableTableDrains(BackupCodec(ids), s, limit);
  }

  function Repeated(row: Row, n: nat): seq<Step> {
    if n == 0 then [] else Repeated(row, n - 1) + [Write(row)]
  }

  lemma {:induction false} RunSplits<E>(c: Codec<E>, s: State<E>, a: seq<Step>, b: seq<Step>)
    ensures Run(c, s, a + b) == Run(c, Run(c, s, a), b)
    decreases |a|
  {
    if a == [] {
      assert a + b == b;
    } else {
      assert (a + b)[1..] == a[1..] + b;
      RunSplits(c, Next(c, s, a[0]), a[1..], b);
    }
  }

  lemma {:induction false} RepeatedRows<E>(c: Codec<E>, row: Row, n: nat)
    requires n <= I64_MAX
    ensures var s := Run(c, Fresh(), Repeated(row, n));
      && s.tables.lastSeq == n == |s.tables.rows| && s.tables.cursor == None && s.pending == None && s.delivered == []
      && forall i | 0 <= i < n :: s.tables.rows[i].row == row
  {
    if n == 0 {
    } else {
      RepeatedRows(c, row, n - 1);
      RunSplits(c, Fresh(), Repeated(row, n - 1), [Write(row)]);
      var s := Run(c, Fresh(), Repeated(row, n - 1));
      assert [Write(row)][1..] == [];
      assert Run(c, s, [Write(row)]) == Run(c, Next(c, s, Write(row)), []) == Next(c, s, Write(row));
    }
  }

  /** Any batch size can be starved: after that many foreign rows, the events written behind them are
      never stored, however often batches of that size are read and whatever is written later. */
  lemma {:induction false} ForeignRowsStarve(ids: UuidText, row: Row, limit: u64, later: seq<Step>)
    requires Foreign(row) && limit <= I64_MAX
    requires forall i | 0 <= i < |later| :: later[i].Read? ==> later[i].limit <= limit
    ensures Run(BackupCodec(ids), Fresh(), Repeated(row, limit) + later).delivered == []
  {
    var c := BackupCodec(ids);
    var s := Run(c, Fresh(), Repeated(row, limit));
    RepeatedRows(c, row, limit);
    RunKeeps(c, Fresh(), Repeated(row, limit));
    BetweenAll(s.tables.rows, 0, s.tables.lastSeq);
    LegacyExactlyWhen(ids, row);
    StallIsForever(c, s, limit, later);
    RunSplits(c, Fresh(), Repeated(row, limit), later);
  }
}

module ArchiveJournal {
  import opened Foundations
  import opened JournalIds
  import opened Journals
  import opened ArchiveEvents

  function TagOf(t: ArchiveEventType): string {
    match t
    case MessageReceived => "message_received"
    case MessageEdited => "message_edited"
    case MessageDeleted => "message_deleted"
    case MediaReceived => "media_received"
    case ConversationCreated => "conversation_created"
    case ConversationDeleted => "conversation_deleted"
  }

  function ParseTag(s: string): Option<ArchiveEventType> {
    if s == "message_received" then Some(MessageReceived)
    else if s == "message_edited" then Some(MessageEdited)
    else if s == "message_deleted" then Some(MessageDeleted)
    else if s == "media_received" then Some(MediaReceived)
    else if s == "conversation_created" then Some(ConversationCreated)
    else if s == "conversation_deleted" then Some(ConversationDeleted)
    else None
  }

  function Store(ids: UuidText, e: ArchiveEvent): Row {
    Row(TagOf(e.eventType), Some(ids.print_(e.conversationId)), Printed(ids, e.messageId), e.payload, e.createdAtMs)
  }

  /** The conversation column is read before any parsing; the table forbids it to be absent. */
  function ReadBack(ids: UuidText, row: Row): Reading<ArchiveEvent> {
    if row.conversationId.None? then Corrupt(MissingColumn)
    else
      var tag := ParseTag(row.tag);
      if tag.None? then Corrupt(UnknownEventType(row.tag))
      else
        var conversation := ids.parse(row.conversationId.value);
        if conversation.None? then Corrupt(InvalidId("conversation_id"))
        else
          var message := Parsed(ids, row.messageId);
          if message.None? then Corrupt(InvalidId("message_id"))
          else Readable(ArchiveEvent(tag.value, conversation.value, message.value, row.payload, row.createdAtMs))
  }

  function ArchiveCodec(ids: UuidText): Codec<ArchiveEvent> {
    Codec(e => Store(ids, e), row => ReadBack(ids, row))
  }

  lemma {:induction false} TagParsesExactlyWhen(s: string, t: ArchiveEventType)
    ensures ParseTag(s) == Some(t) <==> s == TagOf(t)
  {
    forall a, b | TagOf(a) == TagOf(b) ensures a == b {
      assert TagOf(a)[|TagOf(a)| - 2] == TagOf(b)[|TagOf(b)| - 2] && TagOf(a)[|TagOf(a)| - 4] == TagOf(b)[|TagOf(b)| - 4];
      assert |TagOf(a)| == |TagOf(b)|;
      assert TagOf(a)[2] == TagOf(b)[2];
    }
  }

  lemma {:induction false} StoredReadsBack(ids: UuidText, e: ArchiveEvent)
    requires Lawful(ids)
    ensures ReadBack(ids, Store(ids, e)) == Readable(e)
  {
    TagParsesExactlyWhen(TagOf(e.eventType), e.eventType);
  }

  /** A row is read as an event exactly when its tag is the event's and each column holds its field; the
      first thing wrong is reported: a missing conversation, an unknown tag, an id that does not parse. */
  lemma {:induction false} ReadsExactlyWhen(ids: UuidText, row: Row, e: ArchiveEvent, error: JournalError)
    ensures ReadBack(ids, row) == Readable(e)
       <==> row.tag == TagOf(e.eventType) && Holds(ids, row.conversationId, Some(e.conversationId)) && Holds(ids, row.messageId, e.messageId)
            && row.payload == e.payload && row.createdAtMs == e.createdAtMs
    ensures ReadBack(ids, row) == Corrupt(error)
       <==> if row.conversationId.None? then error == MissingColumn
            else if forall t :: row.tag != TagOf(t) then error == UnknownEventType(row.tag)
            else if Unparsable(ids, row.conversationId) then error == InvalidId("conversation_id")
            else Unparsable(ids, row.messageId) && error == InvalidId("message_id")
  {
    TagParsesExactlyWhen(row.tag, e.eventType);
    if ParseTag(row.tag).Some? {
      TagParsesExactlyWhen(row.tag, ParseTag(row.tag).value);
    }
    forall t | row.tag == TagOf(t) ensures ParseTag(row.tag).Some? {
      TagParsesExactlyWhen(row.tag, t);
    }
  }

  /** Nothing is ever skipped, so repeated rounds store whole windows: exactly the rows before the
      first one that cannot be read, rounded down to a multiple of the limit. The journal is drained
      exactly when no readable row lies past those. */
  lemma {:induction false} ArchiveDrains(ids: UuidText, s: State<ArchiveEvent>, limit: u64)
    requires Inv(ArchiveCodec(ids), s)
    ensures var c, p := ArchiveCodec(ids), Past(s.tables, CursorOf(s.tables));
      var n := WholeWindows(FirstCorrupt(c, p), |p|, limit);
      && n <= |p| && Drain(c, s, limit).delivered == s.delivered + Typed(c, p[..n])
      && (Drained(c, Drain(c, s, limit)) <==> forall k | n <= k < |p| :: c.read(p[k].row).Corrupt?)
  {
    var c, p := ArchiveCodec(ids), Past(s.tables, CursorOf(s.tables));
    forall k | 0 <= k < |p| ensures !c.read(p[k].row).Legacy? {
      assert !ReadBack(ids, p[k].row).Legacy?;
    }
    FirstCorruptIs(c, p);
    ReachWithoutLegacy(c, p, limit);
    DrainReaches(c, s, limit);
    DrainsExactlyWhen(c, s, limit);
    assert forall k | 0 <= k < |p| :: IsEvent(c, p[k]) <==> !c.read(p[k].row).Corrupt?;
  }
}
