/** Archive events: the backup taxonomy without media deletions, and always inside a conversation. */
module ArchiveEvents {
  import opened Foundations
  import opened Tombstones

  datatype ArchiveEventType =
    | MessageReceived
    | MessageEdited
    | MessageDeleted
    | MediaReceived
    | ConversationCreated
    | ConversationDeleted

  datatype ArchiveEvent = ArchiveEvent(
    eventType: ArchiveEventType,
    conversationId: Uuid,
    messageId: Option<Uuid>,
    payload: seq<byte>,
    createdAtMs: i64)

  predicate IsTombstone(e: ArchiveEvent) {
    e.eventType.MessageDeleted? || e.eventType.ConversationDeleted?
  }

  predicate Supersedes(t: ArchiveEvent, e: ArchiveEvent) {
    && t.conversationId == e.conversationId
    && (|| t.eventType.ConversationDeleted?
        || (t.eventType.MessageDeleted? && t.messageId.Some? && t.messageId == e.messageId))
  }

  ghost function ArchiveRules(): Rules<ArchiveEvent> {
    Rules(IsTombstone, Supersedes)
  }
}

module ArchiveCompaction {
  import opened Foundations
  import opened Tombstones
  import opened ArchiveEvents
  import Backup = BackupEvents

  ghost function DeletedMessages(events: seq<ArchiveEvent>): set<(Uuid, Uuid)> {
    set t | t in events && t.eventType.MessageDeleted? && t.messageId.Some? :: (t.conversationId, t.messageId.value)
  }

  ghost function DeletedConversations(events: seq<ArchiveEvent>): set<Uuid> {
    set t | t in events && t.eventType.ConversationDeleted? :: t.conversationId
  }

  predicate Filtered(e: ArchiveEvent, messages: set<(Uuid, Uuid)>, conversations: set<Uuid>) {
    && !IsTombstone(e)
    && e.conversationId !in conversations
    && !(e.messageId.Some? && (e.conversationId, e.messageId.value) in messages)
  }

  lemma {:induction false} FilteredIsSurvival(e: ArchiveEvent, events: seq<ArchiveEvent>)
    ensures Filtered(e, DeletedMessages(events), DeletedConversations(events))
       <==> Survives(ArchiveRules(), e, events)
  {
    if !Survives(ArchiveRules(), e, events) && !IsTombstone(e) {
      var t :| t in events && Kills(ArchiveRules(), t, e);
      assert Supersedes(t, e);
    }
    if Survives(ArchiveRules(), e, events) {
      forall t | t in events && IsTombstone(t) ensures !Supersedes(t, e) {
        assert !Kills(ArchiveRules(), t, e);
      }
    }
  }

  method ApplyArchiveTombstones(events: seq<ArchiveEvent>) returns (survivors: seq<ArchiveEvent>)
    ensures survivors == Compact(ArchiveRules(), events)
  {
    var deletedMessages: set<(Uuid, Uuid)> := {};
    var deletedConversations: set<Uuid> := {};
    for i := 0 to |events|
      invariant deletedMessages == DeletedMessages(events[..i])
      invariant deletedConversations == DeletedConversations(events[..i])
    {
      var ev := events[i];
      assert events[..i + 1] == events[..i] + [ev];
      match ev.eventType {
        case MessageDeleted =>
          if ev.messageId.Some? {
            deletedMessages := deletedMessages + {(ev.conversationId, ev.messageId.value)};
          }
        case ConversationDeleted => deletedConversations := deletedConversations + {ev.conversationId};
        case _ =>
      }
    }
    assert events[..|events|] == events;
    survivors := [];
    for i := 0 to |events|
      invariant survivors == Keep(ArchiveRules(), events[..i], events)
    {
      assert events[..i + 1][..i] == events[..i];
      FilteredIsSurvival(events[i], events);
      if Filtered(events[i], deletedMessages, deletedConversations) {
        survivors := survivors + [events[i]];
      }
    }
  }

  // ------------------------------------------------------------------ agreement with the backup pass

  /** The backup event that journals the same mutation. */
  function Embed(e: ArchiveEvent): Backup.BackupEvent {
    Backup.BackupEvent(EmbedType(e.eventType), Some(e.conversationId), e.messageId, e.payload, e.createdAtMs)
  }

  function EmbedType(t: ArchiveEventType): Backup.BackupEventType {
    match t
    case MessageReceived => Backup.MessageReceived
    case MessageEdited => Backup.MessageEdited
    case MessageDeleted => Backup.MessageDeleted
    case MediaReceived => Backup.MediaReceived
    case ConversationCreated => Backup.ConversationCreated
    case ConversationDeleted => Backup.ConversationDeleted
  }

  function EmbedAll(events: seq<ArchiveEvent>): (r: seq<Backup.BackupEvent>)
    ensures |r| == |events|
    ensures forall i | 0 <= i < |events| :: r[i] == Embed(events[i])
  {
    seq(|events|, i requires 0 <= i < |events| => Embed(events[i]))
  }

  /** A conversation-created event that names a message some tombstone deletes, in a conversation
      that is not itself deleted: the archive pass drops it, the backup pass does not. */
  ghost predicate Disputed(e: ArchiveEvent, kills: seq<ArchiveEvent>) {
    && e.eventType.ConversationCreated?
    && e.messageId.Some?
    && (exists t :: t in kills && t.eventType.MessageDeleted? && Supersedes(t, e))
    && (forall t | t in kills && t.eventType.ConversationDeleted? :: !Supersedes(t, e))
  }

  lemma {:induction false} KillsAgree(t: ArchiveEvent, e: ArchiveEvent)
    requires !IsTombstone(e)
    ensures Kills(Backup.BackupRules(), Embed(t), Embed(e))
       <==> Kills(ArchiveRules(), t, e) && !(t.eventType.MessageDeleted? && e.eventType.ConversationCreated?)
  {
  }

  lemma {:induction false} EmbeddedSurvival(e: ArchiveEvent, kills: seq<ArchiveEvent>)
    ensures Survives(Backup.BackupRules(), Embed(e), EmbedAll(kills))
       <==> !IsTombstone(e) && forall t | t in kills :: !Kills(Backup.BackupRules(), Embed(t), Embed(e))
  {
    var bk := EmbedAll(kills);
    forall t | t in kills ensures Embed(t) in bk {
      var i :| 0 <= i < |kills| && kills[i] == t;
      assert bk[i] == Embed(t);
    }
    forall u | u in bk ensures exists t :: t in kills && Embed(t) == u {
      var i :| 0 <= i < |bk| && bk[i] == u;
      assert kills[i] in kills && Embed(kills[i]) == u;
    }
  }

  lemma {:induction false} SurvivalAgrees(e: ArchiveEvent, kills: seq<ArchiveEvent>)
    ensures Survives(ArchiveRules(), e, kills) ==> Survives(Backup.BackupRules(), Embed(e), EmbedAll(kills))
    ensures Disputed(e, kills)
       <==> Survives(Backup.BackupRules(), Embed(e), EmbedAll(kills)) && !Survives(ArchiveRules(), e, kills)
  {
    EmbeddedSurvival(e, kills);
    if !IsTombstone(e) {
      forall t | t in kills
        ensures Kills(Backup.BackupRules(), Embed(t), Embed(e))
           <==> Kills(ArchiveRules(), t, e) && !(t.eventType.MessageDeleted? && e.eventType.ConversationCreated?)
      {
        KillsAgree(t, e);
      }
      assert forall t :: Kills(ArchiveRules(), t, e) <==> IsTombstone(t) && Supersedes(t, e);
    }
  }

  lemma {:induction false} KeepAgrees(events: seq<ArchiveEvent>, kills: seq<ArchiveEvent>)
    ensures |Keep(ArchiveRules(), events, kills)|
         <= |Keep(Backup.BackupRules(), EmbedAll(events), EmbedAll(kills))|
    ensures EmbedAll(Keep(ArchiveRules(), events, kills))
         == Keep(Backup.BackupRules(), EmbedAll(events), EmbedAll(kills))
       <==> forall e | e in events :: !Disputed(e, kills)
  {
    if events == [] {
    } else {
      var front, last := events[..|events| - 1], events[|events| - 1];
      assert events == front + [last];
      assert EmbedAll(events)[..|front|] == EmbedAll(front);
      KeepAgrees(front, kills);
      SurvivalAgrees(last, kills);
      var a := Keep(ArchiveRules(), front, kills);
      var b := Keep(Backup.BackupRules(), EmbedAll(front), EmbedAll(kills));
      if Survives(ArchiveRules(), last, kills) {
        assert EmbedAll(a + [last]) == EmbedAll(a) + [Embed(last)];
        SplitsAgree(EmbedAll(a), [Embed(last)], b, [Embed(last)]);
      }
    }
  }

  /** Compacting archive events and compacting the backup events that mirror them agree exactly
      when no disputed event is present. */
  lemma {:induction false} ArchiveAgreesWithBackup(events: seq<ArchiveEvent>)
    ensures EmbedAll(Compact(ArchiveRules(), events)) == Compact(Backup.BackupRules(), EmbedAll(events))
       <==> forall e | e in events :: !Disputed(e, events)
  {
    KeepAgrees(events, events);
  }

  /** A batch on which they disagree: a created conversation that carries the id of a message deleted
      after it. The archive loses the conversation, the backup keeps it. */
  lemma {:induction false} CreationWithDeletedMessageIsLost(c: Uuid, m: Uuid)
    ensures var created := ArchiveEvent(ConversationCreated, c, Some(m), [], 1);
            var deleted := ArchiveEvent(MessageDeleted, c, Some(m), [], 2);
      && Compact(ArchiveRules(), [created, deleted]) == []
      && Compact(Backup.BackupRules(), EmbedAll([created, deleted])) == [Embed(created)]
  {
    var created := ArchiveEvent(ConversationCreated, c, Some(m), [], 1);
    var deleted := ArchiveEvent(MessageDeleted, c, Some(m), [], 2);
    var log, mirror := [created, deleted], [Embed(created), Embed(deleted)];
    assert EmbedAll(log) == mirror;
    assert log[..1] == [created] && [created][..0] == [];
    assert mirror[..1] == [Embed(created)] && [Embed(created)][..0] == [];
    assert log[1] in log && Kills(ArchiveRules(), deleted, created);
    assert Keep(ArchiveRules(), log[..1], log) == [];
    assert Survives(Backup.BackupRules(), Embed(created), mirror);
    assert Keep(Backup.BackupRules(), mirror[..1], mirror) == [] + [Embed(created)];
  }
}
