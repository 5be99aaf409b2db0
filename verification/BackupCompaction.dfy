/** Backup events, their tombstones, and what a log of them means when it is replayed. */
module BackupEvents {
  import opened Foundations
  import opened Tombstones

  datatype BackupEventType =
    | MessageReceived
    | MessageEdited
    | MessageDeleted
    | MediaReceived
    | MediaDeleted
    | ConversationCreated
    | ConversationDeleted

  datatype BackupEvent = BackupEvent(
    eventType: BackupEventType,
    conversationId: Option<Uuid>,
    messageId: Option<Uuid>,
    payload: seq<byte>,
    createdAtMs: i64)
  {
    predicate HasKey() { conversationId.Some? && messageId.Some? }

    function Key(): MessageKey
      requires HasKey()
    {
      MessageKey(conversationId.value, messageId.value)
    }
  }

  datatype MessageKey = MessageKey(conversation: Uuid, message: Uuid)

  predicate IsTombstone(e: BackupEvent) {
    e.eventType.MessageDeleted? || e.eventType.ConversationDeleted? || e.eventType.MediaDeleted?
  }

  predicate SameMessage(a: BackupEvent, b: BackupEvent) {
    a.HasKey() && b.HasKey() && a.Key() == b.Key()
  }

  /** `t` is a tombstone that names `e`. */
  predicate Supersedes(t: BackupEvent, e: BackupEvent) {
    match t.eventType
    case MessageDeleted =>
      && (e.eventType.MessageReceived? || e.eventType.MessageEdited? || e.eventType.MediaReceived?)
      && SameMessage(t, e)
    case ConversationDeleted => t.conversationId.Some? && t.conversationId == e.conversationId
    case MediaDeleted => e.eventType.MediaReceived? && SameMessage(t, e)
    case _ => false
  }

  ghost function BackupRules(): Rules<BackupEvent> {
    Rules(IsTombstone, Supersedes)
  }

  // ------------------------------------------------------------------ replay

  /** What a reader of the log ends up with: the conversations, the body history of each live
      message, and the media attached to it. */
  datatype Store = Store(
    conversations: set<Uuid>,
    messages: map<MessageKey, seq<BackupEvent>>,
    media: map<MessageKey, seq<BackupEvent>>)

  const EMPTY_STORE := Store({}, map[], map[])

  ghost function DropConversation<V>(m: map<MessageKey, V>, c: Uuid): map<MessageKey, V> {
    map k | k in m && k.conversation != c :: m[k]
  }

  ghost function DropMessage<V>(m: map<MessageKey, V>, gone: MessageKey): map<MessageKey, V> {
    map k | k in m && k != gone :: m[k]
  }

  lemma {:induction false} DropAfterUpdate<V>(m: map<MessageKey, V>, k: MessageKey, v: V, c: Uuid, gone: MessageKey)
    ensures DropConversation(m[k := v], c)
         == if k.conversation == c then DropConversation(m, c) else DropConversation(m, c)[k := v]
    ensures DropMessage(m[k := v], gone) == if k == gone then DropMessage(m, gone) else DropMessage(m, gone)[k := v]
  {
  }

  ghost function Step(s: Store, e: BackupEvent): Store {
    match e.eventType
    case ConversationCreated =>
      if e.conversationId.Some? then s.(conversations := s.conversations + {e.conversationId.value}) else s
    case ConversationDeleted =>
      if e.conversationId.None? then s
      else
        var c := e.conversationId.value;
        Store(s.conversations - {c}, DropConversation(s.messages, c), DropConversation(s.media, c))
    case MessageReceived =>
      if e.HasKey() then s.(messages := s.messages[e.Key() := [e]]) else s
    case MessageEdited =>
      if e.HasKey() && e.Key() in s.messages
      then s.(messages := s.messages[e.Key() := s.messages[e.Key()] + [e]]) else s
    case MessageDeleted =>
      if e.HasKey() then Store(s.conversations, DropMessage(s.messages, e.Key()), DropMessage(s.media, e.Key())) else s
    case MediaReceived =>
      if e.HasKey()
      then s.(media := s.media[e.Key() := (if e.Key() in s.media then s.media[e.Key()] else []) + [e]]) else s
    case MediaDeleted =>
      if e.HasKey() then s.(media := DropMessage(s.media, e.Key())) else s
  }

  ghost function Replay(log: seq<BackupEvent>): Store {
    if log == [] then EMPTY_STORE else Step(Replay(log[..|log| - 1]), log[|log| - 1])
  }

  /** `t` undoes `e` when it names it, and the two commute when it does not. */
  ghost predicate Commutes(s: Store, e: BackupEvent, t: BackupEvent) {
    Step(Step(s, e), t) == if Supersedes(t, e) then Step(s, t) else Step(Step(s, t), e)
  }

  lemma {:induction false} TombstoneCommutes(s: Store, e: BackupEvent, t: BackupEvent)
    requires IsTombstone(t) && !IsTombstone(e)
    ensures Commutes(s, e, t)
  {
    var c := if t.conversationId.Some? then t.conversationId.value else 0;
    var gone := if t.HasKey() then t.Key() else MessageKey(0, 0);
    if e.eventType.ConversationCreated? {
      CreationCommutes(s, e, t);
    } else if e.HasKey() {
      var k := e.Key();
      if e.eventType.MessageReceived? {
        DropAfterUpdate(s.messages, k, [e], c, gone);
      } else if e.eventType.MediaReceived? {
        DropAfterUpdate(s.media, k, (if k in s.media then s.media[k] else []) + [e], c, gone);
      } else if k in s.messages {
        DropAfterUpdate(s.messages, k, s.messages[k] + [e], c, gone);
      }
    }
  }

  lemma {:induction false} CreationCommutes(s: Store, e: BackupEvent, t: BackupEvent)
    requires IsTombstone(t) && e.eventType.ConversationCreated?
    ensures Commutes(s, e, t)
  {
    assert Step(Step(s, e), t).conversations
        == (if Supersedes(t, e) then Step(s, t) else Step(Step(s, t), e)).conversations;
  }

  lemma {:induction false} TombstoneActsAsFilter(log: seq<BackupEvent>, t: BackupEvent)
    requires IsTombstone(t)
    requires forall e | e in log :: !IsTombstone(e)
    ensures Step(Replay(log), t) == Replay(Keep(BackupRules(), log, [t]))
  {
    if log == [] {
      assert Step(EMPTY_STORE, t) == EMPTY_STORE;
    } else {
      var front, e := log[..|log| - 1], log[|log| - 1];
      TombstoneActsAsFilter(front, t);
      TombstoneCommutes(Replay(front), e, t);
      var kept := Keep(BackupRules(), front, [t]);
      assert Kills(BackupRules(), t, e) <==> Supersedes(t, e);
      assert t in [t];
      assert (kept + [e])[..|kept|] == kept;
    }
  }

  /** Replay only depends on the live events, so two logs with the same live events mean the same. */
  lemma {:induction false} ReplayOfLive(log: seq<BackupEvent>)
    ensures Replay(log) == Replay(Live(BackupRules(), log))
  {
    if log == [] {
    } else {
      var front, e := log[..|log| - 1], log[|log| - 1];
      var live := Live(BackupRules(), front);
      ReplayOfLive(front);
      if IsTombstone(e) {
        LiveHasNoTombstone(BackupRules(), front);
        TombstoneActsAsFilter(live, e);
      } else {
        assert (live + [e])[..|live|] == live;
      }
    }
  }
}

/** `apply_tombstones` and what it does to the meaning of a ledger. */
module BackupCompaction {
  import opened Foundations
  import opened Tombstones
  import opened BackupEvents
  import opened ReplayComponents

  ghost function DeletedMessages(events: seq<BackupEvent>): set<MessageKey> {
    set t | t in events && t.eventType.MessageDeleted? && t.HasKey() :: t.Key()
  }

  ghost function DeletedConversations(events: seq<BackupEvent>): set<Uuid> {
    set t | t in events && t.eventType.ConversationDeleted? && t.conversationId.Some? :: t.conversationId.value
  }

  ghost function DeletedMedia(events: seq<BackupEvent>): set<MessageKey> {
    set t | t in events && t.eventType.MediaDeleted? && t.HasKey() :: t.Key()
  }

  predicate Filtered(e: BackupEvent, messages: set<MessageKey>, conversations: set<Uuid>, media: set<MessageKey>) {
    && !IsTombstone(e)
    && !(e.conversationId.Some? && e.conversationId.value in conversations)
    && ((e.eventType.MessageReceived? || e.eventType.MessageEdited? || e.eventType.MediaReceived?)
        ==> !(e.HasKey() && e.Key() in messages))
    && (e.eventType.MediaReceived? ==> !(e.HasKey() && e.Key() in media))
  }

  lemma {:induction false} FilteredIsSurvival(e: BackupEvent, events: seq<BackupEvent>)
    ensures Filtered(e, DeletedMessages(events), DeletedConversations(events), DeletedMedia(events))
       <==> Survives(BackupRules(), e, events)
  {
    var rules := BackupRules();
    if !Survives(rules, e, events) && !IsTombstone(e) {
      var t :| t in events && Kills(rules, t, e);
      assert Supersedes(t, e);
    }
    if Survives(rules, e, events) {
      forall t | t in events && IsTombstone(t) ensures !Supersedes(t, e) {
        assert !Kills(rules, t, e);
      }
    }
  }

  /** Two passes: collect the tombstones, then filter. */
  method ApplyTombstones(events: seq<BackupEvent>) returns (survivors: seq<BackupEvent>)
    ensures survivors == Compact(BackupRules(), events)
  {
    var deletedMessages: set<MessageKey> := {};
    var deletedConversations: set<Uuid> := {};
    var deletedMedia: set<MessageKey> := {};
    for i := 0 to |events|
      invariant deletedMessages == DeletedMessages(events[..i])
      invariant deletedConversations == DeletedConversations(events[..i])
      invariant deletedMedia == DeletedMedia(events[..i])
    {
      var ev := events[i];
      assert events[..i + 1] == events[..i] + [ev];
      match ev.eventType {
        case MessageDeleted =>
          if ev.HasKey() { deletedMessages := deletedMessages + {ev.Key()}; }
        case ConversationDeleted =>
          if ev.conversationId.Some? { deletedConversations := deletedConversations + {ev.conversationId.value}; }
        case MediaDeleted =>
          if ev.HasKey() { deletedMedia := deletedMedia + {ev.Key()}; }
        case _ =>
      }
    }
    assert events[..|events|] == events;
    survivors := [];
    for i := 0 to |events|
      invariant survivors == Keep(BackupRules(), events[..i], events)
    {
      assert events[..i + 1][..i] == events[..i];
      FilteredIsSurvival(events[i], events);
      if Filtered(events[i], deletedMessages, deletedConversations, deletedMedia) {
        survivors := survivors + [events[i]];
      }
    }
  }

  // ------------------------------------------------------------------ ledgers of segments

  /** Swapping a run of segments for the one segment compaction makes of them leaves the replay of
      the whole ledger as it was, provided the group's tombstones come after everything they name
      in the group and name nothing that was still live before the group. */
  lemma {:induction false} CompactionPreservesReplay(before: seq<seq<BackupEvent>>, group: seq<seq<BackupEvent>>,
                                  after: seq<seq<BackupEvent>>)
    requires TombstonesComeLast(BackupRules(), Events(group))
    requires KillsStayInside(BackupRules(), Events(before), Events(group))
    ensures Replay(Events(before + group + after))
         == Replay(Events(before + [Compact(BackupRules(), Events(group))] + after))
  {
    MergedInPlace(before, group, after);
    SpliceIsExact(BackupRules(), Events(before), Events(group), Events(after));
    ReplayOfLive(Events(before + group + after));
    ReplayOfLive(Events(before + [Compact(BackupRules(), Events(group))] + after));
  }

  lemma {:induction false} MergedInPlace(before: seq<seq<BackupEvent>>, group: seq<seq<BackupEvent>>, after: seq<seq<BackupEvent>>)
    ensures Events(before + group + after) == Events(before) + Events(group) + Events(after)
    ensures var merged := Compact(BackupRules(), Events(group));
      Events(before + [merged] + after) == Events(before) + merged + Events(after)
  {
    var merged := [Compact(BackupRules(), Events(group))];
    EventsConcat(before + group, after);
    EventsConcat(before, group);
    EventsConcat(before + merged, after);
    EventsConcat(before, merged);
    assert merged[..0] == [] && Events(merged) == merged[0];
  }

  /** Inside any ledger, when the group repeats no earlier event: the live events survive the swap
      exactly when every event the pass wrongly drops or wrongly spares is one that the segments
      after the group delete anyway. */
  lemma {:induction false} CompactionExactlyWhen(before: seq<seq<BackupEvent>>, group: seq<seq<BackupEvent>>, after: seq<seq<BackupEvent>>)
    requires forall e | e in Events(before) :: e !in Events(group)
    ensures Live(BackupRules(), Events(before + group + after))
         == Live(BackupRules(), Events(before + [Compact(BackupRules(), Events(group))] + after))
       <==> && TombstonesComeLastFor(BackupRules(), Events(group), Events(after))
            && KillsStayInsideFor(BackupRules(), Events(before), Events(group), Events(after))
  {
    MergedInPlace(before, group, after);
    SpliceExactlyWhen(BackupRules(), Events(before), Events(group), Events(after));
  }

  /** Inside any ledger, with no premise: the swap leaves each live event as often as it was, exactly
      when every event that a tombstone of the group names, and that the segments after the group
      spare, is live as often before the group as in it. */
  lemma {:induction false} CompactionCountsExactlyWhen(before: seq<seq<BackupEvent>>, group: seq<seq<BackupEvent>>, after: seq<seq<BackupEvent>>)
    ensures var rules := BackupRules();
      multiset(Live(rules, Events(before + group + after))) == multiset(Live(rules, Events(before + [Compact(rules, Events(group))] + after)))
       <==> forall t, x | t in Events(group) && Kills(rules, t, x) && Survives(rules, x, Events(after)) ::
              multiset(Live(rules, Events(before)))[x] == multiset(Live(rules, Events(group)))[x]
  {
    MergedInPlace(before, group, after);
    SpliceCountsExactlyWhen(BackupRules(), Events(before), Events(group), Events(after));
  }

  /** For any ledger, any group in it and whatever segments follow: a reader cannot tell the swap
      exactly when, at every conversation, message and attachment that a tombstone of the group names
      and that the later segments neither delete nor set anew, the segments before the group and the
      group alone give the same value. */
  lemma {:induction false} ReplayExactlyWhen(before: seq<seq<BackupEvent>>, group: seq<seq<BackupEvent>>, after: seq<seq<BackupEvent>>)
    ensures Replay(Events(before + group + after)) == Replay(Events(before + [Compact(BackupRules(), Events(group))] + after))
       <==> forall p | Exposed(p, Events(group), Events(after)) :: At(Replay(Events(before)), p) == At(Replay(Events(group)), p)
  {
    MergedInPlace(before, group, after);
    ReplaySplicedExactlyWhen(Events(before), Events(group), Events(after));
  }

  /** A tombstone whose target sits in an older segment outside the group: compaction drops the
      tombstone, and the deleted message comes back. */
  lemma {:induction false} StrandedTombstoneResurrects(c: Uuid, m: Uuid)
    ensures var received := BackupEvent(MessageReceived, Some(c), Some(m), [], 1);
            var deleted := BackupEvent(MessageDeleted, Some(c), Some(m), [], 2);
            var k := MessageKey(c, m);
            && TombstonesComeLast(BackupRules(), [deleted])
            && k !in Replay([received] + [deleted]).messages
            && k in Replay([received] + Compact(BackupRules(), [deleted])).messages
  {
    var received := BackupEvent(MessageReceived, Some(c), Some(m), [], 1);
    var deleted := BackupEvent(MessageDeleted, Some(c), Some(m), [], 2);
    var l := [received, deleted];
    assert [received] + [deleted] == l && l[..1] == [received] && [received][..0] == [];
    assert Replay([received]) == Step(Replay([]), received);
    assert Replay(l) == Step(Replay(l[..1]), l[1]);
    assert [deleted][..0] == [];
    assert !Survives(BackupRules(), deleted, [deleted]);
    assert Keep(BackupRules(), [deleted], [deleted]) == Keep(BackupRules(), [deleted][..0], [deleted]);
    assert [received] + [] == [received];
  }

  /** An event after its own tombstone: the pass ignores the order and drops it as well. */
  lemma {:induction false} LateEventIsLost(c: Uuid)
    ensures var deleted := BackupEvent(ConversationDeleted, Some(c), None, [], 1);
            var created := BackupEvent(ConversationCreated, Some(c), None, [], 2);
            && KillsStayInside(BackupRules(), [], [deleted, created])
            && c in Replay([deleted, created]).conversations
            && c !in Replay(Compact(BackupRules(), [deleted, created])).conversations
  {
    var deleted := BackupEvent(ConversationDeleted, Some(c), None, [], 1);
    var created := BackupEvent(ConversationCreated, Some(c), None, [], 2);
    var l := [deleted, created];
    assert l[..1] == [deleted] && [deleted][..0] == [];
    assert Replay(l) == Step(Replay(l[..1]), created);
    assert l[0] in l && Kills(BackupRules(), l[0], created);
    assert Keep(BackupRules(), [deleted], l) == Keep(BackupRules(), [], l) == [];
    assert Compact(BackupRules(), l) == [];
  }
}
