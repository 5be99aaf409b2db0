/** A replayed log, one component at a time: whether a conversation is there, the body of a message,
    the media attached to it. Every event acts on each component separately, which says exactly when
    the compaction of a group is visible to a reader of the whole log. */
module ReplayComponents {
  import opened Foundations
  import opened Sequences
  import opened Tombstones
  import opened BackupEvents

  datatype Component = Conversation(id: Uuid) | Body(key: MessageKey) | Media(key: MessageKey)

  /** What the store holds at a component; a conversation that is there holds an empty history. */
  ghost function At(s: Store, p: Component): Option<seq<BackupEvent>> {
    match p
    case Conversation(c) => if c in s.conversations then Some([]) else None
    case Body(k) => if k in s.messages then Some(s.messages[k]) else None
    case Media(k) => if k in s.media then Some(s.media[k]) else None
  }

  predicate HasKeyOf(e: BackupEvent, k: MessageKey) {
    e.HasKey() && e.Key() == k
  }

  /** The event is a tombstone that clears the component. */
  predicate Names(e: BackupEvent, p: Component) {
    match p
    case Conversation(c) => e.eventType.ConversationDeleted? && e.conversationId == Some(c)
    case Body(k) =>
      || (e.eventType.ConversationDeleted? && e.conversationId == Some(k.conversation))
      || (e.eventType.MessageDeleted? && HasKeyOf(e, k))
    case Media(k) =>
      || (e.eventType.ConversationDeleted? && e.conversationId == Some(k.conversation))
      || ((e.eventType.MessageDeleted? || e.eventType.MediaDeleted?) && HasKeyOf(e, k))
  }

  /** The event gives the component a value that does not depend on the one before. */
  predicate Sets(e: BackupEvent, p: Component) {
    match p
    case Conversation(c) => e.eventType.ConversationCreated? && e.conversationId == Some(c)
    case Body(k) => e.eventType.MessageReceived? && HasKeyOf(e, k)
    case Media(_) => false
  }

  /** The event adds to the history the component holds. */
  predicate Adds(e: BackupEvent, p: Component) {
    match p
    case Conversation(_) => false
    case Body(k) => e.eventType.MessageEdited? && HasKeyOf(e, k)
    case Media(k) => e.eventType.MediaReceived? && HasKeyOf(e, k)
  }

  predicate Settles(e: BackupEvent, p: Component) {
    Names(e, p) || Sets(e, p)
  }

  ghost predicate NamedBy(p: Component, log: seq<BackupEvent>) {
    exists t | t in log :: Names(t, p)
  }

  ghost predicate SettledBy(p: Component, log: seq<BackupEvent>) {
    exists e | e in log :: Settles(e, p)
  }

  ghost function StepAt(v: Option<seq<BackupEvent>>, e: BackupEvent, p: Component): Option<seq<BackupEvent>> {
    if Names(e, p) then None
    else if Sets(e, p) then Some(if p.Conversation? then [] else [e])
    else if !Adds(e, p) then v
    else if v.Some? then Some(v.value + [e])
    else if p.Media? then Some([e])
    else None
  }

  ghost function FoldAt(v: Option<seq<BackupEvent>>, log: seq<BackupEvent>, p: Component): Option<seq<BackupEvent>> {
    if log == [] then v else StepAt(FoldAt(v, log[..|log| - 1], p), log[|log| - 1], p)
  }

  // ------------------------------------------------------------------ replay, component by component

  lemma {:induction false} StepIsPointwise(s: Store, e: BackupEvent, p: Component)
    ensures At(Step(s, e), p) == StepAt(At(s, p), e, p)
  {
    match p
    case Conversation(c) => StepAtConversation(s, e, c);
    case Body(k) => StepAtBody(s, e, k);
    case Media(k) => StepAtMedia(s, e, k);
  }

  lemma {:induction false} StepAtConversation(s: Store, e: BackupEvent, c: Uuid)
    ensures At(Step(s, e), Conversation(c)) == StepAt(At(s, Conversation(c)), e, Conversation(c))
  {
    var p := Conversation(c);
    assert Names(e, p) ==> c !in Step(s, e).conversations;
    assert Sets(e, p) ==> c in Step(s, e).conversations;
    assert !Names(e, p) && !Sets(e, p) ==> (c in Step(s, e).conversations <==> c in s.conversations);
  }

  lemma {:induction false} StepAtBody(s: Store, e: BackupEvent, k: MessageKey)
    ensures At(Step(s, e), Body(k)) == StepAt(At(s, Body(k)), e, Body(k))
  {
    var p := Body(k);
    assert Names(e, p) ==> k !in Step(s, e).messages;
    assert Sets(e, p) ==> k in Step(s, e).messages && Step(s, e).messages[k] == [e];
    assert Adds(e, p) ==> (k in Step(s, e).messages <==> k in s.messages);
    assert Adds(e, p) && k in s.messages ==> Step(s, e).messages[k] == s.messages[k] + [e];
    assert !Names(e, p) && !Sets(e, p) && !Adds(e, p) ==>
      && (k in Step(s, e).messages <==> k in s.messages)
      && (k in s.messages ==> Step(s, e).messages[k] == s.messages[k]);
  }

  lemma {:induction false} StepAtMedia(s: Store, e: BackupEvent, k: MessageKey)
    ensures At(Step(s, e), Media(k)) == StepAt(At(s, Media(k)), e, Media(k))
  {
    var p := Media(k);
    assert Names(e, p) ==> k !in Step(s, e).media;
    assert [] + [e] == [e];
    assert Adds(e, p) ==> k in Step(s, e).media && Step(s, e).media[k] == (if k in s.media then s.media[k] else []) + [e];
    assert !Names(e, p) && !Adds(e, p) ==>
      && (k in Step(s, e).media <==> k in s.media)
      && (k in s.media ==> Step(s, e).media[k] == s.media[k]);
  }

  lemma {:induction false} ReplayIsPointwise(log: seq<BackupEvent>, p: Component)
    ensures At(Replay(log), p) == FoldAt(None, log, p)
  {
    if log == [] {
    } else {
      ReplayIsPointwise(log[..|log| - 1], p);
      StepIsPointwise(Replay(log[..|log| - 1]), log[|log| - 1], p);
    }
  }

  lemma {:induction false} StoresAgree(a: Store, b: Store)
    ensures a == b <==> forall p :: At(a, p) == At(b, p)
  {
    if forall p :: At(a, p) == At(b, p) {
      forall c: Uuid ensures c in a.conversations <==> c in b.conversations {
        assert At(a, Conversation(c)) == At(b, Conversation(c));
      }
      assert a.conversations == b.conversations;
      forall k: MessageKey
        ensures k in a.messages <==> k in b.messages
        ensures k in a.messages ==> a.messages[k] == b.messages[k]
        ensures k in a.media <==> k in b.media
        ensures k in a.media ==> a.media[k] == b.media[k]
      {
        assert At(a, Body(k)) == At(b, Body(k)) && At(a, Media(k)) == At(b, Media(k));
      }
      assert a.messages == b.messages && a.media == b.media;
    }
  }

  lemma {:induction false} FoldConcat(v: Option<seq<BackupEvent>>, a: seq<BackupEvent>, b: seq<BackupEvent>, p: Component)
    ensures FoldAt(v, a + b, p) == FoldAt(FoldAt(v, a, p), b, p)
  {
    if b == [] {
      assert a + b == a;
    } else {
      var front, last := b[..|b| - 1], b[|b| - 1];
      assert (a + b)[..|a + b| - 1] == a + front && (a + b)[|a + b| - 1] == last;
      FoldConcat(v, a, front, p);
    }
  }

  /** Media that is there was received. */
  lemma {:induction false} MediaIsNotEmpty(v: Option<seq<BackupEvent>>, log: seq<BackupEvent>, p: Component)
    requires p.Media? && v != Some([])
    ensures FoldAt(v, log, p) != Some([])
  {
    if log == [] {
    } else {
      MediaIsNotEmpty(v, log[..|log| - 1], p);
    }
  }

  /** Two values of a component stay apart exactly as long as nothing settles it. */
  lemma {:induction false} ApartExactlyWhen(v: Option<seq<BackupEvent>>, w: Option<seq<BackupEvent>>, log: seq<BackupEvent>, p: Component)
    requires p.Media? ==> v != Some([]) && w != Some([])
    ensures FoldAt(v, log, p) == FoldAt(w, log, p) <==> v == w || SettledBy(p, log)
  {
    if log == [] {
    } else {
      var front, last := log[..|log| - 1], log[|log| - 1];
      assert log == front + [last];
      ApartExactlyWhen(v, w, front, p);
      if p.Media? {
        MediaIsNotEmpty(v, front, p);
        MediaIsNotEmpty(w, front, p);
      }
      StepApart(FoldAt(v, front, p), FoldAt(w, front, p), last, p);
      assert SettledBy(p, log) <==> SettledBy(p, front) || Settles(last, p);
    }
  }

  lemma {:induction false} StepApart(v: Option<seq<BackupEvent>>, w: Option<seq<BackupEvent>>, e: BackupEvent, p: Component)
    requires p.Media? ==> v != Some([]) && w != Some([])
    ensures StepAt(v, e, p) == StepAt(w, e, p) <==> v == w || Settles(e, p)
  {
    if !Settles(e, p) && Adds(e, p) {
      var x, y := if v.Some? then v.value else [], if w.Some? then w.value else [];
      assert x + [e] == y + [e] <==> x == y by {
        assert (x + [e])[..|x + [e]| - 1] == x && (y + [e])[..|y + [e]| - 1] == y;
      }
    }
  }

  // ------------------------------------------------------------------ compaction, component by component

  /** For an event that acts on a component, being named by a tombstone is having the component named. */
  lemma {:induction false} KillsAreNames(t: BackupEvent, e: BackupEvent, p: Component)
    requires Sets(e, p) || Adds(e, p)
    ensures Kills(BackupRules(), t, e) <==> Names(t, p)
  {
  }

  lemma {:induction false} NamesAreTombstones(e: BackupEvent, p: Component)
    ensures Names(e, p) ==> IsTombstone(e)
    ensures Sets(e, p) || Adds(e, p) ==> !IsTombstone(e)
  {
  }

  /** What the survivors of a group do to a component: nothing when one of the tombstones names it,
      and what the group does when none does. */
  lemma {:induction false} KeepAt(v: Option<seq<BackupEvent>>, group: seq<BackupEvent>, kills: seq<BackupEvent>, p: Component)
    requires forall t | t in group :: t in kills
    ensures FoldAt(v, Keep(BackupRules(), group, kills), p) == if NamedBy(p, kills) then v else FoldAt(v, group, p)
  {
    if group == [] {
    } else {
      var front, last := group[..|group| - 1], group[|group| - 1];
      assert last in group && forall t | t in front :: t in group;
      KeepAt(v, front, kills, p);
      NamesAreTombstones(last, p);
      if Sets(last, p) || Adds(last, p) {
        forall t ensures Kills(BackupRules(), t, last) <==> Names(t, p) {
          KillsAreNames(t, last, p);
        }
      }
      var kept := Keep(BackupRules(), front, kills);
      if Survives(BackupRules(), last, kills) {
        assert (kept + [last])[..|kept|] == kept;
      }
    }
  }

  /** A component the group names has after it the value the group alone gives it. */
  lemma {:induction false} NamedIsOverwritten(v: Option<seq<BackupEvent>>, group: seq<BackupEvent>, p: Component)
    requires NamedBy(p, group)
    ensures FoldAt(v, group, p) == FoldAt(None, group, p)
  {
    var front, last := group[..|group| - 1], group[|group| - 1];
    assert group == front + [last];
    if Names(last, p) {
    } else {
      NamedIsOverwritten(v, front, p);
    }
  }

  /** The group's tombstones name the component, and nothing that follows settles it. */
  ghost predicate Exposed(p: Component, group: seq<BackupEvent>, after: seq<BackupEvent>) {
    NamedBy(p, group) && !SettledBy(p, after)
  }

  lemma {:induction false} SpliceAtExactlyWhen(before: seq<BackupEvent>, group: seq<BackupEvent>, after: seq<BackupEvent>, p: Component)
    ensures At(Replay(before + group + after), p) == At(Replay(before + Compact(BackupRules(), group) + after), p)
       <==> (Exposed(p, group, after) ==> At(Replay(before), p) == At(Replay(group), p))
  {
    var merged := Compact(BackupRules(), group);
    var v := FoldAt(None, before, p);
    ReplayIsPointwise(before + group + after, p);
    ReplayIsPointwise(before + merged + after, p);
    ReplayIsPointwise(before, p);
    ReplayIsPointwise(group, p);
    FoldConcat(None, before + group, after, p);
    FoldConcat(None, before, group, p);
    FoldConcat(None, before + merged, after, p);
    FoldConcat(None, before, merged, p);
    KeepAt(v, group, group, p);
    if NamedBy(p, group) {
      NamedIsOverwritten(v, group, p);
    }
    if p.Media? {
      MediaIsNotEmpty(None, before, p);
      MediaIsNotEmpty(v, group, p);
    }
    ApartExactlyWhen(FoldAt(v, group, p), FoldAt(v, merged, p), after, p);
  }

  /** For any log, any group in it and whatever follows: a reader cannot tell that the group was
      compacted exactly when, at every component that the group's tombstones name and that nothing
      after the group settles, the log before the group and the group alone give the same value. */
  lemma {:induction false} ReplaySplicedExactlyWhen(before: seq<BackupEvent>, group: seq<BackupEvent>, after: seq<BackupEvent>)
    ensures Replay(before + group + after) == Replay(before + Compact(BackupRules(), group) + after)
       <==> forall p | Exposed(p, group, after) :: At(Replay(before), p) == At(Replay(group), p)
  {
    var a, b := Replay(before + group + after), Replay(before + Compact(BackupRules(), group) + after);
    StoresAgree(a, b);
    forall p ensures At(a, p) == At(b, p) <==> (Exposed(p, group, after) ==> At(Replay(before), p) == At(Replay(group), p)) {
      SpliceAtExactlyWhen(before, group, after, p);
    }
  }
}
