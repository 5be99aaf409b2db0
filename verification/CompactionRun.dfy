/** One run of backup compaction over the ledger: plan, decrypt and merge every planned group, drop
    what tombstones name, retain the rest of the ledger and append the merged segments. Here the
    planner and the tombstone pass meet. */
module CompactionRun {
  import opened Foundations
  import opened Sequences
  import opened Tombstones
  import opened BackupEvents
  import opened CompactionPlanner
  import BackupCompaction

  /** A ledger row and the events sealed in its segment. */
  datatype Tracked = Tracked(ref: SegmentRef, events: seq<BackupEvent>)

  function RefsOf(ledger: seq<Tracked>): (r: seq<SegmentRef>)
    ensures |r| == |ledger| && forall i | 0 <= i < |ledger| :: r[i] == ledger[i].ref
  {
    seq(|ledger|, i requires 0 <= i < |ledger| => ledger[i].ref)
  }

  ghost predicate UniqueIds(ledger: seq<Tracked>) {
    forall i, j | 0 <= i < j < |ledger| :: ledger[i].ref.segmentId != ledger[j].ref.segmentId
  }

  /** All events of the ledger, end to end. */
  function LogOf(ledger: seq<Tracked>): seq<BackupEvent> {
    if ledger == [] then [] else LogOf(ledger[..|ledger| - 1]) + ledger[|ledger| - 1].events
  }

  /** The events of the first ledger row with that id. */
  function EventsOf(ledger: seq<Tracked>, id: Uuid): seq<BackupEvent> {
    if ledger == [] then []
    else if ledger[0].ref.segmentId == id then ledger[0].events
    else EventsOf(ledger[1..], id)
  }

  function Gather(ledger: seq<Tracked>, refs: seq<SegmentRef>): seq<BackupEvent> {
    if refs == [] then []
    else Gather(ledger, refs[..|refs| - 1]) + EventsOf(ledger, refs[|refs| - 1].segmentId)
  }

  ghost function Batches(ledger: seq<Tracked>, groups: seq<CompactionGroup>): seq<seq<BackupEvent>> {
    seq(|groups|, i requires 0 <= i < |groups| => Gather(ledger, groups[i].members))
  }

  function Kept(ledger: seq<Tracked>, gone: set<Uuid>): seq<Tracked> {
    if ledger == [] then []
    else
      var last := ledger[|ledger| - 1];
      Kept(ledger[..|ledger| - 1], gone) + if last.ref.segmentId in gone then [] else [last]
  }

  function Least(refs: seq<SegmentRef>): i64 {
    if refs == [] then I64_MAX
    else
      var m := Least(refs[..|refs| - 1]);
      if refs[|refs| - 1].minEventMs < m then refs[|refs| - 1].minEventMs else m
  }

  function Greatest(refs: seq<SegmentRef>): i64 {
    if refs == [] then I64_MIN
    else
      var m := Greatest(refs[..|refs| - 1]);
      if refs[|refs| - 1].maxEventMs > m then refs[|refs| - 1].maxEventMs else m
  }

  /** The span of the members: it holds the span of each, and both ends are taken from one of them. */
  lemma {:induction false} SpanIs(refs: seq<SegmentRef>)
    requires refs != []
    ensures forall r | r in refs :: Least(refs) <= r.minEventMs && r.maxEventMs <= Greatest(refs)
    ensures (exists r | r in refs :: r.minEventMs == Least(refs)) && (exists r | r in refs :: r.maxEventMs == Greatest(refs))
  {
    var front, last := refs[..|refs| - 1], refs[|refs| - 1];
    assert refs == front + [last] && last in refs;
    if front == [] {
      assert Least(front) == I64_MAX && Greatest(front) == I64_MIN;
    } else {
      SpanIs(front);
    }
  }

  /** The merged segment of a group, unless tombstones leave nothing of it. */
  function Merged(id: Uuid, group: CompactionGroup, survivors: seq<BackupEvent>): seq<Tracked> {
    if survivors == [] then []
    else [Tracked(SegmentRef(id, group.targetTier, Least(group.members), Greatest(group.members), |survivors|), survivors)]
  }

  ghost function MergedAll(ledger: seq<Tracked>, groups: seq<CompactionGroup>, ids: seq<Uuid>): seq<Tracked>
    requires |groups| <= |ids|
  {
    if groups == [] then []
    else
      var n := |groups| - 1;
      MergedAll(ledger, groups[..n], ids) + Merged(ids[n], groups[n], Compact(BackupRules(), Gather(ledger, groups[n].members)))
  }

  /** The ledger a run leaves. `ids` are the fresh ids, one for each planned group. */
  ghost function AfterRun(policy: CompactionPolicy, now: i64, ledger: seq<Tracked>, ids: seq<Uuid>): seq<Tracked>
    requires |PlanOf(policy, RefsOf(ledger), now)| <= |ids|
  {
    var groups := PlanOf(policy, RefsOf(ledger), now);
    Kept(ledger, Superseded(groups)) + MergedAll(ledger, groups, ids)
  }

  /** The ids of all planned members. */
  method SupersededIds(groups: seq<CompactionGroup>) returns (gone: set<Uuid>)
    ensures gone == Superseded(groups)
  {
    gone := {};
    for i := 0 to |groups|
      invariant gone == Superseded(groups[..i])
    {
      var members := groups[i].members;
      ghost var before := gone;
      for j := 0 to |members|
        invariant gone == before + set s | s in members[..j] :: s.segmentId
      {
        assert members[..j + 1] == members[..j] + [members[j]];
        gone := gone + {members[j].segmentId};
      }
      assert members[..|members|] == members && groups[..i + 1][..i] == groups[..i];
      SupersededGrows(groups[..i], groups[i]);
      assert groups[..i + 1] == groups[..i] + [groups[i]];
    }
    assert groups[..|groups|] == groups;
  }

  lemma {:induction false} SupersededGrows(groups: seq<CompactionGroup>, group: CompactionGroup)
    ensures Superseded(groups + [group]) == Superseded(groups) + set s | s in group.members :: s.segmentId
  {
    assert (groups + [group])[..|groups|] == groups;
    assert forall s :: s in group.members <==> s in multiset(group.members);
  }

  /** Decrypted members of one group, end to end, with the span they cover. */
  method MergeMembers(ledger: seq<Tracked>, members: seq<SegmentRef>) returns (events: seq<BackupEvent>, minMs: i64, maxMs: i64)
    ensures events == Gather(ledger, members) && minMs == Least(members) && maxMs == Greatest(members)
  {
    events, minMs, maxMs := [], I64_MAX, I64_MIN;
    for j := 0 to |members|
      invariant events == Gather(ledger, members[..j])
      invariant minMs == Least(members[..j]) && maxMs == Greatest(members[..j])
    {
      assert members[..j + 1][..j] == members[..j];
      if members[j].minEventMs < minMs { minMs := members[j].minEventMs; }
      if members[j].maxEventMs > maxMs { maxMs := members[j].maxEventMs; }
      events := events + EventsOf(ledger, members[j].segmentId);
    }
    assert members[..|members|] == members;
  }

  method CompactBackup(policy: CompactionPolicy, now: i64, ledger: seq<Tracked>, ids: seq<Uuid>) returns (after: seq<Tracked>)
    requires |PlanOf(policy, RefsOf(ledger), now)| <= |ids|
    ensures after == AfterRun(policy, now, ledger, ids)
  {
    var groups := Plan(policy, RefsOf(ledger), now);
    var gone := SupersededIds(groups);
    var outputs: seq<Tracked> := [];
    for i := 0 to |groups|
      invariant outputs == MergedAll(ledger, groups[..i], ids)
    {
      assert groups[..i + 1][..i] == groups[..i];
      var events, minMs, maxMs := MergeMembers(ledger, groups[i].members);
      var survivors := BackupCompaction.ApplyTombstones(events);
      if survivors == [] { continue; }
      outputs := outputs + [Tracked(SegmentRef(ids[i], groups[i].targetTier, minMs, maxMs, |survivors|), survivors)];
    }
    assert groups[..|groups|] == groups;
    after := Kept(ledger, gone) + outputs;
  }

  // ------------------------------------------------------------------ gathering

  lemma {:induction false} EventsAt(ledger: seq<Tracked>, i: nat)
    requires UniqueIds(ledger) && i < |ledger|
    ensures EventsOf(ledger, ledger[i].ref.segmentId) == ledger[i].events
  {
    if i == 0 {
    } else {
      EventsAt(ledger[1..], i - 1);
    }
  }

  lemma {:induction false} GatherConcat(ledger: seq<Tracked>, a: seq<SegmentRef>, b: seq<SegmentRef>)
    ensures Gather(ledger, a + b) == Gather(ledger, a) + Gather(ledger, b)
  {
    if b == [] {
      assert a + b == a;
    } else {
      var front := b[..|b| - 1];
      assert (a + b)[..|a + b| - 1] == a + front;
      GatherConcat(ledger, a, front);
      Regroup(Gather(ledger, a), Gather(ledger, front), EventsOf(ledger, b[|b| - 1].segmentId));
    }
  }

  /** Gathering along another order of the same rows gives the same events, each as often. */
  lemma {:induction false} GatherPermutes(ledger: seq<Tracked>, a: seq<SegmentRef>, b: seq<SegmentRef>)
    requires multiset(a) == multiset(b)
    ensures multiset(Gather(ledger, a)) == multiset(Gather(ledger, b))
    decreases |a|
  {
    assert |a| == |multiset(a)| == |multiset(b)| == |b|;
    if a == [] {
    } else {
      var front, last := a[..|a| - 1], a[|a| - 1];
      assert a == front + [last];
      assert last in multiset(b);
      var k :| 0 <= k < |b| && b[k] == last;
      var rest := b[..k] + b[k + 1..];
      assert b == b[..k] + [last] + b[k + 1..];
      assert multiset(rest) == multiset(b) - multiset{last} == multiset(front);
      GatherPermutes(ledger, front, rest);
      GatherWithout(ledger, b, k);
    }
  }

  lemma {:induction false} GatherWithout(ledger: seq<Tracked>, b: seq<SegmentRef>, k: nat)
    requires k < |b|
    ensures multiset(Gather(ledger, b)) == multiset(Gather(ledger, b[..k] + b[k + 1..])) + multiset(EventsOf(ledger, b[k].segmentId))
  {
    var front, back := b[..k], b[k + 1..];
    assert b[..k + 1][..k] == front && b == b[..k + 1] + back;
    GatherConcat(ledger, b[..k + 1], back);
    GatherConcat(ledger, front, back);
  }

  /** Gathering rows that are in the ledger yields their own events. */
  lemma {:induction false} GatherRows(ledger: seq<Tracked>, rows: seq<Tracked>)
    requires UniqueIds(ledger) && forall t | t in rows :: t in ledger
    ensures Gather(ledger, RefsOf(rows)) == LogOf(rows)
  {
    if rows == [] {
    } else {
      var front, last := rows[..|rows| - 1], rows[|rows| - 1];
      assert last in rows && forall t | t in front :: t in rows;
      GatherRows(ledger, front);
      var i :| 0 <= i < |ledger| && ledger[i] == last;
      EventsAt(ledger, i);
      assert RefsOf(rows)[..|rows| - 1] == RefsOf(front);
    }
  }

  lemma {:induction false} KeptRows(ledger: seq<Tracked>, gone: set<Uuid>)
    ensures forall t | t in Kept(ledger, gone) :: t in ledger
    ensures RefsOf(Kept(ledger, gone)) == Retain(RefsOf(ledger), gone)
  {
    if ledger == [] {
    } else {
      var front, last := ledger[..|ledger| - 1], ledger[|ledger| - 1];
      KeptRows(front, gone);
      assert ledger == front + [last];
      assert RefsOf(ledger)[..|ledger| - 1] == RefsOf(front);
      RefsConcat(Kept(front, gone), [last]);
      assert RefsOf([last]) == [last.ref];
    }
  }

  lemma {:induction false} RefsConcat(a: seq<Tracked>, b: seq<Tracked>)
    ensures RefsOf(a + b) == RefsOf(a) + RefsOf(b)
  {
  }

  ghost function AllMembers(groups: seq<CompactionGroup>): seq<SegmentRef> {
    if groups == [] then [] else AllMembers(groups[..|groups| - 1]) + groups[|groups| - 1].members
  }

  lemma {:induction false} GatherMembers(ledger: seq<Tracked>, groups: seq<CompactionGroup>)
    ensures multiset(AllMembers(groups)) == Members(groups)
    ensures Gather(ledger, AllMembers(groups)) == Events(Batches(ledger, groups))
  {
    if groups == [] {
    } else {
      var n := |groups| - 1;
      GatherMembers(ledger, groups[..n]);
      GatherConcat(ledger, AllMembers(groups[..n]), groups[n].members);
      assert Batches(ledger, groups)[..n] == Batches(ledger, groups[..n]);
    }
  }

  // ------------------------------------------------------------------ what a run leaves

  lemma {:induction false} LogConcat(a: seq<Tracked>, b: seq<Tracked>)
    ensures LogOf(a + b) == LogOf(a) + LogOf(b)
  {
    if b == [] {
      assert a + b == a;
    } else {
      var front := b[..|b| - 1];
      assert (a + b)[..|a + b| - 1] == a + front;
      LogConcat(a, front);
      Regroup(LogOf(a), LogOf(front), b[|b| - 1].events);
    }
  }

  lemma {:induction false} MergedLog(ledger: seq<Tracked>, groups: seq<CompactionGroup>, ids: seq<Uuid>)
    requires |groups| <= |ids|
    ensures LogOf(MergedAll(ledger, groups, ids)) == Events(CompactEach(BackupRules(), Batches(ledger, groups)))
  {
    if groups == [] {
    } else {
      var n := |groups| - 1;
      var survivors := Compact(BackupRules(), Gather(ledger, groups[n].members));
      var one := Merged(ids[n], groups[n], survivors);
      MergedLog(ledger, groups[..n], ids);
      LogConcat(MergedAll(ledger, groups[..n], ids), one);
      assert LogOf(one) == survivors by {
        if survivors != [] {
          assert one[..0] == [];
        }
      }
      var each := CompactEach(BackupRules(), Batches(ledger, groups));
      assert each[..n] == CompactEach(BackupRules(), Batches(ledger, groups[..n]));
    }
  }

  lemma {:induction false} UniqueIdsIdentify(ledger: seq<Tracked>)
    requires UniqueIds(ledger)
    ensures IdsIdentify(RefsOf(ledger))
  {
    var refs := RefsOf(ledger);
    forall a, b | a in refs && b in refs && a.segmentId == b.segmentId ensures a == b {
      var i :| 0 <= i < |refs| && refs[i] == a;
      var j :| 0 <= j < |refs| && refs[j] == b;
      assert ledger[i].ref == a && ledger[j].ref == b;
      assert i == j;
    }
  }

  /** What is retained and what the groups hold is the whole ledger. */
  lemma {:induction false} RunSplitsLog(policy: CompactionPolicy, now: i64, ledger: seq<Tracked>)
    requires UniqueIds(ledger)
    ensures var groups := PlanOf(policy, RefsOf(ledger), now);
      multiset(LogOf(Kept(ledger, Superseded(groups))) + Events(Batches(ledger, groups))) == multiset(LogOf(ledger))
  {
    var refs := RefsOf(ledger);
    var groups := PlanOf(policy, refs, now);
    var retained := Retain(refs, Superseded(groups));
    UniqueIdsIdentify(ledger);
    PlanSplitsLedger(policy, refs, now);
    GatherMembers(ledger, groups);
    GatherPermutes(ledger, retained + AllMembers(groups), refs);
    GatherConcat(ledger, retained, AllMembers(groups));
    GatherRows(ledger, ledger);
    KeptRows(ledger, Superseded(groups));
    GatherRows(ledger, Kept(ledger, Superseded(groups)));
  }

  /** A run executes its plan, in the planner's sense. */
  lemma {:induction false} RunIsExecuted(policy: CompactionPolicy, now: i64, ledger: seq<Tracked>, ids: seq<Uuid>)
    requires UniqueIds(ledger) && |PlanOf(policy, RefsOf(ledger), now)| <= |ids|
    ensures Executed(policy, now, RefsOf(ledger), RefsOf(AfterRun(policy, now, ledger, ids)))
  {
    var refs := RefsOf(ledger);
    var groups := PlanOf(policy, refs, now);
    var kept, merged := Kept(ledger, Superseded(groups)), MergedAll(ledger, groups, ids);
    KeptRows(ledger, Superseded(groups));
    MergedRefsAre(ledger, groups, ids);
    RefsConcat(kept, merged);
  }

  ghost function MergedRefs(ledger: seq<Tracked>, groups: seq<CompactionGroup>, ids: seq<Uuid>): seq<Option<SegmentRef>>
    requires |groups| <= |ids|
  {
    seq(|groups|, i requires 0 <= i < |groups| =>
      var one := Merged(ids[i], groups[i], Compact(BackupRules(), Gather(ledger, groups[i].members)));
      if one == [] then None else Some(one[0].ref))
  }

  lemma {:induction false} OneRef(one: seq<Tracked>, output: Option<SegmentRef>)
    requires |one| <= 1 && output == if one == [] then None else Some(one[0].ref)
    ensures RefsOf(one) == match output case None => [] case Some(r) => [r]
  {
  }

  lemma {:induction false} MergedRefsAre(ledger: seq<Tracked>, groups: seq<CompactionGroup>, ids: seq<Uuid>)
    requires |groups| <= |ids|
    ensures Outputs(groups, MergedRefs(ledger, groups, ids))
    ensures RefsOf(MergedAll(ledger, groups, ids)) == Emitted(MergedRefs(ledger, groups, ids))
  {
    if groups == [] {
    } else {
      var n := |groups| - 1;
      MergedRefsAre(ledger, groups[..n], ids);
      var outputs := MergedRefs(ledger, groups, ids);
      assert outputs[..n] == MergedRefs(ledger, groups[..n], ids);
      var one := Merged(ids[n], groups[n], Compact(BackupRules(), Gather(ledger, groups[n].members)));
      RefsConcat(MergedAll(ledger, groups[..n], ids), one);
      OneRef(one, outputs[n]);
    }
  }

  /** No tombstone that the planned groups hold names an event that would still be there after them. */
  ghost predicate RunIsSafe(policy: CompactionPolicy, now: i64, ledger: seq<Tracked>) {
    var groups := PlanOf(policy, RefsOf(ledger), now);
    var rest, batches := LogOf(Kept(ledger, Superseded(groups))), Batches(ledger, groups);
    forall x | Remains(BackupRules(), rest, batches, x) :: Survives(BackupRules(), x, Events(batches))
  }

  /** One run over any ledger, any number of planned groups, wherever their segments sit: a restore
      that drops what tombstones name sees the same events, each as often, exactly when the run is
      safe. */
  lemma {:induction false} RunKeepsEventsExactlyWhen(policy: CompactionPolicy, now: i64, ledger: seq<Tracked>, ids: seq<Uuid>)
    requires UniqueIds(ledger) && |PlanOf(policy, RefsOf(ledger), now)| <= |ids|
    ensures multiset(Compact(BackupRules(), LogOf(AfterRun(policy, now, ledger, ids)))) == multiset(Compact(BackupRules(), LogOf(ledger)))
       <==> RunIsSafe(policy, now, ledger)
  {
    var groups := PlanOf(policy, RefsOf(ledger), now);
    var kept, batches := Kept(ledger, Superseded(groups)), Batches(ledger, groups);
    LogConcat(kept, MergedAll(ledger, groups, ids));
    MergedLog(ledger, groups, ids);
    RunSplitsLog(policy, now, ledger);
    CompactIgnoresOrder(BackupRules(), LogOf(kept) + Events(batches), LogOf(ledger));
    AppendedExactlyWhen(BackupRules(), LogOf(kept), batches);
  }

  ghost predicate RunStep(policy: CompactionPolicy, now: i64, before: seq<Tracked>, after: seq<Tracked>) {
    && UniqueIds(before) && PlanOf(policy, RefsOf(before), now) != []
    && exists ids | |PlanOf(policy, RefsOf(before), now)| <= |ids| :: after == AfterRun(policy, now, before, ids)
  }

  lemma {:induction false} StepEffect(policy: CompactionPolicy, now: i64, before: seq<Tracked>, after: seq<Tracked>)
    requires RunStep(policy, now, before, after)
    ensures Weight(RefsOf(after)) < Weight(RefsOf(before))
    ensures RunIsSafe(policy, now, before) ==>
      multiset(Compact(BackupRules(), LogOf(after))) == multiset(Compact(BackupRules(), LogOf(before)))
  {
    var ids :| |PlanOf(policy, RefsOf(before), now)| <= |ids| && after == AfterRun(policy, now, before, ids);
    RunIsExecuted(policy, now, before, ids);
    ExecutionDropsWeight(policy, now, RefsOf(before), RefsOf(after));
    RunKeepsEventsExactlyWhen(policy, now, before, ids);
  }

  ghost predicate Runs(policy: CompactionPolicy, now: i64, ledgers: seq<seq<Tracked>>) {
    |ledgers| > 1 ==> RunStep(policy, now, ledgers[0], ledgers[1]) && Runs(policy, now, ledgers[1..])
  }

  ghost predicate AllSafe(policy: CompactionPolicy, now: i64, ledgers: seq<seq<Tracked>>) {
    |ledgers| > 1 ==> RunIsSafe(policy, now, ledgers[0]) && AllSafe(policy, now, ledgers[1..])
  }

  /** Running until nothing is left to plan: never more runs than the weight of the ledger, and when
      each run is safe, the events a restore sees are those of the first ledger. */
  lemma {:induction false} RunsEndAndKeepEvents(policy: CompactionPolicy, now: i64, ledgers: seq<seq<Tracked>>)
    requires ledgers != [] && Runs(policy, now, ledgers)
    ensures |ledgers| - 1 <= Weight(RefsOf(ledgers[0]))
    ensures AllSafe(policy, now, ledgers) ==>
      multiset(Compact(BackupRules(), LogOf(ledgers[|ledgers| - 1]))) == multiset(Compact(BackupRules(), LogOf(ledgers[0])))
  {
    if |ledgers| == 1 {
    } else {
      StepEffect(policy, now, ledgers[0], ledgers[1]);
      RunsEndAndKeepEvents(policy, now, ledgers[1..]);
    }
  }

  // ------------------------------------------------------------------ what every ledger of a run keeps

  /** The row counts its events, and its span holds them. */
  predicate RowOk(t: Tracked) {
    && t.ref.eventCount == |t.events|
    && forall e | e in t.events :: t.ref.minEventMs <= e.createdAtMs <= t.ref.maxEventMs
  }

  ghost predicate LedgerOk(ledger: seq<Tracked>) {
    UniqueIds(ledger) && forall t | t in ledger :: RowOk(t)
  }

  /** The ids drawn for the merged segments differ from each other and from those of the ledger. */
  ghost predicate FreshIds(ledger: seq<Tracked>, ids: seq<Uuid>) {
    && (forall i, j | 0 <= i < j < |ids| :: ids[i] != ids[j])
    && (forall t | t in ledger :: t.ref.segmentId !in ids)
  }

  lemma {:induction false} EventsOfRow(ledger: seq<Tracked>, id: Uuid, e: BackupEvent)
    requires e in EventsOf(ledger, id)
    ensures exists t | t in ledger :: t.ref.segmentId == id && e in t.events
  {
    if ledger[0].ref.segmentId == id {
    } else {
      EventsOfRow(ledger[1..], id, e);
    }
  }

  lemma {:induction false} RowInSpan(ledger: seq<Tracked>, r: SegmentRef, e: BackupEvent)
    requires LedgerOk(ledger) && r in RefsOf(ledger) && e in EventsOf(ledger, r.segmentId)
    ensures r.minEventMs <= e.createdAtMs <= r.maxEventMs
  {
    EventsOfRow(ledger, r.segmentId, e);
    var t :| t in ledger && t.ref.segmentId == r.segmentId && e in t.events;
    var i :| 0 <= i < |ledger| && RefsOf(ledger)[i] == r;
    var j :| 0 <= j < |ledger| && ledger[j] == t;
    assert i == j;
  }

  /** Every gathered event lies in the span of the rows it was gathered from. */
  lemma {:induction false} GatheredInSpan(ledger: seq<Tracked>, refs: seq<SegmentRef>, e: BackupEvent)
    requires LedgerOk(ledger) && (forall r | r in refs :: r in RefsOf(ledger)) && e in Gather(ledger, refs)
    ensures Least(refs) <= e.createdAtMs <= Greatest(refs)
  {
    var front, last := refs[..|refs| - 1], refs[|refs| - 1];
    assert last in refs && forall r | r in front :: r in refs;
    SpanIs(refs);
    if e in EventsOf(ledger, last.segmentId) {
      RowInSpan(ledger, last, e);
    } else {
      GatheredInSpan(ledger, front, e);
      SpanShrinks(front, last);
      assert refs == front + [last];
    }
  }

  lemma {:induction false} SpanShrinks(front: seq<SegmentRef>, last: SegmentRef)
    ensures Least(front + [last]) <= Least(front) && Greatest(front) <= Greatest(front + [last])
  {
    assert (front + [last])[..|front|] == front;
  }

  lemma {:induction false} MergedOk(ledger: seq<Tracked>, group: CompactionGroup, id: Uuid)
    requires LedgerOk(ledger) && forall r | r in group.members :: r in RefsOf(ledger)
    ensures forall t | t in Merged(id, group, Compact(BackupRules(), Gather(ledger, group.members))) ::
              RowOk(t) && t.ref.segmentId == id
  {
    var events := Gather(ledger, group.members);
    forall e | e in Compact(BackupRules(), events) ensures Least(group.members) <= e.createdAtMs <= Greatest(group.members) {
      KeepMember(BackupRules(), events, events, e);
      GatheredInSpan(ledger, group.members, e);
    }
  }

  lemma {:induction false} MergedAllOk(ledger: seq<Tracked>, groups: seq<CompactionGroup>, ids: seq<Uuid>)
    requires LedgerOk(ledger) && |groups| <= |ids| && forall i, j | 0 <= i < j < |ids| :: ids[i] != ids[j]
    requires forall g, r | g in groups && r in g.members :: r in RefsOf(ledger)
    ensures var merged := MergedAll(ledger, groups, ids);
      LedgerOk(merged) && forall t | t in merged :: t.ref.segmentId in ids[..|groups|]
  {
    if groups == [] {
    } else {
      var n := |groups| - 1;
      assert groups[n] in groups && forall g | g in groups[..n] :: g in groups;
      MergedAllOk(ledger, groups[..n], ids);
      MergedOk(ledger, groups[n], ids[n]);
      OneMore(MergedAll(ledger, groups[..n], ids),
              Merged(ids[n], groups[n], Compact(BackupRules(), Gather(ledger, groups[n].members))), ids, n);
    }
  }

  lemma {:induction false} OneMore(merged: seq<Tracked>, one: seq<Tracked>, ids: seq<Uuid>, n: nat)
    requires n < |ids| && (forall i, j | 0 <= i < j < |ids| :: ids[i] != ids[j])
    requires LedgerOk(merged) && forall t | t in merged :: t.ref.segmentId in ids[..n]
    requires |one| <= 1 && forall t | t in one :: RowOk(t) && t.ref.segmentId == ids[n]
    ensures LedgerOk(merged + one) && forall t | t in merged + one :: t.ref.segmentId in ids[..n + 1]
  {
    assert ids[..n + 1] == ids[..n] + [ids[n]];
    assert ids[n] !in ids[..n];
    UniqueIdsJoin(merged, one);
  }

  lemma {:induction false} UniqueIdsJoin(a: seq<Tracked>, b: seq<Tracked>)
    requires UniqueIds(a) && UniqueIds(b) && forall s, t | s in a && t in b :: s.ref.segmentId != t.ref.segmentId
    ensures UniqueIds(a + b)
  {
    var l := a + b;
    forall i, j | 0 <= i < j < |l| ensures l[i].ref.segmentId != l[j].ref.segmentId {
      if i < |a| <= j {
        assert l[i] in a && l[j] in b;
      }
    }
  }

  lemma {:induction false} KeptOk(ledger: seq<Tracked>, gone: set<Uuid>)
    requires UniqueIds(ledger)
    ensures UniqueIds(Kept(ledger, gone))
  {
    if ledger == [] {
    } else {
      var front, last := ledger[..|ledger| - 1], ledger[|ledger| - 1];
      KeptOk(front, gone);
      KeptRows(front, gone);
      if last.ref.segmentId !in gone {
        forall s, t | s in Kept(front, gone) && t in [last] ensures s.ref.segmentId != t.ref.segmentId {
          assert s in front;
        }
        UniqueIdsJoin(Kept(front, gone), [last]);
      }
    }
  }

  lemma {:induction false} MembersAreRows(policy: CompactionPolicy, now: i64, refs: seq<SegmentRef>, g: CompactionGroup, r: SegmentRef)
    requires g in PlanOf(policy, refs, now) && r in g.members
    ensures r in refs
  {
    PlanExactlyWhen(policy, refs, now);
  }

  /** With fresh ids, a run leaves a ledger whose ids are distinct, whose rows count their events and
      whose spans hold them, if it started from one. */
  lemma {:induction false} RunKeepsLedger(policy: CompactionPolicy, now: i64, ledger: seq<Tracked>, ids: seq<Uuid>)
    requires LedgerOk(ledger) && FreshIds(ledger, ids) && |PlanOf(policy, RefsOf(ledger), now)| <= |ids|
    ensures LedgerOk(AfterRun(policy, now, ledger, ids))
  {
    var groups := PlanOf(policy, RefsOf(ledger), now);
    var kept, merged := Kept(ledger, Superseded(groups)), MergedAll(ledger, groups, ids);
    forall g, r | g in groups && r in g.members ensures r in RefsOf(ledger) {
      MembersAreRows(policy, now, RefsOf(ledger), g, r);
    }
    MergedAllOk(ledger, groups, ids);
    KeptOk(ledger, Superseded(groups));
    KeptRows(ledger, Superseded(groups));
    forall s, t | s in kept && t in merged ensures s.ref.segmentId != t.ref.segmentId {
      assert t.ref.segmentId in ids;
    }
    UniqueIdsJoin(kept, merged);
  }
}
