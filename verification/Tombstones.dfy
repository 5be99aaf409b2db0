/** What a tombstone does to a log, independently of the event type that carries it.

    `Compact` is the rule both compaction passes implement: drop every tombstone, and drop every
    event that some tombstone of the same batch names, wherever that tombstone stands. `Live` is
    the rule the documentation gives: a tombstone supersedes the *earlier* events it names. The
    lemmas say exactly when the two agree, alone and inside a longer log. */
module Tombstones {
  import opened Sequences

  datatype Rules<!E> = Rules(isTombstone: E -> bool, supersedes: (E, E) -> bool)

  ghost predicate Kills<E>(rules: Rules<E>, t: E, e: E) {
    rules.isTombstone(t) && rules.supersedes(t, e)
  }

  ghost predicate Survives<E>(rules: Rules<E>, e: E, kills: seq<E>) {
    !rules.isTombstone(e) && forall t | t in kills :: !Kills(rules, t, e)
  }

  /** The events that are no tombstones and that no tombstone of `kills` names, in order. */
  ghost function Keep<E>(rules: Rules<E>, events: seq<E>, kills: seq<E>): seq<E> {
    if events == [] then []
    else
      var rest := Keep(rules, events[..|events| - 1], kills);
      var e := events[|events| - 1];
      if Survives(rules, e, kills) then rest + [e] else rest
  }

  ghost function Compact<E>(rules: Rules<E>, events: seq<E>): seq<E> {
    Keep(rules, events, events)
  }

  /** The events still standing after the log has been read from left to right. */
  ghost function Live<E>(rules: Rules<E>, log: seq<E>): seq<E> {
    if log == [] then []
    else
      var before := Live(rules, log[..|log| - 1]);
      var e := log[|log| - 1];
      if rules.isTombstone(e) then Keep(rules, before, [e]) else before + [e]
  }

  // ------------------------------------------------------------------ algebra of Keep

  lemma {:induction false} KeepConcat<E>(rules: Rules<E>, a: seq<E>, b: seq<E>, kills: seq<E>)
    ensures Keep(rules, a + b, kills) == Keep(rules, a, kills) + Keep(rules, b, kills)
  {
    if b == [] {
      assert a + b == a;
    } else {
      var b' := b[..|b| - 1];
      assert (a + b)[..|a + b| - 1] == a + b';
      KeepConcat(rules, a, b', kills);
    }
  }

  lemma {:induction false} KeepMember<E>(rules: Rules<E>, events: seq<E>, kills: seq<E>, x: E)
    ensures x in Keep(rules, events, kills) <==> x in events && Survives(rules, x, kills)
  {
    if events == [] {
    } else {
      var front := events[..|events| - 1];
      assert events == front + [events[|events| - 1]];
      KeepMember(rules, front, kills, x);
    }
  }

  lemma {:induction false} KeepShrinks<E>(rules: Rules<E>, events: seq<E>, kills: seq<E>)
    ensures |Keep(rules, events, kills)| <= |events|
    ensures |Keep(rules, events, kills)| == |events| ==> Keep(rules, events, kills) == events
    ensures Keep(rules, events, kills) == events <==> forall x | x in events :: Survives(rules, x, kills)
  {
    if events == [] {
    } else {
      var front := events[..|events| - 1];
      var last := events[|events| - 1];
      assert events == front + [last];
      KeepShrinks(rules, front, kills);
      if Keep(rules, events, kills) == events {
        assert |Keep(rules, front, kills)| == |front|;
      }
    }
  }

  lemma {:induction false} KeepTwice<E>(rules: Rules<E>, events: seq<E>, k1: seq<E>, k2: seq<E>)
    ensures Keep(rules, Keep(rules, events, k1), k2) == Keep(rules, events, k1 + k2)
  {
    if events == [] {
    } else {
      var front := events[..|events| - 1];
      var last := events[|events| - 1];
      KeepTwice(rules, front, k1, k2);
      var kept := Keep(rules, front, k1);
      assert Survives(rules, last, k1 + k2) <==> Survives(rules, last, k1) && Survives(rules, last, k2);
      if Survives(rules, last, k1) {
        assert (kept + [last])[..|kept|] == kept;
      }
    }
  }

  /** Only the tombstones of `kills` matter, and only as a set. */
  lemma {:induction false} KeepSameKills<E>(rules: Rules<E>, events: seq<E>, k1: seq<E>, k2: seq<E>)
    requires forall t | rules.isTombstone(t) :: t in k1 <==> t in k2
    ensures Keep(rules, events, k1) == Keep(rules, events, k2)
  {
    if events == [] {
    } else {
      KeepSameKills(rules, events[..|events| - 1], k1, k2);
    }
  }

  // ------------------------------------------------------------------ what Live means

  lemma {:induction false} LiveHasNoTombstone<E>(rules: Rules<E>, log: seq<E>)
    ensures forall x | x in Live(rules, log) :: !rules.isTombstone(x)
  {
    if log == [] {
    } else {
      var before := log[..|log| - 1];
      LiveHasNoTombstone(rules, before);
      forall x | x in Live(rules, log) ensures !rules.isTombstone(x) {
        KeepMember(rules, Live(rules, before), [log[|log| - 1]], x);
      }
    }
  }

  /** Position `i` holds an event no later tombstone of the log names. */
  ghost predicate Stands<E>(rules: Rules<E>, log: seq<E>, i: int)
    requires 0 <= i < |log|
  {
    !rules.isTombstone(log[i]) && forall k | i < k < |log| :: !Kills(rules, log[k], log[i])
  }

  /** `Live` agrees with the positional reading of "a tombstone supersedes earlier events". */
  lemma {:induction false} LiveIsStanding<E>(rules: Rules<E>, log: seq<E>, x: E)
    ensures x in Live(rules, log) <==> exists i :: 0 <= i < |log| && log[i] == x && Stands(rules, log, i)
  {
    if log == [] {
    } else {
      var n := |log| - 1;
      var before, e := log[..n], log[n];
      LiveIsStanding(rules, before, x);
      KeepMember(rules, Live(rules, before), [e], x);
      LiveHasNoTombstone(rules, before);
      if x in Live(rules, log) {
        if x == e && !rules.isTombstone(e) {
          assert Stands(rules, log, n);
        } else {
          var i :| 0 <= i < |before| && before[i] == x && Stands(rules, before, i);
          assert !Kills(rules, e, x);
          assert forall k | i < k < n :: before[k] == log[k];
          assert Stands(rules, log, i);
        }
      }
      if i :| 0 <= i < |log| && log[i] == x && Stands(rules, log, i) {
        if i < n {
          assert forall k | i < k < n :: before[k] == log[k];
          assert before[i] == x && Stands(rules, before, i);
        }
      }
    }
  }

  lemma {:induction false} LiveComesFromLog<E>(rules: Rules<E>, log: seq<E>, x: E)
    ensures x in Live(rules, log) ==> x in log
  {
    LiveIsStanding(rules, log, x);
  }

  /** Reading `a` then `b` keeps of `a` what `b` does not kill. */
  lemma {:induction false} LiveConcat<E>(rules: Rules<E>, a: seq<E>, b: seq<E>)
    ensures Live(rules, a + b) == Keep(rules, Live(rules, a), b) + Live(rules, b)
  {
    var la := Live(rules, a);
    LiveHasNoTombstone(rules, a);
    if b == [] {
      assert a + b == a;
      KeepShrinks(rules, la, b);
    } else {
      var b', e := b[..|b| - 1], b[|b| - 1];
      assert (a + b)[..|a + b| - 1] == a + b';
      assert b == b' + [e];
      LiveConcat(rules, a, b');
      if rules.isTombstone(e) {
        KeepConcat(rules, Keep(rules, la, b'), Live(rules, b'), [e]);
        KeepTwice(rules, la, b', [e]);
      } else {
        KeepSameKills(rules, la, b', b);
      }
    }
  }

  /** What compaction keeps is what is live, minus the events a tombstone of the batch names. */
  lemma {:induction false} KeepOfLive<E>(rules: Rules<E>, log: seq<E>, kills: seq<E>)
    requires forall t | t in log :: t in kills
    ensures Keep(rules, log, kills) == Keep(rules, Live(rules, log), kills)
  {
    if log == [] {
    } else {
      var before, e := log[..|log| - 1], log[|log| - 1];
      assert log == before + [e];
      KeepOfLive(rules, before, kills);
      if rules.isTombstone(e) {
        KeepTwice(rules, Live(rules, before), [e], kills);
        KeepSameKills(rules, Live(rules, before), [e] + kills, kills);
      } else {
        KeepConcat(rules, Live(rules, before), [e], kills);
        KeepConcat(rules, before, [e], kills);
      }
    }
  }

  // ------------------------------------------------------------------ when compaction is exact

  /** No tombstone of the group names an event after it that the group leaves standing. */
  ghost predicate TombstonesComeLast<E>(rules: Rules<E>, group: seq<E>) {
    forall i, j | 0 <= i < j < |group| && Kills(rules, group[i], group[j]) :: !Stands(rules, group, j)
  }

  /** No tombstone of the group names an event that the log before the group leaves standing. */
  ghost predicate KillsStayInside<E>(rules: Rules<E>, before: seq<E>, group: seq<E>) {
    forall i, t | 0 <= i < |before| && t in group && Kills(rules, t, before[i]) :: !Stands(rules, before, i)
  }

  lemma {:induction false} CompactIsLive<E>(rules: Rules<E>, group: seq<E>)
    ensures Compact(rules, group) == Live(rules, group) <==> TombstonesComeLast(rules, group)
  {
    var live := Live(rules, group);
    KeepOfLive(rules, group, group);
    KeepShrinks(rules, live, group);
    LiveHasNoTombstone(rules, group);
    if TombstonesComeLast(rules, group) {
      forall x | x in live ensures Survives(rules, x, group) {
        LiveIsStanding(rules, group, x);
        var j :| 0 <= j < |group| && group[j] == x && Stands(rules, group, j);
        forall t | t in group ensures !Kills(rules, t, x) {
          var i :| 0 <= i < |group| && group[i] == t;
          assert i == j ==> !rules.isTombstone(t);
        }
      }
    }
    if Compact(rules, group) == live {
      forall i, j | 0 <= i < j < |group| && Kills(rules, group[i], group[j])
        ensures !Stands(rules, group, j)
      {
        LiveIsStanding(rules, group, group[j]);
        assert group[i] in group;
      }
    }
  }

  lemma {:induction false} PrefixUntouched<E>(rules: Rules<E>, before: seq<E>, group: seq<E>)
    ensures Keep(rules, Live(rules, before), group) == Live(rules, before)
       <==> KillsStayInside(rules, before, group)
  {
    var live := Live(rules, before);
    KeepShrinks(rules, live, group);
    LiveHasNoTombstone(rules, before);
    if KillsStayInside(rules, before, group) {
      forall x | x in live ensures Survives(rules, x, group) {
        LiveIsStanding(rules, before, x);
      }
    } else {
      var i, t :| 0 <= i < |before| && t in group && Kills(rules, t, before[i]) && Stands(rules, before, i);
      LiveIsStanding(rules, before, before[i]);
      assert before[i] in live && !Survives(rules, before[i], group);
    }
  }

  /** Replacing a group by its compaction inside a ledger, whatever follows it. */
  lemma {:induction false} SpliceIsExact<E>(rules: Rules<E>, before: seq<E>, group: seq<E>, after: seq<E>)
    requires TombstonesComeLast(rules, group) && KillsStayInside(rules, before, group)
    ensures Live(rules, before + group + after) == Live(rules, before + Compact(rules, group) + after)
  {
    var merged := Compact(rules, group);
    CompactIsLive(rules, group);
    PrefixUntouched(rules, before, group);
    LiveConcat(rules, before + group, after);
    LiveConcat(rules, before + merged, after);
    LiveConcat(rules, before, group);
    LiveConcat(rules, before, merged);
    CompactHasNoTombstone(rules, group);
    LiveHasNoTombstone(rules, before);
    KeepShrinks(rules, Live(rules, before), merged);
    LiveOfTombstoneFree(rules, merged);
  }

  /** As `TombstonesComeLast`, for the events that what follows the group spares. */
  ghost predicate TombstonesComeLastFor<E>(rules: Rules<E>, group: seq<E>, after: seq<E>) {
    forall j, t | 0 <= j < |group| && t in group && Kills(rules, t, group[j]) && Survives(rules, group[j], after) ::
      !Stands(rules, group, j)
  }

  /** As `KillsStayInside`, for the events that what follows the group spares. */
  ghost predicate KillsStayInsideFor<E>(rules: Rules<E>, before: seq<E>, group: seq<E>, after: seq<E>) {
    forall i, t | 0 <= i < |before| && t in group && Kills(rules, t, before[i]) && Survives(rules, before[i], after) ::
      !Stands(rules, before, i)
  }

  /** A log in three parts is what each part keeps once the later parts have been read. */
  lemma {:induction false} LiveOfThree<E>(rules: Rules<E>, a: seq<E>, b: seq<E>, c: seq<E>)
    ensures Live(rules, a + b + c)
         == Keep(rules, Keep(rules, Live(rules, a), b), c) + Keep(rules, Live(rules, b), c) + Live(rules, c)
  {
    LiveConcat(rules, a + b, c);
    LiveConcat(rules, a, b);
    KeepConcat(rules, Keep(rules, Live(rules, a), b), Live(rules, b), c);
  }

  lemma {:induction false} KeepCommutes<E>(rules: Rules<E>, events: seq<E>, k1: seq<E>, k2: seq<E>)
    ensures Keep(rules, Keep(rules, events, k1), k2) == Keep(rules, Keep(rules, events, k2), k1)
  {
    KeepTwice(rules, events, k1, k2);
    KeepTwice(rules, events, k2, k1);
    KeepSameKills(rules, events, k1 + k2, k2 + k1);
  }

  /** What is dropped from the front of a list cannot be made up for by what comes from elsewhere. */
  lemma {:induction false} NothingShifted<E>(a1: seq<E>, b1: seq<E>, a2: seq<E>, b2: seq<E>)
    requires |a1| <= |a2| && forall x | x in a2 :: x !in b1
    ensures a1 + b1 == a2 + b2 <==> a1 == a2 && b1 == b2
  {
    forall i, j | 0 <= i < |a2| && 0 <= j < |b1| ensures a2[i] != b1[j] {
      assert a2[i] in a2 && b1[j] in b1;
    }
    if a1 + b1 == a2 + b2 {
      var l := a1 + b1;
      assert |l| == |a2| + |b2| && forall i | 0 <= i < |a2| :: l[i] == a2[i];
      assert |a1| < |l| ==> l[|a1|] == b1[0];
      assert |a1| == |a2|;
      assert a1 == l[..|a1|] && a2 == l[..|a1|] && b1 == l[|a1|..] && b2 == l[|a1|..];
    }
  }

  /** The live events of `before` that `after` spares all survive the group. */
  lemma {:induction false} PrefixSparedExactlyWhen<E>(rules: Rules<E>, before: seq<E>, group: seq<E>, after: seq<E>)
    ensures Keep(rules, Keep(rules, Live(rules, before), group), after) == Keep(rules, Live(rules, before), after)
       <==> KillsStayInsideFor(rules, before, group, after)
  {
    var spared := Keep(rules, Live(rules, before), after);
    KeepCommutes(rules, Live(rules, before), group, after);
    KeepShrinks(rules, spared, group);
    LiveHasNoTombstone(rules, before);
    if KillsStayInsideFor(rules, before, group, after) {
      forall x | x in spared ensures Survives(rules, x, group) {
        KeepMember(rules, Live(rules, before), after, x);
        LiveIsStanding(rules, before, x);
      }
    } else {
      var i, t :| 0 <= i < |before| && t in group && Kills(rules, t, before[i]) && Survives(rules, before[i], after) && Stands(rules, before, i);
      LiveIsStanding(rules, before, before[i]);
      KeepMember(rules, Live(rules, before), after, before[i]);
      assert !Survives(rules, before[i], group);
    }
  }

  /** The live events of the group that `after` spares all survive the compaction of the group. */
  lemma {:induction false} GroupSparedExactlyWhen<E>(rules: Rules<E>, group: seq<E>, after: seq<E>)
    ensures |Keep(rules, Compact(rules, group), after)| <= |Keep(rules, Live(rules, group), after)|
    ensures Keep(rules, Live(rules, group), after) == Keep(rules, Compact(rules, group), after)
       <==> TombstonesComeLastFor(rules, group, after)
  {
    var spared := Keep(rules, Live(rules, group), after);
    KeepOfLive(rules, group, group);
    KeepCommutes(rules, Live(rules, group), group, after);
    KeepShrinks(rules, spared, group);
    LiveHasNoTombstone(rules, group);
    if TombstonesComeLastFor(rules, group, after) {
      forall x | x in spared ensures Survives(rules, x, group) {
        KeepMember(rules, Live(rules, group), after, x);
        LiveIsStanding(rules, group, x);
      }
    } else {
      var j, t :| 0 <= j < |group| && t in group && Kills(rules, t, group[j]) && Survives(rules, group[j], after) && Stands(rules, group, j);
      LiveIsStanding(rules, group, group[j]);
      KeepMember(rules, Live(rules, group), after, group[j]);
      assert !Survives(rules, group[j], group);
    }
  }

  /** In the middle of any log, when the group repeats no earlier event: the splice is invisible
      exactly when every event it would wrongly drop or wrongly spare is one the rest of the log
      deletes anyway. */
  lemma {:induction false} SpliceExactlyWhen<E>(rules: Rules<E>, before: seq<E>, group: seq<E>, after: seq<E>)
    requires forall e | e in before :: e !in group
    ensures Live(rules, before + group + after) == Live(rules, before + Compact(rules, group) + after)
       <==> TombstonesComeLastFor(rules, group, after) && KillsStayInsideFor(rules, before, group, after)
  {
    var lb, lg, merged := Live(rules, before), Live(rules, group), Compact(rules, group);
    LiveOfThree(rules, before, group, after);
    LiveOfThree(rules, before, merged, after);
    CompactHasNoTombstone(rules, group);
    LiveHasNoTombstone(rules, before);
    KeepShrinks(rules, lb, merged);
    LiveOfTombstoneFree(rules, merged);
    PrefixSparedExactlyWhen(rules, before, group, after);
    GroupSparedExactlyWhen(rules, group, after);
    var a1, b1 := Keep(rules, Keep(rules, lb, group), after), Keep(rules, lg, after);
    var a2, b2 := Keep(rules, lb, after), Keep(rules, merged, after);
    KeepCommutes(rules, lb, group, after);
    KeepShrinks(rules, a2, group);
    forall x | x in a2 ensures x !in b1 {
      KeepMember(rules, lb, after, x);
      KeepMember(rules, lg, after, x);
      LiveComesFromLog(rules, before, x);
      LiveComesFromLog(rules, group, x);
    }
    NothingShifted(a1, b1, a2, b2);
    var tail := Live(rules, after);
    if a1 + b1 + tail == a2 + b2 + tail {
      SuffixCancels(a1 + b1, a2 + b2, tail);
    }
  }

  lemma {:induction false} SuffixCancels<E>(a: seq<E>, b: seq<E>, tail: seq<E>)
    requires a + tail == b + tail
    ensures a == b
  {
    assert |a + tail| == |b + tail|;
    assert a == (a + tail)[..|a|] && b == (b + tail)[..|a|];
  }

  lemma {:induction false} CompactHasNoTombstone<E>(rules: Rules<E>, group: seq<E>)
    ensures forall x | x in Compact(rules, group) :: !rules.isTombstone(x)
  {
    forall x | x in Compact(rules, group) ensures !rules.isTombstone(x) {
      KeepMember(rules, group, group, x);
    }
  }

  lemma {:induction false} LiveOfTombstoneFree<E>(rules: Rules<E>, log: seq<E>)
    requires forall x | x in log :: !rules.isTombstone(x)
    ensures Live(rules, log) == log
  {
    if log == [] {
    } else {
      var front := log[..|log| - 1];
      assert forall x | x in front :: x in log;
      LiveOfTombstoneFree(rules, front);
      assert log == front + [log[|log| - 1]];
    }
  }

  // ------------------------------------------------------------------ compacting in tiers

  lemma {:induction false} CompactIdempotent<E>(rules: Rules<E>, a: seq<E>)
    ensures Compact(rules, Compact(rules, a)) == Compact(rules, a)
  {
    var c := Compact(rules, a);
    CompactHasNoTombstone(rules, a);
    KeepShrinks(rules, c, c);
  }

  /** Compacting `a` first and the rest later is the same as compacting everything at once,
      exactly when no event that `b` alone would keep is named by a tombstone of `a`. */
  lemma {:induction false} TieredExactlyWhen<E>(rules: Rules<E>, a: seq<E>, b: seq<E>)
    ensures Compact(rules, Compact(rules, a) + b) == Compact(rules, a + b)
       <==> forall t, e | t in a && e in b && Kills(rules, t, e) :: !Survives(rules, e, b)
  {
    var ca := Compact(rules, a);
    KeepConcat(rules, ca, b, ca + b);
    KeepConcat(rules, a, b, a + b);
    CompactHasNoTombstone(rules, a);
    KeepSameKills(rules, ca, ca + b, b);
    KeepSameKills(rules, b, ca + b, b);
    KeepTwice(rules, a, a, b);
    KeepTwice(rules, b, b, a);
    KeepSameKills(rules, b, b + a, a + b);
    var kb := Compact(rules, b);
    KeepShrinks(rules, kb, a);
    assert Keep(rules, b, a + b) == Keep(rules, kb, a);
    if Compact(rules, ca + b) == Compact(rules, a + b) {
      var head := Keep(rules, a, a + b);
      assert (head + kb)[|head|..] == kb && (head + Keep(rules, kb, a))[|head|..] == Keep(rules, kb, a);
      forall t, e | t in a && e in b && Kills(rules, t, e) ensures !Survives(rules, e, b) {
        KeepMember(rules, b, b, e);
      }
    } else {
      var x :| x in kb && !Survives(rules, x, a);
      KeepMember(rules, b, b, x);
    }
  }

  /** The positions `Keep` picks, which makes its result an order-preserving subsequence. */
  ghost function KeptPositions<E>(rules: Rules<E>, events: seq<E>, kills: seq<E>): (ps: seq<nat>)
    ensures forall i | 0 <= i < |ps| :: ps[i] < |events|
  {
    if events == [] then []
    else
      var n := |events| - 1;
      var rest := KeptPositions(rules, events[..n], kills);
      if Survives(rules, events[n], kills) then rest + [n] else rest
  }

  lemma {:induction false} KeepIsSubsequence<E>(rules: Rules<E>, events: seq<E>, kills: seq<E>)
    ensures var ps := KeptPositions(rules, events, kills);
            var kept := Keep(rules, events, kills);
            && |kept| == |ps|
            && (forall i, j | 0 <= i < j < |ps| :: ps[i] < ps[j])
            && (forall i | 0 <= i < |ps| :: kept[i] == events[ps[i]])
            && (forall p | 0 <= p < |events| :: p in ps <==> Survives(rules, events[p], kills))
  {
    if events == [] {
    } else {
      var n := |events| - 1;
      var front := events[..n];
      KeepIsSubsequence(rules, front, kills);
      assert forall p | 0 <= p < n :: front[p] == events[p];
    }
  }

  // ------------------------------------------------------------------ batches

  /** The events of a list of segments, end to end. */
  ghost function Events<E>(segments: seq<seq<E>>): seq<E> {
    if segments == [] then [] else Events(segments[..|segments| - 1]) + segments[|segments| - 1]
  }

  lemma {:induction false} EventsConcat<E>(a: seq<seq<E>>, b: seq<seq<E>>)
    ensures Events(a + b) == Events(a) + Events(b)
  {
    if b == [] {
      assert a + b == a;
    } else {
      var front, last := b[..|b| - 1], b[|b| - 1];
      assert (a + b)[..|a + b| - 1] == a + front && (a + b)[|a + b| - 1] == last;
      EventsConcat(a, front);
      Regroup(Events(a), Events(front), last);
    }
  }

  ghost function CompactEach<E>(rules: Rules<E>, batches: seq<seq<E>>): seq<seq<E>> {
    seq(|batches|, i requires 0 <= i < |batches| => Compact(rules, batches[i]))
  }

  /** No tombstone of one batch names an event another batch would keep. */
  ghost predicate BatchesIndependent<E>(rules: Rules<E>, batches: seq<seq<E>>, kills: seq<E>) {
    forall i, e | 0 <= i < |batches| && e in Compact(rules, batches[i]) :: Survives(rules, e, kills)
  }

  lemma {:induction false} SplitsAgree<E>(a: seq<E>, b: seq<E>, a': seq<E>, b': seq<E>)
    requires |a| <= |a'| && |b| <= |b'|
    ensures a + b == a' + b' <==> a == a' && b == b'
  {
    if a + b == a' + b' {
      assert |a + b| == |a' + b'|;
      assert a == (a + b)[..|a|] && a' == (a' + b')[..|a|];
      assert b == (a + b)[|a|..] && b' == (a' + b')[|a|..];
    }
  }

  lemma {:induction false} IndependenceSplits<E>(rules: Rules<E>, front: seq<seq<E>>, last: seq<E>, kills: seq<E>)
    ensures BatchesIndependent(rules, front + [last], kills)
       <==> BatchesIndependent(rules, front, kills) && forall e | e in Compact(rules, last) :: Survives(rules, e, kills)
  {
    var batches := front + [last];
    assert batches[|front|] == last;
    if BatchesIndependent(rules, batches, kills) {
      forall i, e | 0 <= i < |front| && e in Compact(rules, front[i]) ensures Survives(rules, e, kills) {
        assert e in Compact(rules, batches[i]);
      }
    }
  }

  lemma {:induction false} KeepPerBatch<E>(rules: Rules<E>, batches: seq<seq<E>>, kills: seq<E>)
    requires forall b, t | b in batches && t in b :: t in kills
    ensures |Keep(rules, Events(batches), kills)| <= |Events(CompactEach(rules, batches))|
    ensures Keep(rules, Events(batches), kills) == Events(CompactEach(rules, batches))
       <==> BatchesIndependent(rules, batches, kills)
  {
    if batches == [] {
    } else {
      var n := |batches| - 1;
      var front, last := batches[..n], batches[n];
      assert batches == front + [last];
      KeepPerBatch(rules, front, kills);
      assert CompactEach(rules, batches)[..n] == CompactEach(rules, front);
      KeepConcat(rules, Events(front), last, kills);
      KeepTwice(rules, last, last, kills);
      KeepSameKills(rules, last, last + kills, kills);
      KeepShrinks(rules, Compact(rules, last), kills);
      SplitsAgree(Keep(rules, Events(front), kills), Keep(rules, last, kills),
                  Events(CompactEach(rules, front)), Compact(rules, last));
      IndependenceSplits(rules, front, last, kills);
    }
  }

  lemma {:induction false} EventsMember<E>(segments: seq<seq<E>>, x: E)
    ensures x in Events(segments) <==> exists s :: s in segments && x in s
  {
    if segments == [] {
    } else {
      var n := |segments| - 1;
      EventsMember(segments[..n], x);
      if s :| s in segments && x in s {
        assert s in segments[..n] || s == segments[n];
      }
    }
  }

  lemma {:induction false} EachHasNoTombstone<E>(rules: Rules<E>, batches: seq<seq<E>>)
    ensures forall x | x in Events(CompactEach(rules, batches)) :: !rules.isTombstone(x)
  {
    forall x | x in Events(CompactEach(rules, batches)) ensures !rules.isTombstone(x) {
      EventsMember(CompactEach(rules, batches), x);
      var s :| s in CompactEach(rules, batches) && x in s;
      var i :| 0 <= i < |batches| && s == Compact(rules, batches[i]);
      CompactHasNoTombstone(rules, batches[i]);
    }
  }

  /** Compacting every week and then the month of weeks gives what compacting the month at once
      gives, exactly when no tombstone of one week names an event another week keeps. */
  lemma {:induction false} WeeklyThenMonthlyExactlyWhen<E>(rules: Rules<E>, weeks: seq<seq<E>>)
    ensures Compact(rules, Events(CompactEach(rules, weeks))) == Compact(rules, Events(weeks))
       <==> BatchesIndependent(rules, weeks, Events(weeks))
  {
    var merged := Events(CompactEach(rules, weeks));
    EachHasNoTombstone(rules, weeks);
    KeepShrinks(rules, merged, merged);
    forall b, t | b in weeks && t in b ensures t in Events(weeks) {
      EventsMember(weeks, t);
    }
    KeepPerBatch(rules, weeks, Events(weeks));
  }

  // ------------------------------------------------------------------ when order does not matter

  lemma {:induction false} KeepCounts<E>(rules: Rules<E>, events: seq<E>, kills: seq<E>, x: E)
    ensures multiset(Keep(rules, events, kills))[x] == if Survives(rules, x, kills) then multiset(events)[x] else 0
  {
    if events == [] {
    } else {
      KeepCounts(rules, events[..|events| - 1], kills, x);
      assert events == events[..|events| - 1] + [events[|events| - 1]];
    }
  }

  lemma {:induction false} SurvivesSame<E>(rules: Rules<E>, x: E, a: seq<E>, b: seq<E>)
    requires forall t :: t in a <==> t in b
    ensures Survives(rules, x, a) <==> Survives(rules, x, b)
  {
  }

  /** Survival depends on which events there are, not on their order. */
  lemma {:induction false} CompactIgnoresOrder<E(!new)>(rules: Rules<E>, a: seq<E>, b: seq<E>)
    requires multiset(a) == multiset(b)
    ensures multiset(Compact(rules, a)) == multiset(Compact(rules, b))
  {
    assert forall t :: t in a <==> t in multiset(a);
    assert forall t :: t in b <==> t in multiset(b);
    forall x ensures multiset(Compact(rules, a))[x] == multiset(Compact(rules, b))[x] {
      KeepCounts(rules, a, a, x);
      KeepCounts(rules, b, b, x);
      SurvivesSame(rules, x, a, b);
    }
    assert multiset(Compact(rules, a)) == multiset(Compact(rules, b));
  }

  ghost predicate LeftBySome<E>(rules: Rules<E>, batches: seq<seq<E>>, x: E) {
    exists b | b in batches :: x in b && Survives(rules, x, b)
  }

  lemma {:induction false} LeftByLast<E>(rules: Rules<E>, front: seq<seq<E>>, last: seq<E>, x: E)
    ensures LeftBySome(rules, front + [last], x) <==> LeftBySome(rules, front, x) || (x in last && Survives(rules, x, last))
  {
    assert last in front + [last];
    assert forall b | b in front :: b in front + [last];
  }

  lemma {:induction false} EachSplits<E>(rules: Rules<E>, front: seq<seq<E>>, last: seq<E>)
    ensures Events(CompactEach(rules, front + [last])) == Events(CompactEach(rules, front)) + Compact(rules, last)
    ensures Events(front + [last]) == Events(front) + last
  {
    assert CompactEach(rules, front + [last])[..|front|] == CompactEach(rules, front);
    assert (front + [last])[..|front|] == front;
  }

  /** What compacting each batch leaves of one event. */
  lemma {:induction false} EachCounts<E>(rules: Rules<E>, batches: seq<seq<E>>, x: E)
    ensures multiset(Events(CompactEach(rules, batches)))[x] > 0 <==> LeftBySome(rules, batches, x)
    ensures Survives(rules, x, Events(batches)) ==> multiset(Events(CompactEach(rules, batches)))[x] == multiset(Events(batches))[x]
  {
    if batches == [] {
    } else {
      var front, last := batches[..|batches| - 1], batches[|batches| - 1];
      assert batches == front + [last];
      EachCounts(rules, front, x);
      EachSplits(rules, front, last);
      LeftByLast(rules, front, last, x);
      KeepCounts(rules, last, last, x);
      assert x in last <==> multiset(last)[x] > 0;
    }
  }

  lemma {:induction false} AppendedCounts<E>(rules: Rules<E>, rest: seq<E>, batches: seq<seq<E>>, x: E)
    ensures multiset(Compact(rules, rest + Events(CompactEach(rules, batches))))[x]
         == if Survives(rules, x, rest) then multiset(rest)[x] + multiset(Events(CompactEach(rules, batches)))[x] else 0
    ensures multiset(Compact(rules, rest + Events(batches)))[x]
         == if Survives(rules, x, rest) && Survives(rules, x, Events(batches)) then multiset(rest)[x] + multiset(Events(batches))[x] else 0
  {
    var merged := Events(CompactEach(rules, batches));
    EachHasNoTombstone(rules, batches);
    KeepCounts(rules, rest + merged, rest + merged, x);
    KeepCounts(rules, rest + Events(batches), rest + Events(batches), x);
    assert Survives(rules, x, rest + merged) <==> Survives(rules, x, rest);
    assert Survives(rules, x, rest + Events(batches)) <==> Survives(rules, x, rest) && Survives(rules, x, Events(batches));
  }

  /** The event is one that the rest of the log spares, and is in it or left by some batch. */
  ghost predicate Remains<E>(rules: Rules<E>, rest: seq<E>, batches: seq<seq<E>>, x: E) {
    Survives(rules, x, rest) && (x in rest || LeftBySome(rules, batches, x))
  }

  /** Any number of batches, each compacted by itself and moved to the end of a log that is compacted
      once more before use: the same events survive, each as often, exactly when no tombstone of any
      batch names an event that remains. */
  lemma {:induction false} AppendedExactlyWhen<E(!new)>(rules: Rules<E>, rest: seq<E>, batches: seq<seq<E>>)
    ensures multiset(Compact(rules, rest + Events(CompactEach(rules, batches)))) == multiset(Compact(rules, rest + Events(batches)))
       <==> forall x | Remains(rules, rest, batches, x) :: Survives(rules, x, Events(batches))
  {
    var a, b := multiset(Compact(rules, rest + Events(CompactEach(rules, batches)))), multiset(Compact(rules, rest + Events(batches)));
    forall x ensures a[x] == b[x] <==> (Remains(rules, rest, batches, x) ==> Survives(rules, x, Events(batches))) {
      AppendedCounts(rules, rest, batches, x);
      EachCounts(rules, batches, x);
      assert x in rest <==> multiset(rest)[x] > 0;
    }
    if forall x | Remains(rules, rest, batches, x) :: Survives(rules, x, Events(batches)) {
      assert forall x :: a[x] == b[x];
      assert a == b;
    }
  }

  lemma {:induction false} SpliceCounts<E>(rules: Rules<E>, before: seq<E>, group: seq<E>, after: seq<E>, x: E)
    ensures var lb, lg := multiset(Live(rules, before))[x], multiset(Live(rules, group))[x];
      var spared, kept := Survives(rules, x, after), Survives(rules, x, group);
      var tail := multiset(Live(rules, after))[x];
      && multiset(Live(rules, before + group + after))[x] == (if spared then (if kept then lb else 0) + lg else 0) + tail
      && multiset(Live(rules, before + Compact(rules, group) + after))[x] == (if spared then lb + (if kept then lg else 0) else 0) + tail
  {
    var lb, lg, merged := Live(rules, before), Live(rules, group), Compact(rules, group);
    LiveOfThree(rules, before, group, after);
    LiveOfThree(rules, before, merged, after);
    CompactHasNoTombstone(rules, group);
    LiveHasNoTombstone(rules, before);
    KeepShrinks(rules, lb, merged);
    LiveOfTombstoneFree(rules, merged);
    KeepOfLive(rules, group, group);
    KeepCounts(rules, lb, group, x);
    KeepCounts(rules, Keep(rules, lb, group), after, x);
    KeepCounts(rules, lg, after, x);
    KeepCounts(rules, lb, after, x);
    KeepCounts(rules, lg, group, x);
    KeepCounts(rules, merged, after, x);
  }

  /** In the middle of any log, with no premise: the splice leaves each live event as often as it was,
      exactly when every event that a tombstone of the group names, and that what follows spares, is
      live as often before the group as in it. */
  lemma {:induction false} SpliceCountsExactlyWhen<E(!new)>(rules: Rules<E>, before: seq<E>, group: seq<E>, after: seq<E>)
    ensures multiset(Live(rules, before + group + after)) == multiset(Live(rules, before + Compact(rules, group) + after))
       <==> forall t, x | t in group && Kills(rules, t, x) && Survives(rules, x, after) ::
              multiset(Live(rules, before))[x] == multiset(Live(rules, group))[x]
  {
    var a, b := multiset(Live(rules, before + group + after)), multiset(Live(rules, before + Compact(rules, group) + after));
    forall x ensures a[x] == b[x] <==>
      (Survives(rules, x, after) && !Survives(rules, x, group) ==> multiset(Live(rules, before))[x] == multiset(Live(rules, group))[x])
    {
      SpliceCounts(rules, before, group, after, x);
    }
    if forall t, x | t in group && Kills(rules, t, x) && Survives(rules, x, after) ::
         multiset(Live(rules, before))[x] == multiset(Live(rules, group))[x]
    {
      forall x ensures a[x] == b[x] {
        assert Survives(rules, x, after) ==> !rules.isTombstone(x);
      }
      assert a == b;
    } else {
      var t, x :| t in group && Kills(rules, t, x) && Survives(rules, x, after)
        && multiset(Live(rules, before))[x] != multiset(Live(rules, group))[x];
      assert a[x] != b[x];
    }
  }
}
