/** The archive epoch keys: one current key, and the retired ones wrapped under the archive root. */
module EpochKeys {
  import opened Foundations

  const WRAPPED_KEY_LEN := 40

  /** HKDF derivation and AES-256-KW, as functions that may refuse. */
  datatype KeyCrypto = KeyCrypto(
    derive: (Key, string) -> Option<Key>,
    wrap: (Key, Key) -> Option<seq<byte>>,
    unwrap: (Key, seq<byte>) -> Option<Key>)

  /** A wrap is 40 bytes and unwraps, under the same key, to what was wrapped. */
  ghost predicate Lawful(c: KeyCrypto) {
    forall k, x | c.wrap(k, x).Some? ::
      |c.wrap(k, x).value| == WRAPPED_KEY_LEN && c.unwrap(k, c.wrap(k, x).value) == Some(x)
  }

  datatype EpochError =
    | MatchesCurrent
    | AlreadyRetired
    | WrapFailed
    | DeriveFailed
    | NotRetired
    | UnwrapFailed
    | BadLength
    | AlreadyKnown
    | NotInstalled
    | OutgoingNotRetired

  datatype WrappedKeyRef = WrappedKeyRef(epochId: string, wrappedKey: seq<byte>)

  datatype Epochs = Epochs(currentId: string, currentKey: Key, prior: map<string, seq<byte>>)

  // ------------------------------------------------------------------ the operations as functions

  function New(c: KeyCrypto, root: Key, id: string): Result<Epochs, EpochError> {
    match c.derive(root, id)
    case None => Err(DeriveFailed)
    case Some(k) => Ok(Epochs(id, k, map[]))
  }

  /** The retired key is filed before the new key is derived, so a failing derivation leaves it
      filed with the current key still in place. */
  function Rotate(c: KeyCrypto, root: Key, s: Epochs, newId: string): (Epochs, Result<(), EpochError>) {
    if newId == s.currentId then (s, Err(MatchesCurrent))
    else if newId in s.prior then (s, Err(AlreadyRetired))
    else match c.wrap(root, s.currentKey)
      case None => (s, Err(WrapFailed))
      case Some(w) =>
        var retired := s.(prior := s.prior[s.currentId := w]);
        match c.derive(root, newId)
        case None => (retired, Err(DeriveFailed))
        case Some(k) => (retired.(currentId := newId, currentKey := k), Ok(()))
  }

  function Ingest(s: Epochs, w: WrappedKeyRef): (Epochs, Result<(), EpochError>) {
    if w.epochId == s.currentId then (s, Err(MatchesCurrent))
    else if |w.wrappedKey| != WRAPPED_KEY_LEN then (s, Err(BadLength))
    else if w.epochId in s.prior then (s, Err(AlreadyKnown))
    else (s.(prior := s.prior[w.epochId := w.wrappedKey]), Ok(()))
  }

  function Delete(s: Epochs, id: string): (Epochs, bool) {
    (s.(prior := s.prior - {id}), id in s.prior)
  }

  function Unwrap(c: KeyCrypto, root: Key, s: Epochs, id: string): Result<Key, EpochError> {
    if id !in s.prior then Err(NotRetired)
    else match c.unwrap(root, s.prior[id])
      case None => Err(UnwrapFailed)
      case Some(k) => Ok(k)
  }

  // ------------------------------------------------------------------ the manager

  class EpochKeyManager {
    var currentEpochId: string
    var currentEpochKey: Key
    var priorEpochKeys: map<string, seq<byte>>

    function View(): Epochs
      reads this
    {
      Epochs(currentEpochId, currentEpochKey, priorEpochKeys)
    }

    constructor (id: string, derived: Key)
      ensures View() == Epochs(id, derived, map[])
    {
      currentEpochId, currentEpochKey, priorEpochKeys := id, derived, map[];
    }

    /** A fresh manager at `id`, or the derivation's refusal. */
    static method Open(c: KeyCrypto, root: Key, id: string) returns (r: Result<EpochKeyManager, EpochError>)
      ensures match New(c, root, id)
              case Ok(s) => r.Ok? && fresh(r.value) && r.value.View() == s
              case Err(e) => r == Err(e)
    {
      var derived := c.derive(root, id);
      if derived.None? { return Err(DeriveFailed); }
      var manager := new EpochKeyManager(id, derived.value);
      r := Ok(manager);
    }

    method RotateEpoch(c: KeyCrypto, root: Key, newId: string) returns (r: Result<(), EpochError>)
      modifies this
      ensures (View(), r) == Rotate(c, root, old(View()), newId)
      ensures r.Ok? <==> && newId != old(currentEpochId) && newId !in old(priorEpochKeys)
                         && c.wrap(root, old(currentEpochKey)).Some? && c.derive(root, newId).Some?
      ensures r.Ok? ==> && currentEpochId == newId && Some(currentEpochKey) == c.derive(root, newId)
                        && priorEpochKeys == old(priorEpochKeys)[old(currentEpochId) := c.wrap(root, old(currentEpochKey)).value]
    {
      if newId == currentEpochId { return Err(MatchesCurrent); }
      if newId in priorEpochKeys { return Err(AlreadyRetired); }
      var wrapped := c.wrap(root, currentEpochKey);
      if wrapped.None? { return Err(WrapFailed); }
      priorEpochKeys := priorEpochKeys[currentEpochId := wrapped.value];
      var derived := c.derive(root, newId);
      if derived.None? { return Err(DeriveFailed); }
      currentEpochKey := derived.value;
      currentEpochId := newId;
      r := Ok(());
    }

    method UnwrapPriorEpochKey(c: KeyCrypto, root: Key, id: string) returns (r: Result<Key, EpochError>)
      ensures r == Unwrap(c, root, View(), id)
      ensures forall k :: r == Ok(k) <==> id in priorEpochKeys && c.unwrap(root, priorEpochKeys[id]) == Some(k)
    {
      if id !in priorEpochKeys { return Err(NotRetired); }
      var k := c.unwrap(root, priorEpochKeys[id]);
      r := if k.Some? then Ok(k.value) else Err(UnwrapFailed);
    }

    method DeleteEpochKey(id: string) returns (removed: bool)
      modifies this
      ensures (View(), removed) == Delete(old(View()), id)
      ensures removed <==> id in old(priorEpochKeys)
      ensures priorEpochKeys == old(priorEpochKeys) - {id} && currentEpochId == old(currentEpochId) && currentEpochKey == old(currentEpochKey)
    {
      removed := id in priorEpochKeys;
      priorEpochKeys := priorEpochKeys - {id};
    }

    method IngestWrappedPriorEpochKey(w: WrappedKeyRef) returns (r: Result<(), EpochError>)
      modifies this
      ensures (View(), r) == Ingest(old(View()), w)
      ensures r.Ok? <==> w.epochId != old(currentEpochId) && |w.wrappedKey| == 40 && w.epochId !in old(priorEpochKeys)
      ensures r.Ok? ==> priorEpochKeys == old(priorEpochKeys)[w.epochId := w.wrappedKey]
    {
      if w.epochId == currentEpochId { return Err(MatchesCurrent); }
      if |w.wrappedKey| != WRAPPED_KEY_LEN { return Err(BadLength); }
      if w.epochId in priorEpochKeys { return Err(AlreadyKnown); }
      priorEpochKeys := priorEpochKeys[w.epochId := w.wrappedKey];
      r := Ok(());
    }
  }

  /** The slot of the archive coordinator that holds the manager. */
  class ArchiveCoordinator {
    var currentEpoch: EpochKeyManager?

    constructor ()
      ensures currentEpoch == null
    {
      currentEpoch := null;
    }

    method InstallEpochKeyManager(c: KeyCrypto, root: Key, id: string) returns (r: Result<(), EpochError>)
      modifies this
      ensures match New(c, root, id)
              case Ok(s) => r == Ok(()) && currentEpoch != null && fresh(currentEpoch) && currentEpoch.View() == s
              case Err(e) => r == Err(e) && currentEpoch == old(currentEpoch)
    {
      var manager := EpochKeyManager.Open(c, root, id);
      if manager.Err? { return Err(manager.error); }
      currentEpoch := manager.value;
      r := Ok(());
    }

    /** Rotate, then look the outgoing key up again; `OutgoingNotRetired` is never returned. */
    method RotateArchiveEpoch(c: KeyCrypto, root: Key, newId: string) returns (r: Result<WrappedKeyRef, EpochError>)
      modifies currentEpoch
      ensures currentEpoch == null ==> r == Err(NotInstalled)
      ensures currentEpoch != null ==>
                var before := old(currentEpoch.View());
                var (after, outcome) := Rotate(c, root, before, newId);
                && currentEpoch.View() == after
                && match outcome
                   case Err(e) => r == Err(e)
                   case Ok(_) =>
                     && c.wrap(root, before.currentKey).Some?
                     && r == Ok(WrappedKeyRef(before.currentId, c.wrap(root, before.currentKey).value))
      ensures r.Ok? <==> && currentEpoch != null
                         && newId != old(currentEpoch.View()).currentId && newId !in old(currentEpoch.View()).prior
                         && c.wrap(root, old(currentEpoch.View()).currentKey).Some? && c.derive(root, newId).Some?
      ensures r.Ok? ==> currentEpoch.currentEpochId == newId && Some(currentEpoch.currentEpochKey) == c.derive(root, newId)
      ensures r != Err(OutgoingNotRetired)
    {
      if currentEpoch == null { return Err(NotInstalled); }
      var outgoingId := currentEpoch.currentEpochId;
      var outcome := currentEpoch.RotateEpoch(c, root, newId);
      if outcome.Err? { return Err(outcome.error); }
      if outgoingId !in currentEpoch.priorEpochKeys { return Err(OutgoingNotRetired); }
      r := Ok(WrappedKeyRef(outgoingId, currentEpoch.priorEpochKeys[outgoingId]));
    }
  }

  // ------------------------------------------------------------------ runs under one root

  datatype Op = RotateTo(id: string) | IngestRef(w: WrappedKeyRef) | DeleteId(id: string)

  function Do(c: KeyCrypto, root: Key, s: Epochs, op: Op): Epochs {
    match op
    case RotateTo(id) => Rotate(c, root, s, id).0
    case IngestRef(w) => Ingest(s, w).0
    case DeleteId(id) => Delete(s, id).0
  }

  function Run(c: KeyCrypto, root: Key, s: Epochs, ops: seq<Op>): Epochs {
    if ops == [] then s else Do(c, root, Run(c, root, s, ops[..|ops| - 1]), ops[|ops| - 1])
  }

  /** The ids whose filed key was put there by a rotation. */
  function ByRotation(c: KeyCrypto, root: Key, s: Epochs, ops: seq<Op>): set<string> {
    if ops == [] then {}
    else
      var before, ids := Run(c, root, s, ops[..|ops| - 1]), ByRotation(c, root, s, ops[..|ops| - 1]);
      match ops[|ops| - 1]
      case RotateTo(id) =>
        if Rotate(c, root, before, id).0 == before then ids else ids + {before.currentId}
      case IngestRef(_) => ids
      case DeleteId(id) => ids - {id}
  }

  ghost predicate Sound(c: KeyCrypto, root: Key, s: Epochs, rotated: set<string>) {
    && c.derive(root, s.currentId) == Some(s.currentKey)
    && (forall id | id in s.prior :: |s.prior[id]| == WRAPPED_KEY_LEN)
    && (forall id | id in rotated ::
          c.derive(root, id).Some? && Unwrap(c, root, s, id) == Ok(c.derive(root, id).value))
  }

  /** In every run the current key is the one derived for the current id, and every key that a
      rotation retired unwraps to the key derived for its id. Derivation may fail at any point. */
  lemma {:induction false} EveryRunIsSound(c: KeyCrypto, root: Key, id: string, ops: seq<Op>)
    requires Lawful(c) && New(c, root, id).Ok?
    ensures var s := New(c, root, id).value;
            Sound(c, root, Run(c, root, s, ops), ByRotation(c, root, s, ops))
  {
    if ops == [] {
    } else {
      EveryRunIsSound(c, root, id, ops[..|ops| - 1]);
    }
  }

  /** Exactly when a rotation is accepted, what it leaves, and which refusal is reported otherwise. */
  lemma {:induction false} RotatesExactlyWhen(c: KeyCrypto, root: Key, s: Epochs, newId: string)
    ensures var (after, r) := Rotate(c, root, s, newId);
      && (r.Ok? <==> newId != s.currentId && newId !in s.prior && c.wrap(root, s.currentKey).Some? && c.derive(root, newId).Some?)
      && (r.Ok? ==> after == Epochs(newId, c.derive(root, newId).value, s.prior[s.currentId := c.wrap(root, s.currentKey).value]))
      && (r == Err(MatchesCurrent) <==> newId == s.currentId)
      && (r == Err(AlreadyRetired) <==> newId != s.currentId && newId in s.prior)
      && (r == Err(WrapFailed) <==> newId != s.currentId && newId !in s.prior && c.wrap(root, s.currentKey).None?)
      && (r.Err? && r != Err(DeriveFailed) ==> after == s)
      && (r == Err(DeriveFailed) <==> newId != s.currentId && newId !in s.prior && c.wrap(root, s.currentKey).Some? && c.derive(root, newId).None?)
      && (r == Err(DeriveFailed) ==> after == s.(prior := s.prior[s.currentId := c.wrap(root, s.currentKey).value]))
  {
  }

  ghost predicate Total(c: KeyCrypto) {
    (forall k: Key, id: string :: c.derive(k, id).Some?) && (forall k: Key, x: Key :: c.wrap(k, x).Some?)
  }

  ghost function Rotations(ids: seq<string>): seq<Op> {
    seq(|ids|, i requires 0 <= i < |ids| => RotateTo(ids[i]))
  }

  /** A fresh manager rotated through any distinct ids, with primitives that never refuse: the last id
      is current under its derived key, and the retired ids are exactly the earlier ones, each filed
      as the wrap of its derived key, to which it unwraps. */
  lemma {:induction false} RotationsRetireAll(c: KeyCrypto, root: Key, ids: seq<string>)
    requires Lawful(c) && Total(c) && ids != [] && forall i, j | 0 <= i < j < |ids| :: ids[i] != ids[j]
    ensures New(c, root, ids[0]).Ok?
    ensures var s := Run(c, root, New(c, root, ids[0]).value, Rotations(ids[1..]));
      && s.currentId == ids[|ids| - 1] && Some(s.currentKey) == c.derive(root, s.currentId)
      && (forall id :: id in s.prior <==> id in ids[..|ids| - 1])
      && (forall id | id in s.prior ::
            Some(s.prior[id]) == c.wrap(root, c.derive(root, id).value) && c.unwrap(root, s.prior[id]) == c.derive(root, id))
  {
    if |ids| == 1 {
      assert Rotations(ids[1..]) == [];
    } else {
      var n := |ids| - 1;
      var front, last := ids[..n], ids[n];
      RotationsRetireAll(c, root, front);
      assert Rotations(ids[1..])[..n - 1] == Rotations(front[1..]);
      var before := Run(c, root, New(c, root, ids[0]).value, Rotations(front[1..]));
      RotatesExactlyWhen(c, root, before, last);
      assert front == front[..n - 1] + [front[n - 1]];
      assert last !in front;
    }
  }

  ghost predicate Torn(s: Epochs) {
    s.currentId in s.prior
  }

  /** The one call that tears: a rotation that is accepted and wraps but cannot derive. */
  predicate Tears(c: KeyCrypto, root: Key, s: Epochs, op: Op) {
    && op.RotateTo? && op.id != s.currentId && op.id !in s.prior
    && c.wrap(root, s.currentKey).Some? && c.derive(root, op.id).None?
  }

  /** No other call files the current id among the retired ones. */
  lemma {:induction false} CallTearsExactlyWhen(c: KeyCrypto, root: Key, s: Epochs, op: Op)
    requires !Torn(s)
    ensures Torn(Do(c, root, s, op)) <==> Tears(c, root, s, op)
  {
  }

  /** The current id is not retired, now or at any earlier point of the run. */
  ghost predicate NeverTorn(c: KeyCrypto, root: Key, s: Epochs, ops: seq<Op>) {
    !Torn(Run(c, root, s, ops)) && (ops != [] ==> NeverTorn(c, root, s, ops[..|ops| - 1]))
  }

  /** No call of the run tears the state it meets. */
  ghost predicate NoCallTears(c: KeyCrypto, root: Key, s: Epochs, ops: seq<Op>) {
    ops != [] ==>
      && !Tears(c, root, Run(c, root, s, ops[..|ops| - 1]), ops[|ops| - 1])
      && NoCallTears(c, root, s, ops[..|ops| - 1])
  }

  /** At every point of a run the current id is not among the retired ones, exactly when no call of
      the run is such a rotation in the state it meets. */
  lemma {:induction false} CurrentIsNotRetiredExactlyWhen(c: KeyCrypto, root: Key, s: Epochs, ops: seq<Op>)
    requires !Torn(s)
    ensures NeverTorn(c, root, s, ops) <==> NoCallTears(c, root, s, ops)
  {
    if ops == [] {
    } else {
      var front, last := ops[..|ops| - 1], ops[|ops| - 1];
      CurrentIsNotRetiredExactlyWhen(c, root, s, front);
      if NeverTorn(c, root, s, front) {
        CallTearsExactlyWhen(c, root, Run(c, root, s, front), last);
      }
    }
  }

  /** A derivation that never refuses, as HKDF-SHA256 asked for 32 bytes does not, never tears. */
  lemma {:induction false} TotalDerivationNeverTears(c: KeyCrypto, root: Key, s: Epochs, ops: seq<Op>)
    requires !Torn(s) && forall k: Key, id: string :: c.derive(k, id).Some?
    ensures NeverTorn(c, root, s, ops)
  {
    if ops == [] {
    } else {
      TotalDerivationNeverTears(c, root, s, ops[..|ops| - 1]);
      CallTearsExactlyWhen(c, root, Run(c, root, s, ops[..|ops| - 1]), ops[|ops| - 1]);
    }
  }

  const PAD: seq<byte> := [0, 0, 0, 0, 0, 0, 0, 0]

  /** A lawful key crypto that refuses to derive for one id. */
  function RefusingCrypto(refused: string): KeyCrypto {
    KeyCrypto(
      (k: Key, id: string) => if id == refused then None else Some(k),
      (k: Key, x: Key) => Some(x + PAD),
      (k: Key, w: seq<byte>) => if |w| == WRAPPED_KEY_LEN then Some(w[..32]) else None)
  }

  /** A witness: under a lawful key crypto that refuses one id, rotating a fresh manager to that id
      fails and leaves the current id both current and retired. */
  lemma {:induction false} RefusedDerivationTears(root: Key, id: string, refused: string)
    requires id != refused
    ensures var c := RefusingCrypto(refused);
      && Lawful(c) && New(c, root, id).Ok?
      && Rotate(c, root, New(c, root, id).value, refused).1 == Err(DeriveFailed)
      && Torn(Run(c, root, New(c, root, id).value, [RotateTo(refused)]))
  {
    var c := RefusingCrypto(refused);
    forall k: Key, x: Key ensures c.unwrap(k, c.wrap(k, x).value) == Some(x) {
      assert (x + PAD)[..32] == x;
    }
    var s := New(c, root, id).value;
    assert [RotateTo(refused)][..0] == [];
    assert Run(c, root, s, [RotateTo(refused)]) == Do(c, root, s, RotateTo(refused));
  }

  /** Once deleted, an epoch that is not the current one stays unreadable until a call names it
      again, by ingesting it or by rotating to it. */
  lemma {:induction false} DeletedStaysUnreadable(c: KeyCrypto, root: Key, s: Epochs, id: string, ops: seq<Op>)
    requires id != s.currentId
    requires forall op | op in ops :: op != RotateTo(id) && !(op.IngestRef? && op.w.epochId == id)
    ensures var s' := Run(c, root, Delete(s, id).0, ops);
            s'.currentId != id && Unwrap(c, root, s', id) == Err(NotRetired)
  {
    if ops == [] {
    } else {
      var front := ops[..|ops| - 1];
      assert forall op | op in front :: op in ops;
      assert ops[|ops| - 1] in ops;
      DeletedStaysUnreadable(c, root, s, id, front);
    }
  }

  /** Deleting is not erasing: the key is a function of the root and the id, so a manager opened
      at the deleted id holds the very key that was deleted. */
  lemma {:induction false} DeletedKeyIsRederivable(c: KeyCrypto, root: Key, id0: string, ops: seq<Op>, id: string)
    requires Lawful(c) && New(c, root, id0).Ok?
    requires id in ByRotation(c, root, New(c, root, id0).value, ops)
    ensures var s := Run(c, root, New(c, root, id0).value, ops);
            && Unwrap(c, root, Delete(s, id).0, id) == Err(NotRetired)
            && New(c, root, id).Ok?
            && Unwrap(c, root, s, id) == Ok(New(c, root, id).value.currentKey)
  {
    EveryRunIsSound(c, root, id0, ops);
  }

  // ------------------------------------------------------------------ export and restore

  ghost predicate Known(refs: seq<WrappedKeyRef>, id: string) {
    exists r :: r in refs && r.epochId == id
  }

  ghost predicate DistinctEpochs(refs: seq<WrappedKeyRef>) {
    forall i, j | 0 <= i < j < |refs| :: refs[i].epochId != refs[j].epochId
  }

  /** `refs` lists every retired key once, in some order. */
  ghost predicate Lists(refs: seq<WrappedKeyRef>, prior: map<string, seq<byte>>) {
    && DistinctEpochs(refs)
    && (forall r | r in refs :: r.epochId in prior && prior[r.epochId] == r.wrappedKey)
    && (forall id | id in prior :: Known(refs, id))
  }

  function IngestAll(s: Epochs, refs: seq<WrappedKeyRef>): Epochs {
    if refs == [] then s else Ingest(IngestAll(s, refs[..|refs| - 1]), refs[|refs| - 1]).0
  }

  lemma {:induction false} KnownGrows(front: seq<WrappedKeyRef>, last: WrappedKeyRef)
    ensures forall id :: Known(front + [last], id) <==> Known(front, id) || last.epochId == id
    ensures DistinctEpochs(front + [last]) ==> DistinctEpochs(front) && !Known(front, last.epochId)
  {
    var refs := front + [last];
    forall id ensures Known(refs, id) <==> Known(front, id) || last.epochId == id {
      assert last in refs;
      if r :| r in front && r.epochId == id {
        assert r in refs;
      }
    }
    if DistinctEpochs(refs) {
      assert forall i, j | 0 <= i < j < |front| :: refs[i] == front[i] && refs[j] == front[j];
      assert refs[|front|] == last;
      forall i | 0 <= i < |front| ensures front[i].epochId != last.epochId {
        assert refs[i] == front[i];
      }
    }
  }

  lemma {:induction false} IngestAllFiles(s: Epochs, refs: seq<WrappedKeyRef>)
    requires s.prior == map[] && DistinctEpochs(refs)
    requires forall r | r in refs :: |r.wrappedKey| == WRAPPED_KEY_LEN
    ensures IngestAll(s, refs) == s.(prior := IngestAll(s, refs).prior)
    ensures forall id :: id in IngestAll(s, refs).prior <==> id != s.currentId && Known(refs, id)
    ensures forall r | r in refs && r.epochId != s.currentId :: r.epochId in IngestAll(s, refs).prior
                                                             && IngestAll(s, refs).prior[r.epochId] == r.wrappedKey
  {
    if refs == [] {
    } else {
      var front, last := refs[..|refs| - 1], refs[|refs| - 1];
      assert refs == front + [last];
      KnownGrows(front, last);
      IngestAllFiles(s, front);
      forall r | r in front ensures r.epochId != last.epochId {
        assert Known(front, r.epochId);
      }
    }
  }

  /** A fresh manager at the same id that ingests the exported keys, in any order, is the original
      manager; exactly when the original has not been torn by a failed derivation. */
  lemma {:induction false} RestoreExactlyWhen(c: KeyCrypto, root: Key, s: Epochs, refs: seq<WrappedKeyRef>, rotated: set<string>)
    requires Sound(c, root, s, rotated) && Lists(refs, s.prior)
    ensures New(c, root, s.currentId).Ok?
    ensures IngestAll(New(c, root, s.currentId).value, refs) == s <==> s.currentId !in s.prior
  {
    var restored := IngestAll(New(c, root, s.currentId).value, refs);
    IngestAllFiles(New(c, root, s.currentId).value, refs);
    if s.currentId !in s.prior {
      assert restored.prior.Keys == s.prior.Keys;
      assert restored.prior == s.prior;
    }
  }
}
