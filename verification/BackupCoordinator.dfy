/** The backup coordinator: two mutexes, the calls that take them, and every interleaving of
    threads that run those calls one lock, one read, one write at a time. */
module BackupCoordinator {
  import opened Foundations
  import opened Sequences

  datatype BackupKeys = BackupKeys(rootKey: seq<byte>, signingKey: seq<byte>, deviceId: string)

  datatype ManifestTail = ManifestTail(manifestId: Uuid, generation: u64)

  datatype TrackedSegment = TrackedSegment(segmentId: Uuid, minEventMs: i64, maxEventMs: i64, segmentKey: seq<byte>)

  /** Everything behind the two mutexes: `keys` behind one, the other two fields behind the other. */
  datatype Shared = Shared(
    keys: Option<BackupKeys>,
    previousManifest: Option<ManifestTail>,
    trackedSegments: seq<TrackedSegment>)

  datatype Call =
    | InstallKeys(keys: BackupKeys, hydrated: seq<TrackedSegment>)
    | HasKeys
    | CloneKeys
    | RequireKeys
    | GetPreviousManifest
    | SetPreviousManifest(tail: Option<ManifestTail>)
    | GetTrackedSegments
    | CommitIncremental(manifest: ManifestTail, tracked: TrackedSegment)
    | CommitCompaction(manifest: ManifestTail, ledger: seq<TrackedSegment>)

  datatype Value =
    | Unit
    | Installed(flag: bool)
    | Keys(snapshot: Option<BackupKeys>)
    | Required(required: Result<BackupKeys, string>)
    | Manifest(tail: Option<ManifestTail>)
    | Segments(segments: seq<TrackedSegment>)

  const SUBSYSTEM_NOT_INSTALLED := "backup_keys"

  // ------------------------------------------------------------------ what each call means

  /** The effect and the result of a call that nothing interrupts. */
  function Apply(s: Shared, call: Call): (Shared, Value) {
    match call
    case InstallKeys(keys, hydrated) => (s.(keys := Some(keys), trackedSegments := hydrated), Unit)
    case HasKeys => (s, Installed(s.keys.Some?))
    case CloneKeys => (s, Keys(s.keys))
    case RequireKeys => (s, Required(if s.keys.Some? then Ok(s.keys.value) else Err(SUBSYSTEM_NOT_INSTALLED)))
    case GetPreviousManifest => (s, Manifest(s.previousManifest))
    case SetPreviousManifest(tail) => (s.(previousManifest := tail), Unit)
    case GetTrackedSegments => (s, Segments(s.trackedSegments))
    case CommitIncremental(m, tracked) =>
      (s.(previousManifest := Some(m), trackedSegments := s.trackedSegments + [tracked]), Unit)
    case CommitCompaction(m, ledger) => (s.(previousManifest := Some(m), trackedSegments := ledger), Unit)
  }

  /** The coordinator as one thread sees it. */
  class Coordinator {
    var backupKeys: Option<BackupKeys>
    var previousManifest: Option<ManifestTail>
    var trackedSegments: seq<TrackedSegment>

    function View(): Shared
      reads this
    {
      Shared(backupKeys, previousManifest, trackedSegments)
    }

    constructor ()
      ensures View() == Shared(None, None, [])
    {
      backupKeys, previousManifest, trackedSegments := None, None, [];
    }

    method HasKeys() returns (r: bool)
      ensures Installed(r) == Apply(View(), Call.HasKeys).1
    {
      r := backupKeys.Some?;
    }

    method InstallKeys(keys: BackupKeys, hydrated: seq<TrackedSegment>)
      modifies this
      ensures View() == Apply(old(View()), Call.InstallKeys(keys, hydrated)).0
    {
      trackedSegments := hydrated;
      backupKeys := Some(keys);
    }

    method CloneKeys() returns (r: Option<BackupKeys>)
      ensures Keys(r) == Apply(View(), Call.CloneKeys).1
    {
      r := backupKeys;
    }

    method RequireKeys() returns (r: Result<BackupKeys, string>)
      ensures Required(r) == Apply(View(), Call.RequireKeys).1
    {
      var snapshot := CloneKeys();
      match snapshot {
        case Some(k) => r := Ok(k);
        case None => r := Err(SUBSYSTEM_NOT_INSTALLED);
      }
    }

    method GetPreviousManifest() returns (r: Option<ManifestTail>)
      ensures Manifest(r) == Apply(View(), Call.GetPreviousManifest).1
    {
      r := previousManifest;
    }

    method GetTrackedSegments() returns (r: seq<TrackedSegment>)
      ensures Segments(r) == Apply(View(), Call.GetTrackedSegments).1
    {
      r := trackedSegments;
    }

    method SetPreviousManifest(tail: Option<ManifestTail>)
      modifies this
      ensures View() == Apply(old(View()), Call.SetPreviousManifest(tail)).0
    {
      previousManifest := tail;
    }

    method CommitIncremental(manifest: ManifestTail, tracked: TrackedSegment)
      modifies this
      ensures View() == Apply(old(View()), Call.CommitIncremental(manifest, tracked)).0
    {
      previousManifest := Some(manifest);
      trackedSegments := trackedSegments + [tracked];
    }

    method CommitCompaction(manifest: ManifestTail, ledger: seq<TrackedSegment>)
      modifies this
      ensures View() == Apply(old(View()), Call.CommitCompaction(manifest, ledger)).0
    {
      previousManifest := Some(manifest);
      trackedSegments := ledger;
    }
  }

  // ------------------------------------------------------------------ calls as atomic steps

  datatype Mutex = KeysMutex | ChainMutex

  /** One access to shared memory made under a lock. */
  datatype Op =
    | StoreKeys(keys: BackupKeys)
    | LoadKeys
    | ProbeKeys
    | DemandKeys
    | StoreManifest(tail: Option<ManifestTail>)
    | LoadManifest
    | StoreSegments(segments: seq<TrackedSegment>)
    | PushSegment(segment: TrackedSegment)
    | LoadSegments

  /** The locks a call takes, in the order it takes them; it drops them in reverse. */
  function Locks(call: Call): seq<Mutex> {
    match call
    case InstallKeys(_, _) => [KeysMutex, ChainMutex]
    case HasKeys => [KeysMutex]
    case CloneKeys => [KeysMutex]
    case RequireKeys => [KeysMutex]
    case _ => [ChainMutex]
  }

  /** The accesses a call makes once it holds its locks. */
  function Body(call: Call): seq<Op> {
    match call
    case InstallKeys(keys, hydrated) => [StoreSegments(hydrated), StoreKeys(keys)]
    case HasKeys => [ProbeKeys]
    case CloneKeys => [LoadKeys]
    case RequireKeys => [DemandKeys]
    case GetPreviousManifest => [LoadManifest]
    case SetPreviousManifest(tail) => [StoreManifest(tail)]
    case GetTrackedSegments => [LoadSegments]
    case CommitIncremental(m, tracked) => [StoreManifest(Some(m)), PushSegment(tracked)]
    case CommitCompaction(m, ledger) => [StoreManifest(Some(m)), StoreSegments(ledger)]
  }

  function Guard(op: Op): Mutex {
    match op
    case StoreKeys(_) => KeysMutex
    case LoadKeys => KeysMutex
    case ProbeKeys => KeysMutex
    case DemandKeys => KeysMutex
    case _ => ChainMutex
  }

  function DoOp(s: Shared, seen: Value, op: Op): (Shared, Value) {
    match op
    case StoreKeys(keys) => (s.(keys := Some(keys)), seen)
    case LoadKeys => (s, Keys(s.keys))
    case ProbeKeys => (s, Installed(s.keys.Some?))
    case DemandKeys => (s, Required(if s.keys.Some? then Ok(s.keys.value) else Err(SUBSYSTEM_NOT_INSTALLED)))
    case StoreManifest(tail) => (s.(previousManifest := tail), seen)
    case LoadManifest => (s, Manifest(s.previousManifest))
    case StoreSegments(segments) => (s.(trackedSegments := segments), seen)
    case PushSegment(segment) => (s.(trackedSegments := s.trackedSegments + [segment]), seen)
    case LoadSegments => (s, Segments(s.trackedSegments))
  }

  datatype Stage = Locking | Running(ran: nat) | Unlocking

  /** A call in flight: `held` is how many of `Locks(call)`, from the front, it holds now. */
  datatype Active = Active(call: Call, stage: Stage, held: nat, seen: Value)

  datatype Return = Return(call: Call, value: Value)

  datatype Thread = Thread(todo: seq<Call>, active: Option<Active>, done: seq<Return>)

  datatype Entry = Entry(thread: nat, ret: Return)

  /** A configuration. `serial` and `log` are history: the calls in the order in which they
      first give a lock back, and the state those calls produce one after the other. */
  datatype Config = Config(
    shared: Shared,
    holder: map<Mutex, nat>,
    threads: seq<Thread>,
    serial: Shared,
    log: seq<Entry>)

  function WithActive(c: Config, t: nat, a: Active): Config
    requires t < |c.threads|
  {
    c.(threads := c.threads[t := c.threads[t].(active := Some(a))])
  }

  /** The next step of thread `t`, or `None` when it is blocked or has finished. */
  function Next(c: Config, t: nat): Option<Config>
    requires t < |c.threads|
  {
    var th := c.threads[t];
    match th.active
    case None =>
      if th.todo == [] then None
      else Some(c.(threads := c.threads[t := Thread(th.todo[1..], Some(Active(th.todo[0], Locking, 0, Unit)), th.done)]))
    case Some(a) =>
      var locks, body := Locks(a.call), Body(a.call);
      match a.stage
      case Locking =>
        if a.held >= |locks| || locks[a.held] in c.holder then None
        else
          Some(WithActive(c.(holder := c.holder[locks[a.held] := t]), t,
                          a.(held := a.held + 1, stage := if a.held + 1 == |locks| then Running(0) else Locking)))
      case Running(ran) =>
        if ran < |body| then
          var (s, v) := DoOp(c.shared, a.seen, body[ran]);
          Some(WithActive(c.(shared := s), t, a.(stage := Running(ran + 1), seen := v)))
        else if a.held == 0 || a.held > |locks| then None
        else
          Some(WithActive(c.(holder := c.holder - {locks[a.held - 1]},
                             serial := Apply(c.serial, a.call).0,
                             log := c.log + [Entry(t, Return(a.call, a.seen))]),
                          t, a.(held := a.held - 1, stage := Unlocking)))
      case Unlocking =>
        if a.held == 0 then
          Some(c.(threads := c.threads[t := Thread(th.todo, None, th.done + [Return(a.call, a.seen)])]))
        else if a.held > |locks| then None
        else
          Some(WithActive(c.(holder := c.holder - {locks[a.held - 1]}), t, a.(held := a.held - 1)))
  }

  function Start(s: Shared, programs: seq<seq<Call>>): Config {
    Config(s, map[], seq(|programs|, i requires 0 <= i < |programs| => Thread(programs[i], None, [])), s, [])
  }

  // ------------------------------------------------------------------ locality of operations

  /** The part of the state a mutex protects. */
  function Part(m: Mutex, s: Shared): Shared {
    match m
    case KeysMutex => s.(previousManifest := None, trackedSegments := [])
    case ChainMutex => s.(keys := None)
  }

  function RunOps(s: Shared, ops: seq<Op>): (Shared, Value) {
    if ops == [] then (s, Unit)
    else
      var (s', v) := RunOps(s, ops[..|ops| - 1]);
      DoOp(s', v, ops[|ops| - 1])
  }

  lemma {:induction false} OpIsLocal(s: Shared, s': Shared, v: Value, op: Op, m: Mutex)
    ensures Guard(op) != m ==> Part(m, DoOp(s, v, op).0) == Part(m, s)
    ensures Part(Guard(op), s) == Part(Guard(op), s')
       ==> && Part(Guard(op), DoOp(s, v, op).0) == Part(Guard(op), DoOp(s', v, op).0)
           && DoOp(s, v, op).1 == DoOp(s', v, op).1
  {
  }

  /** Operations guarded by `locks` neither see nor touch anything else. */
  lemma {:induction false} OpsAreLocal(s: Shared, s': Shared, ops: seq<Op>, locks: seq<Mutex>)
    requires forall op | op in ops :: Guard(op) in locks
    requires forall m | m in locks :: Part(m, s) == Part(m, s')
    ensures forall m | m !in locks :: Part(m, RunOps(s, ops).0) == Part(m, s)
    ensures forall m | m in locks :: Part(m, RunOps(s, ops).0) == Part(m, RunOps(s', ops).0)
    ensures RunOps(s, ops).1 == RunOps(s', ops).1
  {
    if ops == [] {
    } else {
      var front, op := ops[..|ops| - 1], ops[|ops| - 1];
      OpsAreLocal(s, s', front, locks);
      var (f, v) := RunOps(s, front);
      var (f', v') := RunOps(s', front);
      forall m: Mutex ensures m !in locks ==> Part(m, RunOps(s, ops).0) == Part(m, s) {
        OpIsLocal(f, f', v, op, m);
      }
      forall m | m in locks ensures Part(m, RunOps(s, ops).0) == Part(m, RunOps(s', ops).0) {
        OpIsLocal(f, f', v, op, m);
        OpIsLocal(f', f, v, op, m);
      }
    }
  }

  lemma {:induction false} BodyIsGuarded(call: Call)
    ensures forall op | op in Body(call) :: Guard(op) in Locks(call)
  {
  }

  /** Run without interruption, the accesses of a call do what the call means. */
  lemma {:induction false} BodyMeansApply(s: Shared, call: Call)
    ensures RunOps(s, Body(call)) == Apply(s, call)
  {
    var b := Body(call);
    assert b[..0] == [] && b[..1] == [b[0]] && [b[0]][..0] == [];
    assert RunOps(s, b[..0]) == (s, Unit);
    assert RunOps(s, b[..1]) == DoOp(s, Unit, b[0]);
  }

  lemma {:induction false} NextOp(s: Shared, ops: seq<Op>, ran: nat)
    requires ran < |ops|
    ensures RunOps(s, ops[..ran + 1]) == DoOp(RunOps(s, ops[..ran]).0, RunOps(s, ops[..ran]).1, ops[ran])
  {
    assert ops[..ran + 1][..ran] == ops[..ran];
  }

  // ------------------------------------------------------------------ the invariant

  ghost predicate Holds(c: Config, t: nat, m: Mutex)
    requires t < |c.threads|
  {
    && c.threads[t].active.Some?
    && var a := c.threads[t].active.value;
       a.held <= |Locks(a.call)| && m in Locks(a.call)[..a.held]
  }

  ghost predicate StageOk(a: Active) {
    match a.stage
    case Locking => a.held < |Locks(a.call)| && a.seen == Unit
    case Running(ran) => a.held == |Locks(a.call)| && ran <= |Body(a.call)|
    case Unlocking => a.held < |Locks(a.call)|
  }

  /** What the holder of a lock has made of the part it protects, seen from the serial state. */
  function Progress(serial: Shared, a: Active): Shared {
    match a.stage
    case Running(ran) => if ran <= |Body(a.call)| then RunOps(serial, Body(a.call)[..ran]).0 else serial
    case _ => serial
  }

  ghost predicate ThreadOk(c: Config, t: nat)
    requires t < |c.threads|
  {
    c.threads[t].active.Some? ==>
      var a := c.threads[t].active.value;
      && StageOk(a)
      && (a.stage.Running? ==> a.seen == RunOps(c.serial, Body(a.call)[..a.stage.ran]).1)
      && (forall m | Holds(c, t, m) :: Part(m, c.shared) == Part(m, Progress(c.serial, a)))
  }

  ghost predicate LocksOk(c: Config) {
    && (forall m | m in c.holder :: c.holder[m] < |c.threads| && Holds(c, c.holder[m], m))
    && (forall t, m | 0 <= t < |c.threads| && Holds(c, t, m) :: m in c.holder && c.holder[m] == t)
    && (forall m: Mutex | m !in c.holder :: Part(m, c.shared) == Part(m, c.serial))
  }

  ghost predicate Inv(c: Config) {
    LocksOk(c) && forall t | 0 <= t < |c.threads| :: ThreadOk(c, t)
  }

  lemma {:induction false} StartOk(s: Shared, programs: seq<seq<Call>>)
    ensures Inv(Start(s, programs))
  {
  }

  /** Nothing a thread did not hold a lock on moves under another thread. */
  lemma {:induction false} OthersKeep(c: Config, c': Config, t: nat, u: nat)
    requires Inv(c) && t < |c.threads| && |c'.threads| == |c.threads|
    requires u < |c.threads| && u != t && c'.threads[u] == c.threads[u]
    requires forall m | Holds(c, u, m) :: Part(m, c'.shared) == Part(m, c.shared)
    requires c'.serial == c.serial
          || forall m | c.threads[u].active.Some? && m in Locks(c.threads[u].active.value.call) && Holds(c, u, m)
               :: Part(m, c'.serial) == Part(m, c.serial)
    ensures ThreadOk(c', u)
  {
    assert ThreadOk(c, u);
    if c.threads[u].active.Some? {
      var a := c.threads[u].active.value;
      assert forall m :: Holds(c', u, m) <==> Holds(c, u, m);
      if a.stage.Running? && c'.serial != c.serial {
        var ops := Body(a.call)[..a.stage.ran];
        BodyIsGuarded(a.call);
        forall m | m in Locks(a.call) ensures Part(m, c.serial) == Part(m, c'.serial) {
          assert Locks(a.call)[..a.held] == Locks(a.call);
          assert Holds(c, u, m);
        }
        OpsAreLocal(c.serial, c'.serial, ops, Locks(a.call));
      }
    }
  }

  lemma {:induction false} StartKeeps(c: Config, t: nat)
    requires Inv(c) && t < |c.threads| && c.threads[t].active.None? && Next(c, t).Some?
    ensures Inv(Next(c, t).value)
  {
    var c' := Next(c, t).value;
    forall u | 0 <= u < |c'.threads| && u != t ensures ThreadOk(c', u) {
      OthersKeep(c, c', t, u);
    }
    forall u, m | 0 <= u < |c.threads| ensures Holds(c', u, m) <==> Holds(c, u, m) {
    }
  }

  lemma {:induction false} FinishKeeps(c: Config, t: nat)
    requires Inv(c) && t < |c.threads| && c.threads[t].active.Some? && Next(c, t).Some?
    requires c.threads[t].active.value.stage.Unlocking? && c.threads[t].active.value.held == 0
    ensures Inv(Next(c, t).value)
  {
    var c' := Next(c, t).value;
    forall u | 0 <= u < |c'.threads| && u != t ensures ThreadOk(c', u) {
      OthersKeep(c, c', t, u);
    }
    forall u, m | 0 <= u < |c.threads| ensures Holds(c', u, m) <==> Holds(c, u, m) {
    }
  }

  lemma {:induction false} LocksDistinct(call: Call, i: nat)
    requires i < |Locks(call)|
    ensures Locks(call)[i] !in Locks(call)[..i]
    ensures Locks(call)[..i + 1] == Locks(call)[..i] + [Locks(call)[i]]
  {
  }

  lemma {:induction false} AcquireHolds(c: Config, c': Config, t: nat, taken: Mutex)
    requires t < |c.threads| && c.threads[t].active.Some?
    requires c.threads[t].active.value.held < |Locks(c.threads[t].active.value.call)|
    requires taken == Locks(c.threads[t].active.value.call)[c.threads[t].active.value.held]
    requires |c'.threads| == |c.threads| && forall u | 0 <= u < |c.threads| && u != t :: c'.threads[u] == c.threads[u]
    requires c'.threads[t].active.Some?
    requires c'.threads[t].active.value.call == c.threads[t].active.value.call
    requires c'.threads[t].active.value.held == c.threads[t].active.value.held + 1
    ensures forall u, m | 0 <= u < |c.threads| :: Holds(c', u, m) <==> Holds(c, u, m) || (u == t && m == taken)
  {
    LocksDistinct(c.threads[t].active.value.call, c.threads[t].active.value.held);
    forall u, m | 0 <= u < |c.threads| ensures Holds(c', u, m) <==> Holds(c, u, m) || (u == t && m == taken) {
    }
  }

  lemma {:induction false} AcquireLocks(c: Config, t: nat)
    requires Inv(c) && t < |c.threads| && c.threads[t].active.Some? && Next(c, t).Some?
    requires c.threads[t].active.value.stage.Locking?
    ensures LocksOk(Next(c, t).value)
  {
    var a := c.threads[t].active.value;
    AcquireHolds(c, Next(c, t).value, t, Locks(a.call)[a.held]);
  }

  lemma {:induction false} AcquireThread(c: Config, t: nat)
    requires Inv(c) && t < |c.threads| && c.threads[t].active.Some? && Next(c, t).Some?
    requires c.threads[t].active.value.stage.Locking?
    ensures ThreadOk(Next(c, t).value, t)
  {
    var c' := Next(c, t).value;
    var a := c.threads[t].active.value;
    assert ThreadOk(c, t);
    assert Body(a.call)[..0] == [];
    AcquireHolds(c, c', t, Locks(a.call)[a.held]);
  }

  lemma {:induction false} AcquireKeeps(c: Config, t: nat)
    requires Inv(c) && t < |c.threads| && c.threads[t].active.Some? && Next(c, t).Some?
    requires c.threads[t].active.value.stage.Locking?
    ensures Inv(Next(c, t).value)
  {
    var c' := Next(c, t).value;
    AcquireThread(c, t);
    AcquireLocks(c, t);
    forall u | 0 <= u < |c'.threads| && u != t ensures ThreadOk(c', u) {
      OthersKeep(c, c', t, u);
    }
  }

  /** What one access does to the parts: only its own moves, and it follows the serial run. */
  lemma {:induction false} OpTracksSerial(c: Config, t: nat, op: Op)
    requires Inv(c) && t < |c.threads| && c.threads[t].active.Some?
    requires c.threads[t].active.value.stage.Running?
    requires c.threads[t].active.value.stage.ran < |Body(c.threads[t].active.value.call)|
    requires op == Body(c.threads[t].active.value.call)[c.threads[t].active.value.stage.ran]
    ensures var a := c.threads[t].active.value;
            var after := RunOps(c.serial, Body(a.call)[..a.stage.ran + 1]);
            var now := DoOp(c.shared, a.seen, op);
            && Holds(c, t, Guard(op))
            && now.1 == after.1
            && (forall m: Mutex | m != Guard(op) :: Part(m, now.0) == Part(m, c.shared))
            && (forall m | Holds(c, t, m) :: Part(m, now.0) == Part(m, after.0))
  {
    var a := c.threads[t].active.value;
    var ran, body := a.stage.ran, Body(a.call);
    assert ThreadOk(c, t);
    assert Locks(a.call)[..a.held] == Locks(a.call);
    BodyIsGuarded(a.call);
    assert op in body;
    NextOp(c.serial, body, ran);
    var mid := RunOps(c.serial, body[..ran]).0;
    forall m: Mutex ensures m != Guard(op) ==> Part(m, DoOp(c.shared, a.seen, op).0) == Part(m, c.shared) {
      OpIsLocal(c.shared, mid, a.seen, op, m);
    }
    forall m: Mutex ensures m != Guard(op) ==> Part(m, DoOp(mid, a.seen, op).0) == Part(m, mid) {
      OpIsLocal(mid, c.shared, a.seen, op, m);
    }
    OpIsLocal(c.shared, mid, a.seen, op, Guard(op));
    assert Part(Guard(op), c.shared) == Part(Guard(op), mid);
  }

  lemma {:induction false} OpKeeps(c: Config, t: nat)
    requires Inv(c) && t < |c.threads| && c.threads[t].active.Some? && Next(c, t).Some?
    requires c.threads[t].active.value.stage.Running?
    requires c.threads[t].active.value.stage.ran < |Body(c.threads[t].active.value.call)|
    ensures Inv(Next(c, t).value)
  {
    var c' := Next(c, t).value;
    var a := c.threads[t].active.value;
    var op := Body(a.call)[a.stage.ran];
    OpTracksSerial(c, t, op);
    assert ThreadOk(c, t);
    forall u, m | 0 <= u < |c.threads| ensures Holds(c', u, m) <==> Holds(c, u, m) {
    }
    assert c.holder[Guard(op)] == t;
    forall u | 0 <= u < |c'.threads| && u != t ensures ThreadOk(c', u) {
      OthersKeep(c, c', t, u);
    }
    assert ThreadOk(c', t);
  }

  /** Giving back the lock taken last leaves every other holding as it was. */
  lemma {:induction false} ReleaseHolds(c: Config, c': Config, t: nat, given: Mutex)
    requires Inv(c) && t < |c.threads| && c.threads[t].active.Some?
    requires 0 < c.threads[t].active.value.held <= |Locks(c.threads[t].active.value.call)|
    requires given == Locks(c.threads[t].active.value.call)[c.threads[t].active.value.held - 1]
    requires |c'.threads| == |c.threads| && forall u | 0 <= u < |c.threads| && u != t :: c'.threads[u] == c.threads[u]
    requires c'.threads[t].active.Some?
    requires c'.threads[t].active.value.call == c.threads[t].active.value.call
    requires c'.threads[t].active.value.held == c.threads[t].active.value.held - 1
    ensures Holds(c, t, given)
    ensures forall u, m | 0 <= u < |c.threads| :: Holds(c', u, m) <==> Holds(c, u, m) && m != given
  {
    var a := c.threads[t].active.value;
    LocksDistinct(a.call, a.held - 1);
    assert Holds(c, t, given);
    assert c.holder[given] == t;
    forall u, m | 0 <= u < |c.threads| ensures Holds(c', u, m) <==> Holds(c, u, m) && m != given {
      if u != t {
        assert Holds(c', u, m) <==> Holds(c, u, m);
        if Holds(c, u, m) {
          assert c.holder[m] == u;
        }
      }
    }
  }

  lemma {:induction false} UnlockLocks(c: Config, t: nat)
    requires Inv(c) && t < |c.threads| && c.threads[t].active.Some? && Next(c, t).Some?
    requires c.threads[t].active.value.stage.Unlocking? && c.threads[t].active.value.held != 0
    ensures LocksOk(Next(c, t).value)
  {
    var a := c.threads[t].active.value;
    assert ThreadOk(c, t);
    ReleaseHolds(c, Next(c, t).value, t, Locks(a.call)[a.held - 1]);
  }

  lemma {:induction false} UnlockKeeps(c: Config, t: nat)
    requires Inv(c) && t < |c.threads| && c.threads[t].active.Some? && Next(c, t).Some?
    requires c.threads[t].active.value.stage.Unlocking? && c.threads[t].active.value.held != 0
    ensures Inv(Next(c, t).value)
  {
    var c' := Next(c, t).value;
    var a := c.threads[t].active.value;
    assert ThreadOk(c, t);
    ReleaseHolds(c, c', t, Locks(a.call)[a.held - 1]);
    forall u | 0 <= u < |c'.threads| && u != t ensures ThreadOk(c', u) {
      OthersKeep(c, c', t, u);
    }
    UnlockLocks(c, t);
    assert ThreadOk(c', t);
  }

  lemma {:induction false} CommitEffect(c: Config, t: nat)
    requires Inv(c) && t < |c.threads| && c.threads[t].active.Some?
    requires c.threads[t].active.value.stage.Running?
    requires c.threads[t].active.value.stage.ran == |Body(c.threads[t].active.value.call)|
    ensures var a := c.threads[t].active.value;
            var after := Apply(c.serial, a.call);
            && after.1 == a.seen
            && (forall m | m in Locks(a.call) :: Holds(c, t, m) && Part(m, c.shared) == Part(m, after.0))
            && (forall m | m !in Locks(a.call) :: Part(m, after.0) == Part(m, c.serial))
  {
    var a := c.threads[t].active.value;
    var locks, body := Locks(a.call), Body(a.call);
    assert ThreadOk(c, t);
    assert locks[..a.held] == locks && body[..|body|] == body;
    BodyIsGuarded(a.call);
    BodyMeansApply(c.serial, a.call);
    OpsAreLocal(c.serial, c.serial, body, locks);
    forall m | m in locks ensures Holds(c, t, m) {
    }
  }

  lemma {:induction false} CommitLocks(c: Config, t: nat)
    requires Inv(c) && t < |c.threads| && c.threads[t].active.Some? && Next(c, t).Some?
    requires c.threads[t].active.value.stage.Running?
    requires c.threads[t].active.value.stage.ran == |Body(c.threads[t].active.value.call)|
    ensures LocksOk(Next(c, t).value)
  {
    var a := c.threads[t].active.value;
    assert ThreadOk(c, t);
    CommitEffect(c, t);
    ReleaseHolds(c, Next(c, t).value, t, Locks(a.call)[a.held - 1]);
  }

  lemma {:induction false} CommitOthers(c: Config, t: nat)
    requires Inv(c) && t < |c.threads| && c.threads[t].active.Some? && Next(c, t).Some?
    requires c.threads[t].active.value.stage.Running?
    requires c.threads[t].active.value.stage.ran == |Body(c.threads[t].active.value.call)|
    ensures forall u | 0 <= u < |c.threads| && u != t :: ThreadOk(Next(c, t).value, u)
  {
    var c' := Next(c, t).value;
    var a := c.threads[t].active.value;
    CommitEffect(c, t);
    forall u | 0 <= u < |c.threads| && u != t ensures ThreadOk(c', u) {
      forall m | Holds(c, u, m) ensures m !in Locks(a.call) {
        assert c.holder[m] == u;
      }
      OthersKeep(c, c', t, u);
    }
  }

  /** The step at which a call joins the serial order. */
  lemma {:induction false} CommitKeeps(c: Config, t: nat)
    requires Inv(c) && t < |c.threads| && c.threads[t].active.Some? && Next(c, t).Some?
    requires c.threads[t].active.value.stage.Running?
    requires c.threads[t].active.value.stage.ran == |Body(c.threads[t].active.value.call)|
    ensures Inv(Next(c, t).value)
    ensures Apply(c.serial, c.threads[t].active.value.call)
         == (Next(c, t).value.serial, c.threads[t].active.value.seen)
  {
    var c' := Next(c, t).value;
    var a := c.threads[t].active.value;
    assert ThreadOk(c, t);
    CommitEffect(c, t);
    CommitOthers(c, t);
    CommitLocks(c, t);
    assert ThreadOk(c', t);
  }

  lemma {:induction false} StepKeeps(c: Config, t: nat)
    requires Inv(c) && t < |c.threads| && Next(c, t).Some?
    ensures Inv(Next(c, t).value)
  {
    assert ThreadOk(c, t);
    if c.threads[t].active.None? {
      StartKeeps(c, t);
    } else {
      var a := c.threads[t].active.value;
      match a.stage
      case Locking => AcquireKeeps(c, t);
      case Running(ran) => if ran < |Body(a.call)| { OpKeeps(c, t); } else { CommitKeeps(c, t); }
      case Unlocking => if a.held == 0 { FinishKeeps(c, t); } else { UnlockKeeps(c, t); }
    }
  }

  // ------------------------------------------------------------------ serializability

  function Serially(s: Shared, log: seq<Entry>): Shared {
    if log == [] then s else Apply(Serially(s, log[..|log| - 1]), log[|log| - 1].ret.call).0
  }

  /** Every call in the log returned what it returns in a serial run of the log. */
  ghost predicate ResultsAgree(s: Shared, log: seq<Entry>) {
    forall i | 0 <= i < |log| :: log[i].ret.value == Apply(Serially(s, log[..i]), log[i].ret.call).1
  }

  /** The part of the log that belongs to one thread. */
  function ReturnsOf(log: seq<Entry>, t: nat): seq<Return> {
    if log == [] then []
    else ReturnsOf(log[..|log| - 1], t) + if log[|log| - 1].thread == t then [log[|log| - 1].ret] else []
  }

  function CallsOf(rets: seq<Return>): seq<Call> {
    seq(|rets|, i requires 0 <= i < |rets| => rets[i].call)
  }

  /** What the thread has been given back so far, and how that splits its program. */
  ghost predicate HistoryOk(c: Config, t: nat, program: seq<Call>)
    requires t < |c.threads|
  {
    var th := c.threads[t];
    && ReturnsOf(c.log, t)
       == th.done + (if th.active.Some? && th.active.value.stage.Unlocking?
                     then [Return(th.active.value.call, th.active.value.seen)] else [])
    && program == CallsOf(th.done) + (if th.active.Some? then [th.active.value.call] else []) + th.todo
  }

  ghost predicate Good(c: Config, s: Shared, programs: seq<seq<Call>>) {
    && Inv(c)
    && c.serial == Serially(s, c.log)
    && ResultsAgree(s, c.log)
    && |c.threads| == |programs|
    && forall t | 0 <= t < |programs| :: HistoryOk(c, t, programs[t])
  }

  ghost predicate Steps(c: Config, c': Config) {
    exists t: nat :: t < |c.threads| && Next(c, t) == Some(c')
  }

  /** A run: from the start, one step of some thread after the other. */
  ghost predicate IsRun(run: seq<Config>, s: Shared, programs: seq<seq<Call>>) {
    && run != [] && run[0] == Start(s, programs)
    && forall i | 0 <= i < |run| - 1 :: Steps(run[i], run[i + 1])
  }

  lemma {:induction false} LogGrows(s: Shared, log: seq<Entry>, e: Entry)
    requires ResultsAgree(s, log) && e.ret.value == Apply(Serially(s, log), e.ret.call).1
    ensures ResultsAgree(s, log + [e])
    ensures Serially(s, log + [e]) == Apply(Serially(s, log), e.ret.call).0
    ensures forall t :: ReturnsOf(log + [e], t) == ReturnsOf(log, t) + if e.thread == t then [e.ret] else []
  {
    var l := log + [e];
    assert l[..|log|] == log;
    forall i | 0 <= i < |l| ensures l[i].ret.value == Apply(Serially(s, l[..i]), l[i].ret.call).1 {
      assert i < |log| ==> l[..i] == log[..i];
    }
  }

  /** A step that commits nothing moves the history of no other thread, and its own only by
      starting or finishing a call. */
  lemma {:induction false} QuietStepKeepsHistory(c: Config, t: nat, u: nat, program: seq<Call>)
    requires Inv(c) && t < |c.threads| && u < |c.threads| && Next(c, t).Some?
    requires HistoryOk(c, u, program) && Next(c, t).value.log == c.log
    ensures HistoryOk(Next(c, t).value, u, program)
  {
    var th, th' := c.threads[u], Next(c, t).value.threads[u];
    if t == u && th.active.Some? && th'.active.None? {
      assert CallsOf(th'.done) == CallsOf(th.done) + [th.active.value.call];
    }
  }

  lemma {:induction false} CommitKeepsHistory(c: Config, t: nat, u: nat, s: Shared, program: seq<Call>)
    requires Inv(c) && t < |c.threads| && u < |c.threads| && Next(c, t).Some?
    requires HistoryOk(c, u, program) && Next(c, t).value.log != c.log
    requires c.serial == Serially(s, c.log) && ResultsAgree(s, c.log)
    ensures HistoryOk(Next(c, t).value, u, program)
  {
    var a := c.threads[t].active.value;
    assert ThreadOk(c, t);
    CommitKeeps(c, t);
    LogGrows(s, c.log, Entry(t, Return(a.call, a.seen)));
    CommitExtendsHistory(c, Next(c, t).value, t, u, program);
  }

  lemma {:induction false} CommitExtendsHistory(c: Config, c': Config, t: nat, u: nat, program: seq<Call>)
    requires t < |c.threads| == |c'.threads| && u < |c.threads| && HistoryOk(c, u, program)
    requires c.threads[t].active.Some? && c.threads[t].active.value.stage.Running? && 0 < c.threads[t].active.value.held
    requires var a := c.threads[t].active.value;
      && ReturnsOf(c'.log, u) == ReturnsOf(c.log, u) + (if t == u then [Return(a.call, a.seen)] else [])
      && c'.threads[u] == if t == u then c.threads[u].(active := Some(a.(held := a.held - 1, stage := Unlocking))) else c.threads[u]
    ensures HistoryOk(c', u, program)
  {
  }

  lemma {:induction false} StepKeepsGood(c: Config, c': Config, s: Shared, programs: seq<seq<Call>>)
    requires Good(c, s, programs) && Steps(c, c')
    ensures Good(c', s, programs)
  {
    var t: nat :| t < |c.threads| && Next(c, t) == Some(c');
    StepKeeps(c, t);
    assert ThreadOk(c, t);
    if c'.log != c.log {
      var a := c.threads[t].active.value;
      CommitKeeps(c, t);
      LogGrows(s, c.log, Entry(t, Return(a.call, a.seen)));
    }
    forall u | 0 <= u < |programs| ensures HistoryOk(c', u, programs[u]) {
      assert HistoryOk(c, u, programs[u]);
      if c'.log == c.log {
        QuietStepKeepsHistory(c, t, u, programs[u]);
      } else {
        CommitKeepsHistory(c, t, u, s, programs[u]);
      }
    }
  }

  lemma {:induction false} RunIsGood(run: seq<Config>, s: Shared, programs: seq<seq<Call>>)
    requires IsRun(run, s, programs)
    ensures Good(run[|run| - 1], s, programs)
  {
    if |run| == 1 {
      StartOk(s, programs);
      assert forall t | 0 <= t < |programs| :: HistoryOk(run[0], t, programs[t]);
    } else {
      var front := run[..|run| - 1];
      forall i | 0 <= i < |front| - 1 ensures Steps(front[i], front[i + 1]) {
        assert Steps(run[i], run[i + 1]);
      }
      RunIsGood(front, s, programs);
      assert Steps(run[|run| - 2], run[|run| - 2 + 1]);
      StepKeepsGood(front[|front| - 1], run[|run| - 1], s, programs);
    }
  }

  /** Every interleaving is a serial run: the log orders the calls, keeps each thread's program
      order, explains every value returned, and, once no lock is held, the shared state too. */
  lemma {:induction false} EveryRunIsSerial(run: seq<Config>, s: Shared, programs: seq<seq<Call>>)
    requires IsRun(run, s, programs)
    ensures var c := run[|run| - 1];
            && ResultsAgree(s, c.log)
            && |c.threads| == |programs|
            && (forall t | 0 <= t < |programs| ::
                  c.threads[t].done <= ReturnsOf(c.log, t) && CallsOf(c.threads[t].done) <= programs[t])
            && (c.holder == map[] ==> c.shared == Serially(s, c.log))
  {
    RunIsGood(run, s, programs);
    var c := run[|run| - 1];
    forall t | 0 <= t < |programs|
      ensures c.threads[t].done <= ReturnsOf(c.log, t) && CallsOf(c.threads[t].done) <= programs[t]
    {
      assert HistoryOk(c, t, programs[t]);
    }
    if c.holder == map[] {
      assert Part(KeysMutex, c.shared) == Part(KeysMutex, c.serial);
      assert Part(ChainMutex, c.shared) == Part(ChainMutex, c.serial);
    }
  }

  // ------------------------------------------------------------------ progress

  ghost predicate Unfinished(th: Thread) {
    th.todo != [] || th.active.Some?
  }

  /** A thread that holds the chain lock never waits; nor does anyone once that lock is free,
      except a thread that wants the keys lock, whose holder can then move. */
  lemma {:induction false} NeverStuck(c: Config, t: nat)
    requires Inv(c) && t < |c.threads| && Unfinished(c.threads[t])
    ensures exists u: nat :: u < |c.threads| && Next(c, u).Some?
  {
    if ChainMutex in c.holder {
      var u := c.holder[ChainMutex];
      assert Holds(c, u, ChainMutex);
      HoldsLast(c.threads[u].active.value);
      CanMove(c, u);
    } else if KeysMutex in c.holder {
      assert Holds(c, c.holder[KeysMutex], KeysMutex);
      CanMove(c, c.holder[KeysMutex]);
    } else {
      CanMove(c, t);
    }
  }

  /** At no point of any run is there work left and no thread that can move. */
  lemma {:induction false} NoRunGetsStuck(run: seq<Config>, s: Shared, programs: seq<seq<Call>>, t: nat)
    requires IsRun(run, s, programs)
    requires t < |run[|run| - 1].threads| && Unfinished(run[|run| - 1].threads[t])
    ensures var c := run[|run| - 1]; exists u: nat :: u < |c.threads| && Next(c, u).Some?
  {
    RunIsGood(run, s, programs);
    NeverStuck(run[|run| - 1], t);
  }

  /** A thread moves unless the lock it wants next is taken. */
  lemma {:induction false} CanMove(c: Config, t: nat)
    requires Inv(c) && t < |c.threads| && Unfinished(c.threads[t])
    requires c.threads[t].active.Some? && c.threads[t].active.value.stage.Locking? ==>
               var a := c.threads[t].active.value;
               a.held < |Locks(a.call)| ==> Locks(a.call)[a.held] !in c.holder
    ensures Next(c, t).Some?
  {
    assert ThreadOk(c, t);
  }

  lemma {:induction false} HoldsLast(a: Active)
    requires a.held <= |Locks(a.call)| && ChainMutex in Locks(a.call)[..a.held]
    ensures a.held == |Locks(a.call)|
  {
  }

  // ------------------------------------------------------------------ keys before ledger

  predicate Supplies(call: Call, segment: TrackedSegment) {
    match call
    case CommitIncremental(_, tracked) => tracked == segment
    case CommitCompaction(_, ledger) => segment in ledger
    case _ => false
  }

  lemma {:induction false} HydratedMeansKeys(s: Shared, log: seq<Entry>, segment: TrackedSegment)
    requires segment !in s.trackedSegments
    requires forall e | e in log :: !Supplies(e.ret.call, segment)
    ensures segment in Serially(s, log).trackedSegments ==> Serially(s, log).keys.Some?
  {
    if log == [] {
    } else {
      var front := log[..|log| - 1];
      assert log[|log| - 1] in log;
      HydratedMeansKeys(s, front, segment);
    }
  }

  lemma {:induction false} KeysStay(s: Shared, log: seq<Entry>, i: nat)
    requires i <= |log| && Serially(s, log[..i]).keys.Some?
    ensures Serially(s, log).keys.Some?
  {
    if i < |log| {
      assert log[..|log| - 1][..i] == log[..i];
      KeysStay(s, log[..|log| - 1], i);
    } else {
      assert log[..i] == log;
    }
  }

  predicate FindsKeys(r: Return) {
    match r.call
    case HasKeys => r.value == Installed(true)
    case CloneKeys => r.value.Keys? && r.value.snapshot.Some?
    case RequireKeys => r.value.Required? && r.value.required.Ok?
    case _ => true
  }

  /** In a serial run: after a read of a ledger segment that only `install_keys` can have put there,
      every call finds the keys. */
  lemma {:induction false} SerialSeesKeys(s: Shared, log: seq<Entry>, i: nat, j: nat, segment: TrackedSegment)
    requires ResultsAgree(s, log) && i < j < |log|
    requires log[i].ret.value.Segments? && segment in log[i].ret.value.segments
    requires segment !in s.trackedSegments && forall e | e in log :: !Supplies(e.ret.call, segment)
    ensures FindsKeys(log[j].ret)
  {
    assert log[i].ret.value == Apply(Serially(s, log[..i]), log[i].ret.call).1;
    assert log[j].ret.value == Apply(Serially(s, log[..j]), log[j].ret.call).1;
    HydratedMeansKeys(s, log[..i], segment);
    assert log[..j][..i] == log[..i];
    KeysStay(s, log[..j], i);
  }

  // ------------------------------------------------------------------ real time

  lemma {:induction false} PointIsGood(run: seq<Config>, s: Shared, programs: seq<seq<Call>>, i: nat)
    requires IsRun(run, s, programs) && i < |run|
    ensures Good(run[i], s, programs)
  {
    var front := run[..i + 1];
    forall k | 0 <= k < |front| - 1 ensures Steps(front[k], front[k + 1]) {
      assert Steps(run[k], run[k + 1]);
    }
    RunIsGood(front, s, programs);
  }

  lemma {:induction false} StepGrowsLog(c: Config, c': Config)
    requires Steps(c, c')
    ensures c.log <= c'.log && |c.threads| == |c'.threads|
    ensures forall e | e in c'.log :: e in c.log || e.thread < |c.threads|
  {
  }

  /** The serial history is never rewritten. */
  lemma {:induction false} LogOnlyGrows(run: seq<Config>, s: Shared, programs: seq<seq<Call>>, i: nat, j: nat)
    requires IsRun(run, s, programs) && i <= j < |run|
    ensures run[i].log <= run[j].log
    decreases j - i
  {
    if i == j {
    } else {
      LogOnlyGrows(run, s, programs, i, j - 1);
      assert Steps(run[j - 1], run[j - 1 + 1]);
      StepGrowsLog(run[j - 1], run[j]);
    }
  }

  lemma {:induction false} LogNamesThreads(run: seq<Config>, s: Shared, programs: seq<seq<Call>>, i: nat)
    requires IsRun(run, s, programs) && i < |run|
    ensures |run[i].threads| == |programs| && forall e | e in run[i].log :: e.thread < |programs|
  {
    if i == 0 {
    } else {
      LogNamesThreads(run, s, programs, i - 1);
      assert Steps(run[i - 1], run[i - 1 + 1]);
      StepGrowsLog(run[i - 1], run[i]);
    }
  }

  lemma {:induction false} ReturnsGrow(log: seq<Entry>, n: nat, t: nat)
    requires n <= |log|
    ensures ReturnsOf(log[..n], t) <= ReturnsOf(log, t)
  {
    if n == |log| {
      assert log[..n] == log;
    } else {
      ReturnsGrow(log[..|log| - 1], n, t);
      assert log[..|log| - 1][..n] == log[..n];
    }
  }

  /** Position `p` of the log is the call that thread `t` made after `k` others. */
  ghost predicate Place(log: seq<Entry>, t: nat, k: nat, p: nat) {
    p < |log| && log[p].thread == t && |ReturnsOf(log[..p], t)| == k
  }

  lemma {:induction false} PlaceExists(log: seq<Entry>, t: nat, k: nat)
    requires k < |ReturnsOf(log, t)|
    ensures exists p: nat | Place(log, t, k, p) :: log[p].ret == ReturnsOf(log, t)[k]
  {
    var n := |log| - 1;
    var front := log[..n];
    if k < |ReturnsOf(front, t)| {
      PlaceExists(front, t, k);
      var p: nat :| Place(front, t, k, p) && front[p].ret == ReturnsOf(front, t)[k];
      assert front[..p] == log[..p];
      assert Place(log, t, k, p);
    } else {
      assert Place(log, t, k, n);
    }
  }

  lemma {:induction false} PlacesInOrder(log: seq<Entry>, t: nat, k: nat, p: nat, l: nat, q: nat)
    requires Place(log, t, k, p) && Place(log, t, l, q) && k < l
    ensures p < q
  {
    if q <= p {
      assert log[..p][..q] == log[..q];
      ReturnsGrow(log[..p], q, t);
      assert false;
    }
  }

  /** How many calls of its program a thread has begun. */
  function Begun(th: Thread): nat {
    |th.done| + if th.active.Some? then 1 else 0
  }

  /** A thread's part of the log is what it was given back, and at most the call it is in. */
  lemma {:induction false} DoneInLog(run: seq<Config>, s: Shared, programs: seq<seq<Call>>, i: nat, t: nat)
    requires IsRun(run, s, programs) && i < |run| && t < |run[i].threads|
    ensures run[i].threads[t].done <= ReturnsOf(run[i].log, t) && |ReturnsOf(run[i].log, t)| <= Begun(run[i].threads[t])
  {
    PointIsGood(run, s, programs, i);
    assert HistoryOk(run[i], t, programs[t]);
  }

  /** What a thread has been given back by some point of a run has its place in the log by then. */
  lemma {:induction false} EarlyPlace(run: seq<Config>, s: Shared, programs: seq<seq<Call>>, i: nat, t: nat, a: nat)
    requires IsRun(run, s, programs) && i < |run| && t < |run[i].threads| && a < |run[i].threads[t].done|
    ensures var late := run[|run| - 1].log;
      exists p: nat | p < |run[i].log| && Place(late, t, a, p) :: late[p].ret == run[i].threads[t].done[a]
  {
    var early, late := run[i].log, run[|run| - 1].log;
    DoneInLog(run, s, programs, i, t);
    LogOnlyGrows(run, s, programs, i, |run| - 1);
    PlaceExists(early, t, a);
    var p: nat :| Place(early, t, a, p) && early[p].ret == ReturnsOf(early, t)[a];
    assert early[..p] == late[..p] && Place(late, t, a, p);
  }

  /** What a thread has not begun by some point of a run gets its place in the log later. */
  lemma {:induction false} LatePlace(run: seq<Config>, s: Shared, programs: seq<seq<Call>>, i: nat, u: nat, b: nat)
    requires IsRun(run, s, programs) && i < |run| && u < |run[i].threads| == |run[|run| - 1].threads|
    requires Begun(run[i].threads[u]) <= b < |run[|run| - 1].threads[u].done|
    ensures var c := run[|run| - 1];
      exists q: nat | Place(c.log, u, b, q) :: |run[i].log| <= q && c.log[q].ret == c.threads[u].done[b]
  {
    var early, c := run[i].log, run[|run| - 1];
    DoneInLog(run, s, programs, i, u);
    DoneInLog(run, s, programs, |run| - 1, u);
    LogOnlyGrows(run, s, programs, i, |run| - 1);
    PlaceExists(c.log, u, b);
    var q: nat :| Place(c.log, u, b, q) && c.log[q].ret == ReturnsOf(c.log, u)[b];
    NotYetPlaced(early, c.log, u, b, q);
  }

  /** A call that has returned when another has not begun comes before it in the serial order. */
  lemma {:induction false} RealTimeOrder(run: seq<Config>, s: Shared, programs: seq<seq<Call>>, i: nat, t: nat, a: nat, u: nat, b: nat)
    requires IsRun(run, s, programs) && i < |run| && t < |run[i].threads| && u < |run[i].threads| == |run[|run| - 1].threads|
    requires a < |run[i].threads[t].done| && Begun(run[i].threads[u]) <= b < |run[|run| - 1].threads[u].done|
    ensures var c := run[|run| - 1];
      exists p: nat, q: nat | p < q && Place(c.log, t, a, p) && Place(c.log, u, b, q) ::
        c.log[p].ret == run[i].threads[t].done[a] && c.log[q].ret == c.threads[u].done[b]
  {
    EarlyPlace(run, s, programs, i, t, a);
    LatePlace(run, s, programs, i, u, b);
  }

  lemma {:induction false} NotYetPlaced(early: seq<Entry>, late: seq<Entry>, u: nat, b: nat, q: nat)
    requires early <= late && Place(late, u, b, q) && |ReturnsOf(early, u)| <= b
    ensures |early| <= q
  {
    PlaceCounts(late, u, b, q);
    assert q < |early| ==> early[..q + 1] == late[..q + 1];
    if q < |early| {
      ReturnsGrow(early, q + 1, u);
    }
  }

  lemma {:induction false} PlaceCounts(log: seq<Entry>, t: nat, k: nat, p: nat)
    requires Place(log, t, k, p)
    ensures |ReturnsOf(log[..p + 1], t)| == k + 1
  {
    assert log[..p + 1][..p] == log[..p];
  }

  lemma {:induction false} LogFromPrograms(run: seq<Config>, s: Shared, programs: seq<seq<Call>>, p: nat)
    requires IsRun(run, s, programs) && p < |run[|run| - 1].log|
    ensures var log := run[|run| - 1].log;
            var k := |ReturnsOf(log[..p], log[p].thread)|;
            && log[p].thread < |programs| && k < |programs[log[p].thread]|
            && log[p].ret.call == programs[log[p].thread][k]
  {
    var c := run[|run| - 1];
    var e := c.log[p];
    PointIsGood(run, s, programs, |run| - 1);
    LogNamesThreads(run, s, programs, |run| - 1);
    assert e in c.log;
    var t := e.thread;
    assert HistoryOk(c, t, programs[t]);
    ReturnsGrow(c.log, p + 1, t);
    assert c.log[..p + 1][..p] == c.log[..p];
    var k := |ReturnsOf(c.log[..p], t)|;
    assert ReturnsOf(c.log, t)[k] == e.ret;
    var th := c.threads[t];
    if k < |th.done| {
      assert CallsOf(th.done)[k] == e.ret.call;
      assert programs[t][k] == e.ret.call;
    } else {
      assert programs[t][k] == th.active.value.call;
    }
  }

  ghost predicate OnlyHydrationSupplies(s: Shared, programs: seq<seq<Call>>, segment: TrackedSegment) {
    segment !in s.trackedSegments && forall program, call | program in programs && call in program :: !Supplies(call, segment)
  }

  lemma {:induction false} LogSupplies(run: seq<Config>, s: Shared, programs: seq<seq<Call>>, segment: TrackedSegment)
    requires IsRun(run, s, programs) && OnlyHydrationSupplies(s, programs, segment)
    ensures forall e | e in run[|run| - 1].log :: !Supplies(e.ret.call, segment)
  {
    var log := run[|run| - 1].log;
    forall e | e in log ensures !Supplies(e.ret.call, segment) {
      var p :| 0 <= p < |log| && log[p] == e;
      LogFromPrograms(run, s, programs, p);
      assert programs[e.thread] in programs;
    }
  }

  lemma {:induction false} LogSeesKeys(run: seq<Config>, s: Shared, programs: seq<seq<Call>>, p: nat, q: nat, segment: TrackedSegment)
    requires IsRun(run, s, programs) && p < q < |run[|run| - 1].log| && OnlyHydrationSupplies(s, programs, segment)
    requires var v := run[|run| - 1].log[p].ret.value; v.Segments? && segment in v.segments
    ensures FindsKeys(run[|run| - 1].log[q].ret)
  {
    PointIsGood(run, s, programs, |run| - 1);
    LogSupplies(run, s, programs, segment);
    SerialSeesKeys(s, run[|run| - 1].log, p, q, segment);
  }

  /** In every run: once a call has returned a ledger segment that only a hydration supplies, every
      call that any thread begins after that finds the keys installed. */
  lemma {:induction false} SawHydratedSeesKeys(run: seq<Config>, s: Shared, programs: seq<seq<Call>>,
      i: nat, t: nat, a: nat, u: nat, b: nat, segment: TrackedSegment)
    requires IsRun(run, s, programs) && i < |run| && t < |run[i].threads| && u < |run[i].threads| == |run[|run| - 1].threads|
    requires a < |run[i].threads[t].done| && Begun(run[i].threads[u]) <= b < |run[|run| - 1].threads[u].done|
    requires run[i].threads[t].done[a].value.Segments? && segment in run[i].threads[t].done[a].value.segments
    requires OnlyHydrationSupplies(s, programs, segment)
    ensures FindsKeys(run[|run| - 1].threads[u].done[b])
  {
    var c := run[|run| - 1];
    RealTimeOrder(run, s, programs, i, t, a, u, b);
    var p: nat, q: nat :| p < q && Place(c.log, t, a, p) && Place(c.log, u, b, q)
      && c.log[p].ret == run[i].threads[t].done[a] && c.log[q].ret == c.threads[u].done[b];
    LogSeesKeys(run, s, programs, p, q, segment);
  }

  /** And so does every later call of the thread that saw it. */
  lemma {:induction false} ThreadThatSawSeesKeys(run: seq<Config>, s: Shared, programs: seq<seq<Call>>, t: nat, a: nat, b: nat, segment: TrackedSegment)
    requires IsRun(run, s, programs) && t < |run[|run| - 1].threads| && a < b < |run[|run| - 1].threads[t].done|
    requires var r := run[|run| - 1].threads[t].done[a]; r.value.Segments? && segment in r.value.segments
    requires OnlyHydrationSupplies(s, programs, segment)
    ensures FindsKeys(run[|run| - 1].threads[t].done[b])
  {
    var c := run[|run| - 1];
    PointIsGood(run, s, programs, |run| - 1);
    DoneInLog(run, s, programs, |run| - 1, t);
    PlaceExists(c.log, t, a);
    var p: nat :| Place(c.log, t, a, p) && c.log[p].ret == ReturnsOf(c.log, t)[a];
    PlaceExists(c.log, t, b);
    var q: nat :| Place(c.log, t, b, q) && c.log[q].ret == ReturnsOf(c.log, t)[b];
    PlacesInOrder(c.log, t, a, p, b, q);
    LogSeesKeys(run, s, programs, p, q, segment);
  }

  // ------------------------------------------------------------------ which serial orders occur

  /** Some run gets to the configuration. */
  ghost predicate Reachable(c: Config, s: Shared, programs: seq<seq<Call>>) {
    exists run :: IsRun(run, s, programs) && run[|run| - 1] == c
  }

  lemma {:induction false} StepReaches(c: Config, t: nat, s: Shared, programs: seq<seq<Call>>)
    requires Reachable(c, s, programs) && t < |c.threads| && Next(c, t).Some?
    ensures Reachable(Next(c, t).value, s, programs)
  {
    var run :| IsRun(run, s, programs) && run[|run| - 1] == c;
    var longer := run + [Next(c, t).value];
    forall i | 0 <= i < |longer| - 1 ensures Steps(longer[i], longer[i + 1]) {
      if i < |run| - 1 {
        assert Steps(run[i], run[i + 1]);
      }
    }
    assert IsRun(longer, s, programs) && longer[|longer| - 1] == Next(c, t).value;
  }

  /** No thread is inside a call. */
  ghost predicate AtRest(c: Config) {
    c.holder == map[] && c.shared == c.serial && forall t | 0 <= t < |c.threads| :: c.threads[t].active.None?
  }

  /** Who holds what when thread `t` alone is in a call. */
  ghost function HeldBy(t: nat, locks: seq<Mutex>): map<Mutex, nat> {
    map m | m in locks :: t
  }

  lemma {:induction false} HeldGrows(t: nat, call: Call, held: nat)
    requires held < |Locks(call)|
    ensures var (few, more) := (HeldBy(t, Locks(call)[..held]), HeldBy(t, Locks(call)[..held + 1]));
      Locks(call)[held] !in few && more == few[Locks(call)[held] := t] && more - {Locks(call)[held]} == few
  {
    LocksDistinct(call, held);
  }

  /** Thread `t` of a configuration at rest, some way into its next call. */
  ghost function Inside(c: Config, t: nat, shared: Shared, stage: Stage, held: nat, seen: Value): Config
    requires t < |c.threads| && c.threads[t].todo != [] && held <= |Locks(c.threads[t].todo[0])|
  {
    var th := c.threads[t];
    var locks := Locks(th.todo[0]);
    c.(shared := shared,
       holder := HeldBy(t, locks[..held]),
       threads := c.threads[t := Thread(th.todo[1..], Some(Active(th.todo[0], stage, held, seen)), th.done)])
  }

  /** What the configuration is once that call has committed. */
  ghost function Committed(c: Config, t: nat): Config
    requires t < |c.threads| && c.threads[t].todo != []
  {
    var call := c.threads[t].todo[0];
    c.(serial := Apply(c.serial, call).0, log := c.log + [Entry(t, Return(call, Apply(c.serial, call).1))])
  }

  ghost predicate CanCall(c: Config, t: nat, s: Shared, programs: seq<seq<Call>>) {
    Reachable(c, s, programs) && AtRest(c) && t < |c.threads| && c.threads[t].todo != []
  }

  lemma {:induction false} TakesLocks(c: Config, t: nat, held: nat, s: Shared, programs: seq<seq<Call>>)
    requires CanCall(c, t, s, programs) && held <= |Locks(c.threads[t].todo[0])|
    ensures Reachable(Inside(c, t, c.shared, if held == |Locks(c.threads[t].todo[0])| then Running(0) else Locking, held, Unit),
                      s, programs)
  {
    var locks := Locks(c.threads[t].todo[0]);
    if held == 0 {
      StepReaches(c, t, s, programs);
      assert Next(c, t).value == Inside(c, t, c.shared, Locking, 0, Unit);
    } else {
      TakesLocks(c, t, held - 1, s, programs);
      var d := Inside(c, t, c.shared, Locking, held - 1, Unit);
      HeldGrows(t, c.threads[t].todo[0], held - 1);
      StepReaches(d, t, s, programs);
      assert Next(d, t).value
          == Inside(c, t, c.shared, if held == |locks| then Running(0) else Locking, held, Unit);
    }
  }

  lemma {:induction false} RunsBody(c: Config, t: nat, ran: nat, s: Shared, programs: seq<seq<Call>>)
    requires CanCall(c, t, s, programs) && ran <= |Body(c.threads[t].todo[0])|
    ensures var call := c.threads[t].todo[0];
            var (shared, seen) := RunOps(c.shared, Body(call)[..ran]);
            Reachable(Inside(c, t, shared, Running(ran), |Locks(call)|, seen), s, programs)
  {
    var call := c.threads[t].todo[0];
    if ran == 0 {
      TakesLocks(c, t, |Locks(call)|, s, programs);
      assert RunOps(c.shared, Body(call)[..0]) == (c.shared, Unit);
    } else {
      RunsBody(c, t, ran - 1, s, programs);
      NextOp(c.shared, Body(call), ran - 1);
      var (shared, seen) := RunOps(c.shared, Body(call)[..ran - 1]);
      var (shared', seen') := RunOps(c.shared, Body(call)[..ran]);
      var d := Inside(c, t, shared, Running(ran - 1), |Locks(call)|, seen);
      StepReaches(d, t, s, programs);
      assert Next(d, t).value == Inside(c, t, shared', Running(ran), |Locks(call)|, seen');
    }
  }

  lemma {:induction false} Commits(c: Config, t: nat, s: Shared, programs: seq<seq<Call>>)
    requires CanCall(c, t, s, programs)
    ensures var (shared, seen) := Apply(c.serial, c.threads[t].todo[0]);
      Reachable(Inside(Committed(c, t), t, shared, Unlocking, |Locks(c.threads[t].todo[0])| - 1, seen), s, programs)
  {
    var call := c.threads[t].todo[0];
    var n := |Locks(call)|;
    var (shared, seen) := Apply(c.serial, call);
    RunsBody(c, t, |Body(call)|, s, programs);
    assert Body(call)[..|Body(call)|] == Body(call);
    BodyMeansApply(c.shared, call);
    var d := Inside(c, t, shared, Running(|Body(call)|), n, seen);
    StepReaches(d, t, s, programs);
    HeldGrows(t, call, n - 1);
    assert Next(d, t).value == Inside(Committed(c, t), t, shared, Unlocking, n - 1, seen);
  }

  lemma {:induction false} GivesLocks(c: Config, t: nat, held: nat, s: Shared, programs: seq<seq<Call>>)
    requires CanCall(c, t, s, programs) && held < |Locks(c.threads[t].todo[0])|
    ensures var (shared, seen) := Apply(c.serial, c.threads[t].todo[0]);
            Reachable(Inside(Committed(c, t), t, shared, Unlocking, held, seen), s, programs)
    decreases |Locks(c.threads[t].todo[0])| - held
  {
    var call := c.threads[t].todo[0];
    var (shared, seen) := Apply(c.serial, call);
    if held == |Locks(call)| - 1 {
      Commits(c, t, s, programs);
    } else {
      GivesLocks(c, t, held + 1, s, programs);
      var d := Inside(Committed(c, t), t, shared, Unlocking, held + 1, seen);
      StepReaches(d, t, s, programs);
      HeldGrows(t, call, held);
      assert Next(d, t).value == Inside(Committed(c, t), t, shared, Unlocking, held, seen);
    }
  }

  /** From a configuration at rest, any thread can make its next call without interruption. */
  lemma {:induction false} CallRuns(c: Config, t: nat, s: Shared, programs: seq<seq<Call>>)
    requires CanCall(c, t, s, programs)
    ensures var call := c.threads[t].todo[0];
      exists d :: Reachable(d, s, programs) && AtRest(d)
        && d.log == c.log + [Entry(t, Return(call, Apply(c.serial, call).1))]
  {
    var call := c.threads[t].todo[0];
    var (shared, seen) := Apply(c.serial, call);
    GivesLocks(c, t, 0, s, programs);
    var b := Inside(Committed(c, t), t, shared, Unlocking, 0, seen);
    StepReaches(b, t, s, programs);
    var d := Next(b, t).value;
    assert AtRest(d) && d.log == c.log + [Entry(t, Return(call, Apply(c.serial, call).1))];
  }

  /** Entry `i` is the next call of its thread's program, with the value it has in serial order. */
  ghost predicate InTurn(s: Shared, programs: seq<seq<Call>>, log: seq<Entry>, i: nat)
    requires i < |log|
  {
    var e := log[i];
    && e.thread < |programs|
    && var k := |ReturnsOf(log[..i], e.thread)|;
       && k < |programs[e.thread]|
       && e.ret == Return(programs[e.thread][k], Apply(Serially(s, log[..i]), programs[e.thread][k]).1)
  }

  ghost predicate IsSerialLog(s: Shared, programs: seq<seq<Call>>, log: seq<Entry>) {
    forall i | 0 <= i < |log| :: InTurn(s, programs, log, i)
  }

  lemma {:induction false} SerialLogRuns(s: Shared, programs: seq<seq<Call>>, log: seq<Entry>)
    requires IsSerialLog(s, programs, log)
    ensures exists c :: Reachable(c, s, programs) && AtRest(c) && c.log == log
  {
    if log == [] {
      var c := Start(s, programs);
      assert IsRun([c], s, programs) && [c][|[c]| - 1] == c;
      assert Reachable(c, s, programs) && AtRest(c) && c.log == log;
    } else {
      var n := |log| - 1;
      var front, e := log[..n], log[n];
      forall i | 0 <= i < n ensures InTurn(s, programs, front, i) {
        assert InTurn(s, programs, log, i) && front[..i] == log[..i];
      }
      SerialLogRuns(s, programs, front);
      var c :| Reachable(c, s, programs) && AtRest(c) && c.log == front;
      assert log == front + [e] && InTurn(s, programs, log, n);
      InTurnRuns(c, e, s, programs);
    }
  }

  lemma {:induction false} InTurnRuns(c: Config, e: Entry, s: Shared, programs: seq<seq<Call>>)
    requires Reachable(c, s, programs) && AtRest(c) && InTurn(s, programs, c.log + [e], |c.log|)
    ensures exists d :: Reachable(d, s, programs) && AtRest(d) && d.log == c.log + [e]
  {
    var run :| IsRun(run, s, programs) && run[|run| - 1] == c;
    PointIsGood(run, s, programs, |run| - 1);
    assert (c.log + [e])[..|c.log|] == c.log;
    assert HistoryOk(c, e.thread, programs[e.thread]);
    NextInProgram(c, e.thread, programs[e.thread]);
    CallRuns(c, e.thread, s, programs);
  }

  lemma {:induction false} NextInProgram(c: Config, t: nat, program: seq<Call>)
    requires t < |c.threads| && HistoryOk(c, t, program) && c.threads[t].active.None?
    requires |ReturnsOf(c.log, t)| < |program|
    ensures c.threads[t].todo != [] && c.threads[t].todo[0] == program[|ReturnsOf(c.log, t)|]
  {
  }

  lemma {:induction false} RunLogsAreSerial(run: seq<Config>, s: Shared, programs: seq<seq<Call>>)
    requires IsRun(run, s, programs)
    ensures IsSerialLog(s, programs, run[|run| - 1].log)
  {
    var log := run[|run| - 1].log;
    forall i | 0 <= i < |log| ensures InTurn(s, programs, log, i) {
      LogFromPrograms(run, s, programs, i);
      PointIsGood(run, s, programs, |run| - 1);
    }
  }

  /** The logs of runs are exactly the serial executions that take each thread's calls in the order
      of its program: no run has any other, and each of them is the log of a run. */
  lemma {:induction false} LogsExactlyWhen(s: Shared, programs: seq<seq<Call>>, log: seq<Entry>)
    ensures (exists run: seq<Config> :: IsRun(run, s, programs) && run[|run| - 1].log == log) <==> IsSerialLog(s, programs, log)
  {
    if run: seq<Config> :| IsRun(run, s, programs) && run[|run| - 1].log == log {
      RunLogsAreSerial(run, s, programs);
    }
    if IsSerialLog(s, programs, log) {
      SerialLogRuns(s, programs, log);
      var c :| Reachable(c, s, programs) && AtRest(c) && c.log == log;
      var run :| IsRun(run, s, programs) && run[|run| - 1] == c;
    }
  }

  // ------------------------------------------------------------------ compaction from a snapshot

  /** The call leaves the segment in the ledger by putting it there. */
  predicate Puts(call: Call, segment: TrackedSegment) {
    match call
    case InstallKeys(_, hydrated) => segment in hydrated
    case _ => Supplies(call, segment)
  }

  /** The call replaces the ledger by one without the segment. */
  predicate Drops(call: Call, segment: TrackedSegment) {
    match call
    case InstallKeys(_, hydrated) => segment !in hydrated
    case CommitCompaction(_, ledger) => segment !in ledger
    case _ => false
  }

  ghost predicate PutAndStays(log: seq<Entry>, k: nat, j: nat, segment: TrackedSegment)
    requires k < j <= |log|
  {
    Puts(log[k].ret.call, segment) && forall m | k < m < j :: !Drops(log[m].ret.call, segment)
  }

  lemma {:induction false} TrackedExactlyWhen(s: Shared, log: seq<Entry>, i: nat, j: nat, segment: TrackedSegment)
    requires i <= j <= |log| && segment !in Serially(s, log[..i]).trackedSegments
    ensures segment in Serially(s, log[..j]).trackedSegments
       <==> exists k: nat | i <= k < j :: PutAndStays(log, k, j, segment)
    decreases j - i
  {
    if i == j {
    } else {
      var n := j - 1;
      TrackedExactlyWhen(s, log, i, n, segment);
      assert log[..j][..n] == log[..n] && log[..j][n] == log[n];
      var call := log[n].ret.call;
      if Puts(call, segment) {
        assert PutAndStays(log, n, j, segment);
      } else if Drops(call, segment) {
      } else {
        forall k: nat | i <= k < n ensures PutAndStays(log, k, j, segment) <==> PutAndStays(log, k, n, segment) {
        }
      }
    }
  }

  /** The part of the state a call overwrites. */
  datatype Slot = KeysSlot | TailSlot | LedgerSlot

  /** The value a call leaves in a slot whatever was there, if it does so. */
  predicate Overwrites(call: Call, slot: Slot) {
    match slot
    case KeysSlot => call.InstallKeys?
    case TailSlot => call.SetPreviousManifest? || call.CommitIncremental? || call.CommitCompaction?
    case LedgerSlot => call.InstallKeys? || call.CommitCompaction?
  }

  /** The last of the first `j` calls that overwrites the slot. */
  function Latest(log: seq<Entry>, j: nat, slot: Slot): (r: Option<nat>)
    requires j <= |log|
    ensures match r
            case None => forall m | 0 <= m < j :: !Overwrites(log[m].ret.call, slot)
            case Some(k) => k < j && Overwrites(log[k].ret.call, slot) && forall m | k < m < j :: !Overwrites(log[m].ret.call, slot)
  {
    if j == 0 then None
    else if Overwrites(log[j - 1].ret.call, slot) then Some(j - 1)
    else Latest(log, j - 1, slot)
  }

  function TailOf(call: Call): Option<ManifestTail>
    requires Overwrites(call, TailSlot)
  {
    match call
    case SetPreviousManifest(tail) => tail
    case CommitIncremental(m, _) => Some(m)
    case CommitCompaction(m, _) => Some(m)
  }

  function LedgerIn(call: Call): seq<TrackedSegment>
    requires Overwrites(call, LedgerSlot)
  {
    match call
    case InstallKeys(_, hydrated) => hydrated
    case CommitCompaction(_, ledger) => ledger
  }

  /** The segments that incremental backups appended from entry `i` up to entry `j`, in order. */
  function Appended(log: seq<Entry>, i: nat, j: nat): seq<TrackedSegment>
    requires i <= j <= |log|
  {
    if i == j then []
    else Appended(log, i, j - 1) + if log[j - 1].ret.call.CommitIncremental? then [log[j - 1].ret.call.tracked] else []
  }

  function KeysAt(s: Shared, log: seq<Entry>, j: nat): Option<BackupKeys>
    requires j <= |log|
  {
    match Latest(log, j, KeysSlot)
    case None => s.keys
    case Some(k) => Some(log[k].ret.call.keys)
  }

  function TailAt(s: Shared, log: seq<Entry>, j: nat): Option<ManifestTail>
    requires j <= |log|
  {
    match Latest(log, j, TailSlot)
    case None => s.previousManifest
    case Some(k) => TailOf(log[k].ret.call)
  }

  /** The ledger of the last call that replaced it, and where the calls after that one begin. */
  function LedgerBase(s: Shared, log: seq<Entry>, j: nat): (r: (seq<TrackedSegment>, nat))
    requires j <= |log|
    ensures r.1 <= j
  {
    match Latest(log, j, LedgerSlot)
    case None => (s.trackedSegments, 0)
    case Some(k) => (LedgerIn(log[k].ret.call), k + 1)
  }

  /** That ledger, and after it what was appended since. */
  function LedgerAt(s: Shared, log: seq<Entry>, j: nat): seq<TrackedSegment>
    requires j <= |log|
  {
    LedgerBase(s, log, j).0 + Appended(log, LedgerBase(s, log, j).1, j)
  }

  /** The state after the first `j` calls, by what the last of them left in each slot. */
  lemma {:induction false} SerialHoldsLatest(s: Shared, log: seq<Entry>, j: nat)
    requires j <= |log|
    ensures Serially(s, log[..j]) == Shared(KeysAt(s, log, j), TailAt(s, log, j), LedgerAt(s, log, j))
  {
    if j == 0 {
      assert s.trackedSegments + [] == s.trackedSegments;
    } else {
      SerialHoldsLatest(s, log, j - 1);
      assert log[..j][..j - 1] == log[..j - 1];
      LatestMoves(s, log, j);
    }
  }

  lemma {:induction false} LatestMoves(s: Shared, log: seq<Entry>, j: nat)
    requires 0 < j <= |log|
    ensures Shared(KeysAt(s, log, j), TailAt(s, log, j), LedgerAt(s, log, j))
         == Apply(Shared(KeysAt(s, log, j - 1), TailAt(s, log, j - 1), LedgerAt(s, log, j - 1)), log[j - 1].ret.call).0
  {
    KeysMove(s, log, j);
    TailMoves(s, log, j);
    LedgerGrows(s, log, j);
    ApplyIs(Shared(KeysAt(s, log, j - 1), TailAt(s, log, j - 1), LedgerAt(s, log, j - 1)), log[j - 1].ret.call);
  }

  lemma {:induction false} ApplyIs(s: Shared, call: Call)
    ensures Apply(s, call).0 == Shared(
      if call.InstallKeys? then Some(call.keys) else s.keys,
      if Overwrites(call, TailSlot) then TailOf(call) else s.previousManifest,
      if Overwrites(call, LedgerSlot) then LedgerIn(call)
      else if call.CommitIncremental? then s.trackedSegments + [call.tracked]
      else s.trackedSegments)
  {
  }

  lemma {:induction false} KeysMove(s: Shared, log: seq<Entry>, j: nat)
    requires 0 < j <= |log|
    ensures KeysAt(s, log, j) == if log[j - 1].ret.call.InstallKeys? then Some(log[j - 1].ret.call.keys) else KeysAt(s, log, j - 1)
  {
  }

  lemma {:induction false} TailMoves(s: Shared, log: seq<Entry>, j: nat)
    requires 0 < j <= |log|
    ensures var call := log[j - 1].ret.call;
      TailAt(s, log, j) == if Overwrites(call, TailSlot) then TailOf(call) else TailAt(s, log, j - 1)
  {
  }

  lemma {:induction false} AppendedGrows(base: seq<TrackedSegment>, log: seq<Entry>, i: nat, j: nat)
    requires i < j <= |log|
    ensures base + Appended(log, i, j)
         == if log[j - 1].ret.call.CommitIncremental? then base + Appended(log, i, j - 1) + [log[j - 1].ret.call.tracked]
            else base + Appended(log, i, j - 1)
  {
    var front := Appended(log, i, j - 1);
    if log[j - 1].ret.call.CommitIncremental? {
      Regroup(base, front, [log[j - 1].ret.call.tracked]);
    } else {
      assert front + [] == front;
    }
  }

  lemma {:induction false} BaseStays(s: Shared, log: seq<Entry>, j: nat)
    requires 0 < j <= |log|
    ensures var call := log[j - 1].ret.call;
      LedgerBase(s, log, j) == if Overwrites(call, LedgerSlot) then (LedgerIn(call), j) else LedgerBase(s, log, j - 1)
  {
  }

  lemma {:induction false} LedgerGrows(s: Shared, log: seq<Entry>, j: nat)
    requires 0 < j <= |log|
    ensures var call := log[j - 1].ret.call;
      LedgerAt(s, log, j)
      == if Overwrites(call, LedgerSlot) then LedgerIn(call)
         else if call.CommitIncremental? then LedgerAt(s, log, j - 1) + [call.tracked]
         else LedgerAt(s, log, j - 1)
  {
    var call := log[j - 1].ret.call;
    BaseStays(s, log, j);
    if Overwrites(call, LedgerSlot) {
      assert Appended(log, j, j) == [] && LedgerIn(call) + [] == LedgerIn(call);
    } else {
      AppendedGrows(LedgerBase(s, log, j).0, log, LedgerBase(s, log, j).1, j);
    }
  }

  /** In every run: what a call returned is the keys, the manifest tail or the ledger as the calls before
      it in the log left them: those of the last call that overwrote them, and for the ledger what
      incremental backups appended since. */
  lemma {:induction false} ReadsSeeLatest(run: seq<Config>, s: Shared, programs: seq<seq<Call>>, j: nat)
    requires IsRun(run, s, programs) && j < |run[|run| - 1].log|
    ensures var log := run[|run| - 1].log;
      match log[j].ret.call
      case CloneKeys => log[j].ret.value == Keys(KeysAt(s, log, j))
      case HasKeys => log[j].ret.value == Installed(KeysAt(s, log, j).Some?)
      case RequireKeys => log[j].ret.value == Required(if KeysAt(s, log, j).Some? then Ok(KeysAt(s, log, j).value) else Err("backup_keys"))
      case GetPreviousManifest => log[j].ret.value == Manifest(TailAt(s, log, j))
      case GetTrackedSegments => log[j].ret.value == Segments(LedgerAt(s, log, j))
      case _ => log[j].ret.value == Unit
  {
    var log := run[|run| - 1].log;
    PointIsGood(run, s, programs, |run| - 1);
    assert log[j].ret.value == Apply(Serially(s, log[..j]), log[j].ret.call).1;
    SerialHoldsLatest(s, log, j);
  }

  lemma {:induction false} SerialStaleLoss(s: Shared, log: seq<Entry>, i: nat, j: nat, segment: TrackedSegment)
    requires i < j < |log| && log[i].ret.call == GetTrackedSegments && log[j].ret.call.CommitCompaction?
    requires segment !in Serially(s, log[..i]).trackedSegments
    ensures segment in Serially(s, log[..j]).trackedSegments && segment !in Serially(s, log[..j + 1]).trackedSegments
      <==> segment !in log[j].ret.call.ledger && exists k: nat | i < k < j :: PutAndStays(log, k, j, segment)
  {
    TrackedExactlyWhen(s, log, i, j, segment);
    assert log[..j + 1][..j] == log[..j];
    assert !PutAndStays(log, i, j, segment);
  }

  /** A compaction committed from an earlier read of the ledger: it takes away a segment that the read
      had not returned exactly when its own ledger lacks that segment and some call between the two
      put it there to stay. Nothing is held between the read and the commit. */
  lemma {:induction false} StaleCompactionLosesExactlyWhen(run: seq<Config>, s: Shared, programs: seq<seq<Call>>, i: nat, j: nat, segment: TrackedSegment)
    requires IsRun(run, s, programs) && i < j < |run[|run| - 1].log|
    requires run[|run| - 1].log[i].ret.call == GetTrackedSegments && run[|run| - 1].log[j].ret.call.CommitCompaction?
    requires run[|run| - 1].log[i].ret.value.Segments? ==> segment !in run[|run| - 1].log[i].ret.value.segments
    ensures var log := run[|run| - 1].log;
      segment in Serially(s, log[..j]).trackedSegments && segment !in Serially(s, log[..j + 1]).trackedSegments
      <==> segment !in log[j].ret.call.ledger && exists k: nat | i < k < j :: PutAndStays(log, k, j, segment)
  {
    var log := run[|run| - 1].log;
    PointIsGood(run, s, programs, |run| - 1);
    assert log[i].ret.value == Apply(Serially(s, log[..i]), log[i].ret.call).1;
    SerialStaleLoss(s, log, i, j, segment);
  }

  /** Thread 0 reads the ledger, thread 1 commits a segment, and thread 0 commits a compaction that
      does not know of it. */
  ghost function StaleLog(s: Shared, m: ManifestTail, segment: TrackedSegment, m': ManifestTail, ledger: seq<TrackedSegment>): seq<Entry> {
    [Entry(0, Return(GetTrackedSegments, Segments(s.trackedSegments))),
     Entry(1, Return(CommitIncremental(m, segment), Unit)),
     Entry(0, Return(CommitCompaction(m', ledger), Unit))]
  }

  lemma {:induction false} StaleLogIsSerial(s: Shared, m: ManifestTail, segment: TrackedSegment, m': ManifestTail, ledger: seq<TrackedSegment>)
    ensures var log := StaleLog(s, m, segment, m', ledger);
      && IsSerialLog(s, [[GetTrackedSegments, CommitCompaction(m', ledger)], [CommitIncremental(m, segment)]], log)
      && Serially(s, log[..2]).trackedSegments == s.trackedSegments + [segment]
      && Serially(s, log).trackedSegments == ledger
  {
    var log := StaleLog(s, m, segment, m', ledger);
    assert log[..0] == [] && log[..1][..0] == [] && log[..2][..1] == log[..1];
    assert Serially(s, log[..1]) == s;
    assert log[..1] == [log[0]] && ReturnsOf(log[..0], 0) == ReturnsOf(log[..0], 1) == [];
    assert ReturnsOf(log[..1], 0) == [log[0].ret];
    assert ReturnsOf(log[..1], 1) == [];
    assert ReturnsOf(log[..2], 0) == [log[0].ret];
  }

  /** Such runs are there, from any state, for any segment and for any ledger without it: the segment
      is committed, stands, and is gone when all calls have returned. */
  lemma {:induction false} StaleCompactionLoses(s: Shared, m: ManifestTail, segment: TrackedSegment, m': ManifestTail, ledger: seq<TrackedSegment>)
    requires segment !in s.trackedSegments && segment !in ledger
    ensures var programs := [[GetTrackedSegments, CommitCompaction(m', ledger)], [CommitIncremental(m, segment)]];
      exists run: seq<Config> :: IsRun(run, s, programs)
        && run[|run| - 1].log == StaleLog(s, m, segment, m', ledger)
        && segment in Serially(s, run[|run| - 1].log[..2]).trackedSegments
        && AtRest(run[|run| - 1]) && run[|run| - 1].shared.trackedSegments == ledger
  {
    var programs := [[GetTrackedSegments, CommitCompaction(m', ledger)], [CommitIncremental(m, segment)]];
    var log := StaleLog(s, m, segment, m', ledger);
    StaleLogIsSerial(s, m, segment, m', ledger);
    SerialLogRuns(s, programs, log);
    var c :| Reachable(c, s, programs) && AtRest(c) && c.log == log;
    var run :| IsRun(run, s, programs) && run[|run| - 1] == c;
    PointIsGood(run, s, programs, |run| - 1);
  }
}
