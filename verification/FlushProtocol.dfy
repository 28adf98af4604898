/** The dirty flag: any number of writers, one lock, one flag, and the worker that writes the file. */
module FlushProtocol {
  import opened DatabaseImage

  /** Where a writer is: inside the lock before or after its change, or past the lock with its store still to do. */
  datatype Pc = Entered(op: Operation) | MustStore | Leaving(storeDue: bool) | Pending

  datatype WorkerPc = Testing | Waiting | Retesting | Syncing | Clearing | Unlocking

  datatype Holder = Nobody | Worker | Writer(id: nat)

  /** A completed change, in lock order. */
  datatype Entry = Entry(op: Operation, store: Store)

  datatype State = State(
    image: Image, disk: Image, dirty: bool, lock: Holder, writers: map<nat, Pc>, worker: WorkerPc,
    /* history */ log: seq<Entry>, synced: nat, written: bool, failed: bool)

  /** A new database: nothing in memory, whatever the file held on disk. */
  function Start(file: Image): State {
    State(EMPTY, file, false, Nobody, map[], Testing, [], 0, false, false)
  }

  datatype Action =
    | Enter(id: nat, op: Operation) | Change(id: nat) | StoreInside(id: nat) | Leave(id: nat) | StoreOutside(id: nat)
    | Test | Acquire | Retest | Sync | SyncFails | Clear | Unlock

  predicate Enabled(s: State, a: Action) {
    match a
    case Enter(id, _) => id !in s.writers && s.lock == Nobody
    case Change(id) => id in s.writers && s.writers[id].Entered?
    case StoreInside(id) => id in s.writers && s.writers[id].MustStore?
    case Leave(id) => id in s.writers && s.writers[id].Leaving?
    case StoreOutside(id) => id in s.writers && s.writers[id].Pending?
    case Test => s.worker == Testing
    case Acquire => s.worker == Waiting && s.lock == Nobody
    case Retest => s.worker == Retesting
    case Sync | SyncFails => s.worker == Syncing
    case Clear => s.worker == Clearing
    case Unlock => s.worker == Unlocking
  }

  /** One atomic step; a change is the whole locked body of an operation. */
  function Step(s: State, a: Action): State
    requires Enabled(s, a)
  {
    match a
    case Enter(id, op) => s.(lock := Writer(id), writers := s.writers[id := Entered(op)])
    case Change(id) =>
      var op := s.writers[id].op;
      var e := Perform(s.image, op);
      if e.threw then s.(writers := s.writers[id := Leaving(false)])
      else
        s.(image := e.image, log := s.log + [Entry(op, e.store)],
           writers := s.writers[id := if e.store == UnderLock then MustStore else Leaving(e.store == AfterUnlock)])
    case StoreInside(id) => s.(dirty := true, writers := s.writers[id := Leaving(false)])
    case Leave(id) =>
      s.(lock := Nobody, writers := if s.writers[id].storeDue then s.writers[id := Pending] else s.writers - {id})
    case StoreOutside(id) => s.(dirty := true, writers := s.writers - {id})
    case Test => s.(worker := if s.dirty then Waiting else Testing)
    case Acquire => s.(worker := Retesting, lock := Worker)
    case Retest => s.(worker := if s.dirty then Syncing else Unlocking)
    case Sync => s.(disk := s.image, synced := |s.log|, written := true, failed := false, worker := Clearing)
    case SyncFails => s.(failed := true, worker := Clearing)
    case Clear => s.(dirty := false, worker := Unlocking)
    case Unlock => s.(lock := Nobody, worker := Testing)
  }

  /** A run: every action is enabled when its turn comes. */
  predicate IsRun(s: State, actions: seq<Action>)
    decreases |actions|
  {
    actions == [] || (Enabled(s, actions[0]) && IsRun(Step(s, actions[0]), actions[1..]))
  }

  function After(s: State, actions: seq<Action>): State
    requires IsRun(s, actions)
    decreases |actions|
  {
    if actions == [] then s else After(Step(s, actions[0]), actions[1..])
  }

  // ---- the invariant ------------------------------------------------------------------

  /** The image after the changes of `log`, from an empty database. */
  function Replay(log: seq<Entry>): Image {
    if log == [] then EMPTY else Perform(Replay(log[..|log| - 1]), log[|log| - 1].op).image
  }

  predicate InLock(pc: Pc) {
    !pc.Pending?
  }

  predicate WorkerInLock(pc: WorkerPc) {
    pc == Retesting || pc == Syncing || pc == Clearing || pc == Unlocking
  }

  /** A store into the flag is still to come from this writer. */
  predicate StoreDue(pc: Pc) {
    pc.MustStore? || pc.Pending? || (pc.Leaving? && pc.storeDue)
  }

  ghost predicate AnyStoreDue(s: State) {
    exists id :: id in s.writers && StoreDue(s.writers[id])
  }

  /** The lock has one holder, and the program counters agree on who it is. */
  ghost predicate OneHolder(s: State) {
    && (forall id :: id in s.writers && InLock(s.writers[id]) ==> s.lock == Writer(id))
    && (s.lock.Writer? ==> s.lock.id in s.writers && InLock(s.writers[s.lock.id]))
    && (WorkerInLock(s.worker) <==> s.lock == Worker)
  }

  /** The store each entry of the log makes is the one its operation prescribes at that point. */
  ghost predicate LogStores(log: seq<Entry>) {
    forall i :: 0 <= i < |log| ==>
      !Perform(Replay(log[..i]), log[i].op).threw && log[i].store == Perform(Replay(log[..i]), log[i].op).store
  }

  /** Memory and file are the states after all changes and after a prefix of them, in lock order. */
  ghost predicate Replayed(s: State, file: Image) {
    && s.image == Replay(s.log) && LogStores(s.log) && s.synced <= |s.log|
    && (if s.written then s.disk == Replay(s.log[..s.synced]) else s.disk == file && s.synced == 0)
  }

  /** No change the writer announces is unsynced. */
  ghost predicate OnlyQuietLeft(s: State) {
    forall i :: s.synced <= i < |s.log| ==> s.log[i].store == NoStore
  }

  /** Flag down, nobody about to raise it: nothing announced is missing from the file. */
  ghost predicate NothingLost(s: State) {
    s.failed || s.dirty || AnyStoreDue(s) || OnlyQuietLeft(s)
  }

  ghost predicate Inv(s: State, file: Image) {
    OneHolder(s) && Replayed(s, file) && NothingLost(s) && WorkerKnows(s)
  }

  /** About to clear the flag after a successful write, the file is up to date; about to write, the flag is up. */
  ghost predicate WorkerKnows(s: State) {
    && (s.worker == Clearing && !s.failed ==> s.synced == |s.log|)
    && (s.worker == Waiting || s.worker == Retesting || s.worker == Syncing ==> s.dirty)
  }

  lemma ReplayMore(log: seq<Entry>, e: Entry)
    ensures Replay(log + [e]) == Perform(Replay(log), e.op).image
  {
    assert (log + [e])[..|log|] == log;
  }

  lemma ReplayedStep(s: State, a: Action, file: Image)
    requires Enabled(s, a) && Replayed(s, file)
    ensures Replayed(Step(s, a), file)
  {
    hide Perform, Replay;
    if a.Change? && !Perform(s.image, s.writers[a.id].op).threw {
      var e := Entry(s.writers[a.id].op, Perform(s.image, s.writers[a.id].op).store);
      var log := s.log + [e];
      ReplayMore(s.log, e);
      forall i | 0 <= i < |log|
        ensures !Perform(Replay(log[..i]), log[i].op).threw &&
                log[i].store == Perform(Replay(log[..i]), log[i].op).store
      {
        assert log[..i] == s.log[..i];
        if i == |s.log| { assert s.log[..i] == s.log; }
      }
      assert log[..s.synced] == s.log[..s.synced];
    } else if a.Sync? {
      assert s.log[..|s.log|] == s.log;
    }
  }

  lemma OneHolderStep(s: State, a: Action)
    requires Enabled(s, a) && OneHolder(s)
    ensures OneHolder(Step(s, a))
  {
    hide Perform;
  }

  /** Only the writer of `a` moves, so the other stores that are due stay due. */
  lemma NothingLostStep(s: State, a: Action, file: Image)
    requires Enabled(s, a) && Inv(s, file)
    ensures NothingLost(Step(s, a))
  {
    hide Perform, Replay, LogStores;
    var t := Step(s, a);
    if !t.failed && !t.dirty && !OnlyQuietLeft(t) {
      var i :| t.synced <= i < |t.log| && t.log[i].store != NoStore;
      if i < |s.log| {
        assert s.log[i] == t.log[i];
        assert !OnlyQuietLeft(s);
        var id :| id in s.writers && StoreDue(s.writers[id]);
        assert id in t.writers && StoreDue(t.writers[id]);
      } else {
        assert StoreDue(t.writers[a.id]);
      }
    }
  }

  lemma WorkerKnowsStep(s: State, a: Action)
    requires Enabled(s, a) && OneHolder(s) && WorkerKnows(s)
    ensures WorkerKnows(Step(s, a))
  {
    hide Perform;
  }

  lemma Advances(s: State, a: Action, file: Image)
    requires Enabled(s, a) && Replayed(s, file)
    ensures s.synced <= Step(s, a).synced && s.log <= Step(s, a).log
  {
    hide Perform, Replay, LogStores;
  }

  lemma InvStep(s: State, a: Action, file: Image)
    requires Enabled(s, a) && Inv(s, file)
    ensures Inv(Step(s, a), file)
    ensures s.synced <= Step(s, a).synced && s.log <= Step(s, a).log
  {
    hide Perform, Replay, Replayed, LogStores, NothingLost, OneHolder, WorkerKnows, Step;
    OneHolderStep(s, a);
    ReplayedStep(s, a, file);
    NothingLostStep(s, a, file);
    WorkerKnowsStep(s, a);
    Advances(s, a, file);
  }

  // ---- every run ----------------------------------------------------------------------

  lemma {:induction false} InvRun(s: State, actions: seq<Action>, file: Image)
    requires Inv(s, file) && IsRun(s, actions)
    ensures Inv(After(s, actions), file)
    ensures s.synced <= After(s, actions).synced && s.log <= After(s, actions).log
    decreases |actions|
  {
    hide Inv, Step;
    if actions != [] {
      InvStep(s, actions[0], file);
      InvRun(Step(s, actions[0]), actions[1..], file);
    }
  }

  /** At the start memory is empty, the flag down, the lock free and the worker at its test. */
  lemma StartInv(file: Image)
    ensures Inv(Start(file), file)
    ensures var s := Start(file);
            && s.image == EMPTY == Image(map[], map[]) && s.disk == file && !s.dirty && s.lock == Nobody
            && s.writers == map[] && s.worker == Testing && s.log == [] && !s.written && !s.failed
  {
  }

  /** The change at `i` altered the image without announcing it. */
  predicate QuietChangeAt(log: seq<Entry>, i: nat)
    requires i < |log|
  {
    IsQuietChange(Replay(log[..i]), log[i].op)
  }

  lemma {:induction false} QuietTail(log: seq<Entry>, k: nat)
    requires k <= |log| && LogStores(log)
    requires forall i :: k <= i < |log| ==> log[i].store == NoStore && !QuietChangeAt(log, i)
    ensures Replay(log) == Replay(log[..k])
    decreases |log|
  {
    hide Perform, IsQuietChange;
    if k < |log| {
      var n := |log| - 1;
      var front := log[..n];
      assert forall i :: 0 <= i <= n ==> front[..i] == log[..i];
      QuietTail(front, k);
      QuietChanges(Replay(front), log[n].op);
      assert log[..n] == front;
    } else {
      assert log[..k] == log;
    }
  }

  /**
   No lost flush. Whatever the writers and the worker do: once the file has been written, if the last write
   succeeded, the flag is down and no writer still has to raise it, then file and memory agree, unless one of
   the two quiet changes happened since the write.
   */
  lemma NoLostFlush(file: Image, actions: seq<Action>)
    requires IsRun(Start(file), actions)
    ensures var s := After(Start(file), actions);
            && s.written && !s.failed && !s.dirty && !AnyStoreDue(s)
            && (forall i :: s.synced <= i < |s.log| ==> !QuietChangeAt(s.log, i))
            ==> s.disk == s.image
  {
    hide Perform, Replay, IsQuietChange, Step;
    var s := After(Start(file), actions);
    StartInv(file);
    InvRun(Start(file), actions, file);
    if && s.written && !s.failed && !s.dirty && !AnyStoreDue(s)
       && (forall i :: s.synced <= i < |s.log| ==> !QuietChangeAt(s.log, i))
    {
      QuietTail(s.log, s.synced);
    }
  }

  /** The file is always what it was at the start or the state after a prefix of the changes in lock order. */
  lemma FileIsAPrefix(file: Image, actions: seq<Action>)
    requires IsRun(Start(file), actions)
    ensures var s := After(Start(file), actions);
            s.image == Replay(s.log) && s.synced <= |s.log| && s.disk == if s.written then Replay(s.log[..s.synced]) else file
  {
    hide Perform, Replay, Step;
    StartInv(file);
    InvRun(Start(file), actions, file);
  }

  lemma {:induction false} RunAppend(s: State, a: seq<Action>, b: seq<Action>)
    requires IsRun(s, a)
    ensures IsRun(s, a + b) <==> IsRun(After(s, a), b)
    ensures IsRun(s, a + b) ==> After(s, a + b) == After(After(s, a), b)
    decreases |a|
  {
    hide Step;
    if a == [] {
      assert a + b == b;
    } else {
      assert (a + b)[0] == a[0] && (a + b)[1..] == a[1..] + b;
      RunAppend(Step(s, a[0]), a[1..], b);
    }
  }

  /** As a run goes on, the prefix in the file never shrinks and what it is a prefix of is never rewritten. */
  lemma FileOnlyAdvances(file: Image, actions: seq<Action>, more: seq<Action>)
    requires IsRun(Start(file), actions + more)
    ensures IsRun(Start(file), actions)
    ensures var s, t := After(Start(file), actions), After(Start(file), actions + more);
            s.synced <= t.synced && s.log <= t.log
  {
    hide Step, Inv;
    PrefixIsRun(Start(file), actions, more);
    StartInv(file);
    InvRun(Start(file), actions, file);
    RunAppend(Start(file), actions, more);
    InvRun(After(Start(file), actions), more, file);
  }

  lemma {:induction false} PrefixIsRun(s: State, a: seq<Action>, b: seq<Action>)
    requires IsRun(s, a + b)
    ensures IsRun(s, a)
    decreases |a|
  {
    hide Step;
    if a != [] {
      assert (a + b)[0] == a[0] && (a + b)[1..] == a[1..] + b;
      PrefixIsRun(Step(s, a[0]), a[1..], b);
    }
  }

  /** No two threads are inside the lock at once. */
  lemma MutualExclusion(file: Image, actions: seq<Action>, i: nat, j: nat)
    requires IsRun(Start(file), actions)
    ensures var s := After(Start(file), actions);
            && (i in s.writers && j in s.writers && InLock(s.writers[i]) && InLock(s.writers[j]) ==> i == j)
            && !(i in s.writers && InLock(s.writers[i]) && WorkerInLock(s.worker))
  {
    hide Perform, Replay, Step;
    StartInv(file);
    InvRun(Start(file), actions, file);
  }

  // ---- the worker can always catch up -------------------------------------------------

  const ROUND: seq<Action> := [Test, Acquire, Retest, Sync, Clear, Unlock]

  /** From any state with the lock free and the worker at its test, a raised flag leads to a written file. */
  lemma WorkerCatchesUp(s: State)
    requires s.lock == Nobody && s.worker == Testing && s.dirty
    ensures IsRun(s, ROUND)
    ensures var t := After(s, ROUND);
            && t == s.(disk := s.image, dirty := false, synced := |s.log|, written := true, failed := false)
            && t.disk == t.image
  {
    var s1 := Step(s, Test);
    var s2 := Step(s1, Acquire);
    var s3 := Step(s2, Retest);
    var s4 := Step(s3, Sync);
    var s5 := Step(s4, Clear);
    assert IsRun(s5, [Unlock]) && After(s5, [Unlock]) == Step(s5, Unlock) by { OneStep(s5, Unlock); }
    Then(s4, Clear, [Unlock]);
    Then(s3, Sync, [Clear, Unlock]);
    Then(s2, Retest, [Sync, Clear, Unlock]);
    Then(s1, Acquire, [Retest, Sync, Clear, Unlock]);
    Then(s, Test, [Acquire, Retest, Sync, Clear, Unlock]);
  }

  /** A write that fails is not retried: the flag goes down and the file stays as it was. */
  lemma {:induction false} FailedWriteDropsTheFlag(s: State)
    requires s.lock == Nobody && s.worker == Testing && s.dirty
    ensures var round := [Test, Acquire, Retest, SyncFails, Clear, Unlock];
            IsRun(s, round) && After(s, round) == s.(dirty := false, failed := true)
  {
    var s1 := Step(s, Test);
    var s2 := Step(s1, Acquire);
    var s3 := Step(s2, Retest);
    var s4 := Step(s3, SyncFails);
    var s5 := Step(s4, Clear);
    OneStep(s5, Unlock);
    Then(s4, Clear, [Unlock]);
    Then(s3, SyncFails, [Clear, Unlock]);
    Then(s2, Retest, [SyncFails, Clear, Unlock]);
    Then(s1, Acquire, [Retest, SyncFails, Clear, Unlock]);
    Then(s, Test, [Acquire, Retest, SyncFails, Clear, Unlock]);
  }

  /** The steps of writer `id` doing all of `op` on `image`. */
  function WholeOperation(image: Image, id: nat, op: Operation): seq<Action> {
    match Perform(image, op).store
    case NoStore => [Enter(id, op), Change(id), Leave(id)]
    case UnderLock => [Enter(id, op), Change(id), StoreInside(id), Leave(id)]
    case AfterUnlock => [Enter(id, op), Change(id), Leave(id), StoreOutside(id)]
  }

  /** With the lock free an operation runs through, whatever others are about: its change, its log entry, its store. */
  lemma {:induction false} OperationRuns(s: State, id: nat, op: Operation)
    requires s.lock == Nobody && id !in s.writers
    ensures var steps, e := WholeOperation(s.image, id, op), Perform(s.image, op);
            && IsRun(s, steps)
            && After(s, steps) == s.(image := e.image, dirty := s.dirty || e.store != NoStore,
                                     log := if e.threw then s.log else s.log + [Entry(op, e.store)])
  {
    hide Perform, IsRun, After;
    var e := Perform(s.image, op);
    if e.threw { ThrowingStoresNothing(s.image, op); }
    var s2 := Step(Step(s, Enter(id, op)), Change(id));
    assert s2.writers - {id} == s.writers;
    if e.store == NoStore {
      ThreeSteps(s, Enter(id, op), Change(id), Leave(id));
    } else if e.store == UnderLock {
      assert Step(s2, StoreInside(id)).writers - {id} == s.writers;
      FourSteps(s, Enter(id, op), Change(id), StoreInside(id), Leave(id));
    } else {
      assert Step(s2, Leave(id)).writers - {id} == s.writers;
      FourSteps(s, Enter(id, op), Change(id), Leave(id), StoreOutside(id));
    }
  }

  lemma ThreeSteps(s: State, a: Action, b: Action, c: Action)
    requires Enabled(s, a) && Enabled(Step(s, a), b) && Enabled(Step(Step(s, a), b), c)
    ensures IsRun(s, [a, b, c]) && After(s, [a, b, c]) == Step(Step(Step(s, a), b), c)
  {
    hide Step, Enabled;
    var s1, s2 := Step(s, a), Step(Step(s, a), b);
    OneStep(s2, c);
    Then(s1, b, [c]);
    Then(s, a, [b, c]);
  }

  lemma FourSteps(s: State, a: Action, b: Action, c: Action, d: Action)
    requires Enabled(s, a) && Enabled(Step(s, a), b) && Enabled(Step(Step(s, a), b), c)
    requires Enabled(Step(Step(Step(s, a), b), c), d)
    ensures IsRun(s, [a, b, c, d]) && After(s, [a, b, c, d]) == Step(Step(Step(Step(s, a), b), c), d)
  {
    hide Step, Enabled, IsRun, After;
    ThreeSteps(Step(s, a), b, c, d);
    Then(s, a, [b, c, d]);
    assert [a] + [b, c, d] == [a, b, c, d];
  }

  /** Every thread can take its next step, unless it waits for the lock and someone holds it. */
  lemma OnlyTheLockBlocks(s: State, id: nat, op: Operation)
    ensures id in s.writers ==>
              Enabled(s, Change(id)) || Enabled(s, StoreInside(id)) || Enabled(s, Leave(id)) || Enabled(s, StoreOutside(id))
    ensures id !in s.writers && s.lock == Nobody ==> Enabled(s, Enter(id, op))
    ensures s.worker != Waiting || s.lock == Nobody ==>
              || Enabled(s, Test) || Enabled(s, Acquire) || Enabled(s, Retest)
              || (Enabled(s, Sync) && Enabled(s, SyncFails)) || Enabled(s, Clear) || Enabled(s, Unlock)
    ensures s.worker == Testing && !s.dirty ==> Step(s, Test) == s
  {
  }

  /**
   Exactly which operations the protocol covers: done from a state where file and memory agree, an operation
   leaves the flag up or the two still equal if and only if it is not a quiet change.
   */
  lemma CoveredExactly(s: State, id: nat, op: Operation)
    requires s.lock == Nobody && id !in s.writers && !s.dirty && s.disk == s.image
    ensures var steps := WholeOperation(s.image, id, op);
            && IsRun(s, steps) && id !in After(s, steps).writers
            && (After(s, steps).dirty || After(s, steps).disk == After(s, steps).image
                <==> !IsQuietChange(s.image, op))
  {
    hide Perform, IsQuietChange, IsRun, After;
    QuietChanges(s.image, op);
    OperationRuns(s, id, op);
  }

  lemma ThrowingStoresNothing(image: Image, op: Operation)
    requires Perform(image, op).threw
    ensures Perform(image, op).store == NoStore && Perform(image, op).image == image
  {
  }

  lemma OneStep(s: State, a: Action)
    requires Enabled(s, a)
    ensures IsRun(s, [a]) && After(s, [a]) == Step(s, a)
  {
    hide Step;
    assert [a][1..] == [];
  }

  lemma Then(s: State, a: Action, rest: seq<Action>)
    requires Enabled(s, a) && IsRun(Step(s, a), rest)
    ensures IsRun(s, [a] + rest) && After(s, [a] + rest) == After(Step(s, a), rest)
  {
    hide Step;
    assert ([a] + rest)[1..] == rest;
  }
}
