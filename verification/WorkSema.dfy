/** The work semaphore of common/Threading.h and common/Semaphore.cpp as a transition system.

    One worker, any number of notifying threads and one thread waiting for the queue to drain
    share the signed 32-bit word `m_state` and two kernel semaphores.  Every atomic
    read-modify-write, kernel post and kernel wait is one step; a compare-and-swap loop is one
    step, taken when the swap succeeds.  Work items are identified by numbers, so that the
    sets `added`, `notified` and `processed` say which items are in which phase.  */
module WorkSema {

  const FLAG: int := 0x4000_0000
  const DEAD: int := -0x8000_0000
  const SPINNING: int := -2
  const SLEEPING: int := -1
  const RUNNING_0: int := 0

  type Item = nat

  predicate IsDead(v: int) {
    v < SPINNING
  }

  /** `v & (FLAG - 1)` on a two's complement word. */
  function Low(v: int): int {
    v % FLAG
  }

  /** `v & FLAG` is non-zero. */
  predicate Flagged(v: int) {
    (v / FLAG) % 2 == 1
  }

  predicate IsReadyForSleep(v: int) {
    Low(v) == RUNNING_0
  }

  /** `v & FLAG`, which is also what `fetch_and(FLAG)` leaves in the word. */
  function KeepFlag(v: int): int {
    if Flagged(v) then FLAG else RUNNING_0
  }

  /** -1 | FLAG is -1, so going to sleep drops the flag. */
  function NextStateWaitForWork(v: int): int {
    if IsReadyForSleep(v) then SLEEPING else KeepFlag(v)
  }

  function SetFlag(v: int): int {
    if Flagged(v) then v else v + FLAG
  }

  /** Where the worker is.  `PostEmpty(k)` is about to post the empty semaphore and continue
      at `k`; `Acking` is about to run `fetch_and`. */
  datatype Worker =
    | Processing
    | Outside
    | Sleeping
    | Acking
    | SpinLoop
    | Dead
    | PostEmpty(next: Worker)

  /** The thread in WaitForEmpty; `snap` is what had been notified when it called. */
  datatype Drainer =
    | Idle
    | Called(snap: set<Item>)
    | Await(snap: set<Item>)
    | Check(snap: set<Item>)
    | Returned(snap: set<Item>, result: bool)

  datatype State = State(
    word: int,
    sema: nat,
    emptySema: nat,
    posting: nat,
    worker: Worker,
    drainer: Drainer,
    added: set<Item>,
    notified: set<Item>,
    processed: set<Item>,
    abandoned: set<Item>)

  datatype Step =
    | AddWork(item: Item)
    | Notify(item: Item)
    | PostSema
    | Process(item: Item)
    | FinishProcessing
    | WaitForWork
    | WaitForWorkWithSpin
    | CheckForWork
    | PostEmptySema
    | WakeUp
    | Acknowledge
    | SpinSeesWork
    | SpinGoesToSleep
    | Kill
    | Reset
    | CallWaitForEmpty
    | TryWaitForEmpty
    | TakeEmptyToken
    | ReadAfterEmpty

  function Init(): State {
    State(RUNNING_0, 0, 0, 0, Outside, Idle, {}, {}, {}, {})
  }

  /** Fewer than 2^29 notifications are ever left unacknowledged. */
  predicate RoomToNotify(v: int) {
    && (v >= 0 ==> Low(v) + 2 < FLAG)
    && (IsDead(v) ==> IsDead(v + 2))
  }

  predicate Enabled(s: State, step: Step) {
    match step
    case AddWork(i) => i !in s.added
    case Notify(i) => i in s.added - s.notified && RoomToNotify(s.word)
    case PostSema => s.posting > 0
    case Process(i) => s.worker.Processing? && i in s.added - s.processed
    case FinishProcessing => s.worker.Processing? && s.added <= s.processed + s.abandoned
    case WaitForWork => s.worker.Outside?
    case WaitForWorkWithSpin => s.worker.Outside?
    case CheckForWork => s.worker.Outside?
    case PostEmptySema => s.worker.PostEmpty?
    case WakeUp => s.worker.Sleeping? && s.sema > 0
    case Acknowledge => s.worker.Acking?
    case SpinSeesWork => s.worker.SpinLoop? && s.word >= 0
    case SpinGoesToSleep => s.worker.SpinLoop? && s.word == SPINNING
    case Kill => s.worker.Outside? || s.worker.Processing?
    case Reset => s.worker.Dead?
    case CallWaitForEmpty => s.drainer.Idle? || s.drainer.Returned?
    case TryWaitForEmpty => s.drainer.Called?
    case TakeEmptyToken => s.drainer.Await? && s.emptySema > 0
    case ReadAfterEmpty => s.drainer.Check?
  }

  /** The worker after a transition that found the queue empty: it posts the empty semaphore
      first when a thread had flagged that it waits for it. */
  function AfterEmpty(v: int, next: Worker): Worker {
    if Flagged(v) then PostEmpty(next) else next
  }

  function Apply(s: State, step: Step): State
    requires Enabled(s, step)
  {
    match step
    case AddWork(i) => s.(added := s.added + {i})
    case Notify(i) =>
      s.(word := s.word + 2, notified := s.notified + {i},
         posting := if s.word == SLEEPING then s.posting + 1 else s.posting)
    case PostSema => s.(posting := s.posting - 1, sema := s.sema + 1)
    case Process(i) => s.(processed := s.processed + {i})
    case FinishProcessing => s.(worker := Outside)
    case WaitForWork =>
      s.(word := NextStateWaitForWork(s.word),
         worker := if IsReadyForSleep(s.word) then AfterEmpty(s.word, Sleeping) else Processing)
    case WaitForWorkWithSpin =>
      if IsReadyForSleep(s.word) then
        s.(word := SPINNING, worker := AfterEmpty(s.word, SpinLoop))
      else
        s.(worker := Acking)
    case CheckForWork =>
      if IsReadyForSleep(s.word) then
        s.(word := RUNNING_0, worker := AfterEmpty(s.word, Outside))
      else
        s.(word := KeepFlag(s.word), worker := Processing)
    case PostEmptySema => s.(emptySema := s.emptySema + 1, worker := s.worker.next)
    case WakeUp => s.(sema := s.sema - 1, worker := Acking)
    case Acknowledge => s.(word := KeepFlag(s.word), worker := Processing)
    case SpinSeesWork => s.(worker := Acking)
    case SpinGoesToSleep => s.(word := SLEEPING, worker := Sleeping)
    case Kill => s.(word := DEAD, worker := AfterEmpty(s.word, Dead))
    case Reset => s.(word := RUNNING_0, worker := Outside, abandoned := s.abandoned + s.notified)
    case CallWaitForEmpty => s.(drainer := Called(s.notified))
    case TryWaitForEmpty =>
      if s.word < 0 then s.(drainer := Returned(s.drainer.snap, !IsDead(s.word)))
      else s.(word := SetFlag(s.word), drainer := Await(s.drainer.snap))
    case TakeEmptyToken => s.(emptySema := s.emptySema - 1, drainer := Check(s.drainer.snap))
    case ReadAfterEmpty => s.(drainer := Returned(s.drainer.snap, !IsDead(s.word)))
  }

  ghost predicate Next(s: State, s': State) {
    exists step :: Enabled(s, step) && s' == Apply(s, step)
  }

  /** A run from the initial state, of any length and any interleaving. */
  ghost predicate IsRun(run: seq<State>) {
    && |run| > 0
    && run[0] == Init()
    && forall i :: 0 <= i < |run| - 1 ==> Next(run[i], run[i + 1])
  }

  // ----- the invariant

  /** Items whose work is finished, or was given up when a dead worker was reset. */
  function Covered(s: State): set<Item> {
    s.processed + s.abandoned
  }

  predicate Running(v: int) {
    0 <= v < 2 * FLAG
  }

  /** The control point behind a pending post. */
  function Point(w: Worker): Worker {
    if w.PostEmpty? then w.next else w
  }

  predicate WordFits(s: State) {
    && (s.worker.PostEmpty? ==> !s.worker.next.PostEmpty?)
    && match Point(s.worker)
       case Sleeping => s.word == SLEEPING || Running(s.word)
       case SpinLoop => s.word == SPINNING || Running(s.word)
       case Dead => DEAD <= s.word && IsDead(s.word)
       case _ => Running(s.word)
  }

  function Unit(b: bool): nat {
    if b then 1 else 0
  }

  /** One token or post in flight exactly when a committed sleeper has been notified. */
  predicate WakeAccounted(s: State) {
    s.sema + s.posting == Unit(Point(s.worker).Sleeping? && s.word != SLEEPING)
  }

  /** A waiting drainer is owed exactly one of: the flag, a pending post, a token. */
  predicate EmptyAccounted(s: State) {
    s.emptySema + Unit(s.worker.PostEmpty?) + Unit(s.word >= FLAG) == Unit(s.drainer.Await?)
  }

  /** Where the word admits no unseen notification, every notified item is covered. */
  predicate NothingMissed(s: State) {
    match Point(s.worker)
    case Outside => Low(s.word) == 0 ==> s.notified <= Covered(s)
    case Sleeping => s.word == SLEEPING ==> s.notified <= Covered(s)
    case SpinLoop => s.word == SPINNING ==> s.notified <= Covered(s)
    case _ => true
  }

  predicate DrainerInformed(s: State) {
    match s.drainer
    case Idle => true
    case Called(snap) => snap <= s.notified
    case Await(snap) =>
      && snap <= s.notified
      && (s.word < FLAG ==> snap <= Covered(s) || IsDead(s.word))
    case Check(snap) => snap <= s.notified && (snap <= Covered(s) || IsDead(s.word))
    case Returned(snap, result) => result ==> snap <= Covered(s)
  }

  predicate Inv(s: State) {
    && s.notified <= s.added
    && WordFits(s)
    && WakeAccounted(s)
    && EmptyAccounted(s)
    && NothingMissed(s)
    && DrainerInformed(s)
  }

  predicate ByNotifier(step: Step) {
    step.AddWork? || step.Notify? || step.PostSema?
  }

  predicate ByDrainer(step: Step) {
    step.CallWaitForEmpty? || step.TryWaitForEmpty? || step.TakeEmptyToken? || step.ReadAfterEmpty?
  }

  lemma NotifierKeepsInv(s: State, step: Step)
    requires Inv(s) && Enabled(s, step) && ByNotifier(step)
    ensures Inv(Apply(s, step))
  {
  }

  lemma DrainerKeepsInv(s: State, step: Step)
    requires Inv(s) && Enabled(s, step) && ByDrainer(step)
    ensures Inv(Apply(s, step))
  {
  }

  lemma WorkerKeepsInv(s: State, step: Step)
    requires Inv(s) && Enabled(s, step) && !ByNotifier(step) && !ByDrainer(step)
    ensures Inv(Apply(s, step))
  {
  }

  /** Every step of every thread keeps the invariant. */
  lemma InvPreserved(s: State, step: Step)
    requires Inv(s) && Enabled(s, step)
    ensures Inv(Apply(s, step))
  {
    if ByNotifier(step) {
      NotifierKeepsInv(s, step);
    } else if ByDrainer(step) {
      DrainerKeepsInv(s, step);
    } else {
      WorkerKeepsInv(s, step);
    }
  }

  lemma NextKeepsInv(s: State, s': State)
    requires Inv(s) && Next(s, s')
    ensures Inv(s')
  {
    var step :| Enabled(s, step) && s' == Apply(s, step);
    InvPreserved(s, step);
  }

  /** Every state of every run satisfies the invariant. */
  lemma {:induction false} InvHolds(run: seq<State>, k: nat)
    requires IsRun(run) && k < |run|
    ensures Inv(run[k])
  {
    if k == 0 {
      InitHasInv();
    } else {
      InvHolds(run, k - 1);
      NextKeepsInv(run[k - 1], run[k]);
    }
  }

  lemma InitHasInv()
    ensures Inv(Init())
  {
  }

  // ----- what the invariant means to callers

  /** No lost wake-up: a worker that sleeps, or is committed to sleep, while some notified
      item is neither processed nor abandoned has exactly one wake in flight.  Each kernel
      semaphore never holds more than one token. */
  lemma NoLostWakeup(run: seq<State>, k: nat)
    requires IsRun(run) && k < |run|
    ensures Point(run[k].worker).Sleeping? && !(run[k].notified <= Covered(run[k]))
            ==> run[k].sema + run[k].posting == 1
    ensures run[k].sema <= 1 && run[k].emptySema <= 1
  {
    InvHolds(run, k);
  }

  /** When WaitForEmpty returns true, every item notified before the call was processed, or
      was abandoned by a Kill followed by a Reset. */
  lemma DrainedMeansProcessed(run: seq<State>, k: nat)
    requires IsRun(run) && k < |run|
    ensures var d := run[k].drainer;
            d.Returned? && d.result ==> d.snap <= run[k].processed + run[k].abandoned
  {
    InvHolds(run, k);
  }

  /** A thread blocked in WaitForEmpty is released: once the worker has gone to sleep, started
      spinning or died, its token is there. */
  lemma DrainerNeverStuck(run: seq<State>, k: nat)
    requires IsRun(run) && k < |run| && run[k].drainer.Await?
    requires run[k].worker.Sleeping? || run[k].worker.SpinLoop? || run[k].worker.Dead?
    requires run[k].word < 0
    ensures run[k].emptySema == 1
  {
    InvHolds(run, k);
  }

  /** The assertions in the source never fire: the worker never finds a dead word when it asks
      for work, and the flag is never already set when the one drainer sets it. */
  lemma AssertionsHold(run: seq<State>, k: nat)
    requires IsRun(run) && k < |run|
    ensures run[k].worker.Outside? ==> !IsDead(run[k].word)
    ensures run[k].drainer.Called? && run[k].word >= 0 ==> !Flagged(run[k].word)
  {
    InvHolds(run, k);
  }

  predicate ByWorker(step: Step) {
    !ByNotifier(step) && !ByDrainer(step) && !step.Kill? && !step.Reset?
  }

  ghost predicate WorkerCanMove(s: State) {
    exists step :: ByWorker(step) && Enabled(s, step)
  }

  ghost predicate DrainerCanMove(s: State) {
    exists step :: ByDrainer(step) && Enabled(s, step)
  }

  lemma WorkerMoves(s: State, step: Step)
    requires ByWorker(step) && Enabled(s, step)
    ensures WorkerCanMove(s)
  {
  }

  lemma DrainerMoves(s: State, step: Step)
    requires ByDrainer(step) && Enabled(s, step)
    ensures DrainerCanMove(s)
  {
  }

  /** What the threads wait for, in every run: the worker is stuck exactly if it is dead, or asleep without
      a token, and a sleeper without a token and without a post under way has nothing left to do.  The
      draining thread is stuck exactly while it has been promised a token that is not there yet. */
  lemma BlockedIff(run: seq<State>, k: nat)
    requires IsRun(run) && k < |run|
    ensures var s := run[k];
            && (!WorkerCanMove(s) <==> s.worker.Dead? || (s.worker.Sleeping? && s.sema == 0))
            && (s.worker.Sleeping? && s.sema == 0 && s.posting == 0 ==> s.notified <= Covered(s))
            && (!DrainerCanMove(s) <==> s.drainer.Await? && s.emptySema == 0)
            && (s.posting > 0 ==> Enabled(s, PostSema))
  {
    InvHolds(run, k);
    WorkerBlocked(run[k]);
    DrainerBlocked(run[k]);
  }

  lemma WorkerBlocked(s: State)
    requires Inv(s)
    ensures !WorkerCanMove(s) <==> s.worker.Dead? || (s.worker.Sleeping? && s.sema == 0)
  {
    if !s.worker.Dead? && !(s.worker.Sleeping? && s.sema == 0) {
      var step := match s.worker
                  case Processing => (if s.added <= Covered(s) then FinishProcessing else SomeWork(s))
                  case Outside => WaitForWork
                  case Sleeping => WakeUp
                  case Acking => Acknowledge
                  case SpinLoop => (if s.word >= 0 then SpinSeesWork else SpinGoesToSleep)
                  case _ => PostEmptySema;
      WorkerMoves(s, step);
    }
  }

  ghost function SomeWork(s: State): (step: Step)
    requires !(s.added <= Covered(s))
    ensures step.Process? && step.item in s.added - Covered(s)
  {
    var i :| i in s.added && i !in Covered(s);
    Process(i)
  }

  lemma DrainerBlocked(s: State)
    requires Inv(s)
    ensures !DrainerCanMove(s) <==> s.drainer.Await? && s.emptySema == 0
  {
    if !(s.drainer.Await? && s.emptySema == 0) {
      var step := match s.drainer
                  case Called(_) => TryWaitForEmpty
                  case Await(_) => TakeEmptyToken
                  case Check(_) => ReadAfterEmpty
                  case _ => CallWaitForEmpty;
      DrainerMoves(s, step);
    }
  }

  // ----- where Reset weakens the promise, and why the notification bound is needed

  /** The wait that began with the call at step `i` is still the current one at `k`. */
  predicate SameWait(steps: seq<Step>, i: nat, k: nat)
    requires i < k <= |steps|
  {
    steps[i].CallWaitForEmpty? && forall j :: i < j < k ==> !steps[j].CallWaitForEmpty?
  }

  /** The snapshot of a wait is what had been notified at its call. */
  lemma {:induction false} SnapshotOfWait(steps: seq<Step>, run: seq<State>, i: nat, k: nat)
    requires Follows(steps, run) && i < k <= |steps| && SameWait(steps, i, k)
    ensures !run[k].drainer.Idle? && run[k].drainer.snap == run[i].notified
    ensures run[i].abandoned <= run[k].abandoned && run[i].notified <= run[k].notified
    decreases k
  {
    if k > i + 1 {
      SnapshotOfWait(steps, run, i, k - 1);
    }
    WaitGoesOn(run[k - 1], steps[k - 1], run[k]);
  }

  lemma WaitGoesOn(s: State, step: Step, s': State)
    requires Enabled(s, step) && s' == Apply(s, step)
    ensures step.CallWaitForEmpty? ==> !s'.drainer.Idle? && s'.drainer.snap == s.notified
    ensures !step.CallWaitForEmpty? && !s.drainer.Idle? ==> !s'.drainer.Idle? && s'.drainer.snap == s.drainer.snap
    ensures s.abandoned <= s'.abandoned && s.notified <= s'.notified
  {
  }

  /** The Reset at step `j`, during the wait, abandons an item of the snapshot: it was not abandoned
      before the wait, is unprocessed at the Reset, and nobody processes it before the return. */
  predicate Abandons(steps: seq<Step>, run: seq<State>, i: nat, j: nat, k: nat, x: Item)
    requires Follows(steps, run) && k <= |steps|
  {
    && i < j < k && steps[j].Reset?
    && x in run[i].notified && x !in run[i].abandoned && x !in run[j].processed
    && forall l :: j <= l < k ==> steps[l] != Process(x)
  }

  /** An item becomes processed by a step of the worker, and stays so. */
  lemma {:induction false} ProcessedIff(steps: seq<Step>, run: seq<State>, j: nat, k: nat, x: Item)
    requires Follows(steps, run) && j <= k <= |steps|
    ensures x in run[k].processed <==> x in run[j].processed || exists l :: j <= l < k && steps[l] == Process(x)
    decreases k
  {
    if k > j {
      ProcessedIff(steps, run, j, k - 1, x);
      ProcessedNext(run[k - 1], steps[k - 1], run[k], x);
    }
  }

  lemma ProcessedNext(s: State, step: Step, s': State, x: Item)
    requires Enabled(s, step) && s' == Apply(s, step)
    ensures x in s'.processed <==> x in s.processed || step == Process(x)
  {
  }

  /** Reset is the only step that abandons work. */
  lemma {:induction false} OnlyResetAbandons(steps: seq<Step>, run: seq<State>, i: nat, k: nat)
    requires Follows(steps, run) && i <= k <= |steps|
    requires forall j :: i <= j < k ==> !steps[j].Reset?
    ensures run[k].abandoned == run[i].abandoned
    decreases k
  {
    if k > i {
      OnlyResetAbandons(steps, run, i, k - 1);
      assert run[k] == Apply(run[k - 1], steps[k - 1]);
    }
  }

  /** If no Reset falls into the wait, WaitForEmpty returning true means that everything notified
      before the call was processed, but for what an earlier Reset had abandoned already. */
  lemma WaitWithoutResetMeansProcessed(steps: seq<Step>, run: seq<State>, i: nat, k: nat)
    requires Follows(steps, run) && i < k <= |steps| && SameWait(steps, i, k)
    requires run[k].drainer.Returned? && run[k].drainer.result
    requires forall j :: i < j < k ==> !steps[j].Reset?
    ensures run[i].notified <= run[k].processed + run[i].abandoned
  {
    SnapshotOfWait(steps, run, i, k);
    OnlyResetAbandons(steps, run, i, k);
    FollowsIsRun(steps, run);
    DrainedMeansProcessed(run, k);
  }

  /** The promise of one wait, traced to its cause: a true result leaves an item of the snapshot
      unprocessed exactly when a Reset during the wait abandons one.  What a caller can see to is the
      condition of the lemma above: that nobody resets while somebody waits. */
  lemma WaitMeansProcessedIff(steps: seq<Step>, run: seq<State>, i: nat, k: nat)
    requires Follows(steps, run) && i < k <= |steps| && SameWait(steps, i, k)
    requires run[k].drainer.Returned? && run[k].drainer.result
    ensures run[i].notified <= run[k].processed + run[i].abandoned
       <==> forall j: nat, x: Item :: !Abandons(steps, run, i, j, k, x)
  {
    if run[i].notified <= run[k].processed + run[i].abandoned {
      forall j: nat, x: Item
        ensures !Abandons(steps, run, i, j, k, x)
      {
        if Abandons(steps, run, i, j, k, x) {
          ProcessedIff(steps, run, j, k, x);
        }
      }
    } else {
      var x :| x in run[i].notified && x !in run[k].processed + run[i].abandoned;
      if forall j :: i < j < k ==> !steps[j].Reset? {
        WaitWithoutResetMeansProcessed(steps, run, i, k);
      } else {
        var j: nat :| i < j < k && steps[j].Reset?;
        ProcessedIff(steps, run, j, k, x);
        assert Abandons(steps, run, i, j, k, x);
      }
    }
  }

  // ----- what the results mean

  /** Of the Kill and Reset steps before step `k`, the last is a Kill. */
  predicate Killed(steps: seq<Step>, k: nat)
    requires k <= |steps|
  {
    k > 0 && (steps[k - 1].Kill? || (!steps[k - 1].Reset? && Killed(steps, k - 1)))
  }

  lemma DeadNext(s: State, step: Step)
    requires Inv(s) && Enabled(s, step)
    ensures IsDead(Apply(s, step).word) <==> step.Kill? || (!step.Reset? && IsDead(s.word))
  {
  }

  /** The word says dead exactly between a Kill and the next Reset, whatever else is done to it. */
  lemma {:induction false} DeadIff(steps: seq<Step>, run: seq<State>, k: nat)
    requires Follows(steps, run) && k <= |steps|
    ensures IsDead(run[k].word) <==> Killed(steps, k)
  {
    if k > 0 {
      DeadIff(steps, run, k - 1);
      FollowsIsRun(steps, run);
      InvHolds(run, k - 1);
      DeadNext(run[k - 1], steps[k - 1]);
    }
  }

  /** The load that decides the result of a wait: the first one, if the word is negative then, or the
      one after the token. */
  predicate Decides(steps: seq<Step>, run: seq<State>, d: nat)
    requires Follows(steps, run) && d < |steps|
  {
    (steps[d].TryWaitForEmpty? && run[d].word < 0) || steps[d].ReadAfterEmpty?
  }

  /** For every wait that returns: it returns false if and only if the worker has been killed, and not
      reset since, at the load that decides. */
  lemma {:induction false} WaitResultIff(steps: seq<Step>, run: seq<State>, i: nat, k: nat) returns (d: nat)
    requires Follows(steps, run) && i < k <= |steps| && SameWait(steps, i, k) && run[k].drainer.Returned?
    ensures i < d < k && Decides(steps, run, d)
    ensures !run[k].drainer.result <==> Killed(steps, d)
    decreases k
  {
    d := k - 1;
    assert run[k] == Apply(run[d], steps[d]) && Enabled(run[d], steps[d]);
    if Decides(steps, run, d) {
      DeadIff(steps, run, d);
    } else {
      assert !steps[d].CallWaitForEmpty? && run[d].drainer == run[k].drainer;
      d := WaitResultIff(steps, run, i, k - 1);
    }
  }

  /** So a wait returns true if the worker is alive at its call and nobody kills it while it lasts. */
  lemma WaitReturnsTrue(steps: seq<Step>, run: seq<State>, i: nat, k: nat)
    requires Follows(steps, run) && i < k <= |steps| && SameWait(steps, i, k) && run[k].drainer.Returned?
    requires !Killed(steps, i) && forall j :: i < j < k ==> !steps[j].Kill?
    ensures run[k].drainer.result
  {
    var d := WaitResultIff(steps, run, i, k);
    StaysAlive(steps, i, d);
  }

  lemma {:induction false} StaysAlive(steps: seq<Step>, i: nat, d: nat)
    requires i <= d <= |steps| && !Killed(steps, i) && forall j :: i <= j < d ==> !steps[j].Kill?
    ensures !Killed(steps, d)
    decreases d
  {
    if d > i {
      StaysAlive(steps, i, d - 1);
    }
  }

  /** Notifications since the worker last took note of them. */
  function Unseen(steps: seq<Step>, k: nat): nat
    requires k <= |steps|
  {
    if k == 0 then 0
    else
      match steps[k - 1]
      case Notify(_) => Unseen(steps, k - 1) + 1
      case WaitForWork => 0
      case CheckForWork => 0
      case Acknowledge => 0
      case Reset => 0
      case _ => Unseen(steps, k - 1)
  }

  /** The worker runs, or is between two requests for work. */
  predicate Awake(w: Worker) {
    Point(w).Processing? || Point(w).Outside?
  }

  lemma CountNext(s: State, step: Step, unseen: nat)
    requires Inv(s) && Enabled(s, step) && (Awake(s.worker) ==> Low(s.word) == 2 * unseen)
    ensures var s' := Apply(s, step);
            Awake(s'.worker) ==> Low(s'.word) == match step
                                                 case Notify(_) => 2 * (unseen + 1)
                                                 case WaitForWork => 0
                                                 case CheckForWork => 0
                                                 case Acknowledge => 0
                                                 case Reset => 0
                                                 case _ => 2 * unseen
  {
  }

  /** While the worker is awake the word counts the notifications it has not taken note of, in twos. */
  lemma {:induction false} WordCountsUnseen(steps: seq<Step>, run: seq<State>, k: nat)
    requires Follows(steps, run) && k <= |steps|
    ensures Awake(run[k].worker) ==> Low(run[k].word) == 2 * Unseen(steps, k)
  {
    if k > 0 {
      WordCountsUnseen(steps, run, k - 1);
      FollowsIsRun(steps, run);
      InvHolds(run, k - 1);
      CountNext(run[k - 1], steps[k - 1], Unseen(steps, k - 1));
    }
  }

  /** What the worker gets when it asks for work, in every run: work at once if and only if it has been
      notified since it last took note.  Otherwise CheckForWork comes back empty-handed, WaitForWork puts
      the worker to sleep, and WaitForWorkWithSpin lets it spin; and the thread that waits for empty, if
      there is one, is owed its token first. */
  lemma AskingForWorkIff(steps: seq<Step>, run: seq<State>, k: nat)
    requires Follows(steps, run) && k < |steps|
    requires steps[k].WaitForWork? || steps[k].WaitForWorkWithSpin? || steps[k].CheckForWork?
    ensures var w, unseen := run[k + 1].worker, Unseen(steps, k);
            && (unseen > 0 <==> w.Processing? || w.Acking?)
            && (unseen == 0 ==> match steps[k]
                                case WaitForWork => Point(w) == Sleeping && run[k + 1].word == SLEEPING
                                case WaitForWorkWithSpin => Point(w) == SpinLoop && run[k + 1].word == SPINNING
                                case _ => Point(w) == Outside)
            && (w.PostEmpty? <==> unseen == 0 && run[k].drainer.Await? && run[k].emptySema == 0)
  {
    WordCountsUnseen(steps, run, k);
    FollowsIsRun(steps, run);
    InvHolds(run, k);
    Asked(run[k], steps[k], Unseen(steps, k), run[k + 1]);
  }

  lemma Asked(s: State, step: Step, unseen: nat, s': State)
    requires Inv(s) && Enabled(s, step) && s' == Apply(s, step) && Low(s.word) == 2 * unseen
    requires step.WaitForWork? || step.WaitForWorkWithSpin? || step.CheckForWork?
    ensures unseen > 0 <==> s'.worker.Processing? || s'.worker.Acking?
    ensures unseen == 0 ==> match step
                            case WaitForWork => Point(s'.worker) == Sleeping && s'.word == SLEEPING
                            case WaitForWorkWithSpin => Point(s'.worker) == SpinLoop && s'.word == SPINNING
                            case _ => Point(s'.worker) == Outside
    ensures s'.worker.PostEmpty? <==> unseen == 0 && s.drainer.Await? && s.emptySema == 0
  {
    FlagMeansWaiter(s);
  }

  /** While the worker runs, the flag says that a thread waits for empty and is still owed its token. */
  lemma FlagMeansWaiter(s: State)
    requires Inv(s) && s.worker.Outside?
    ensures Flagged(s.word) <==> s.drainer.Await? && s.emptySema == 0
  {
  }

  /** `run` is the run that takes the given steps from the initial state. */
  predicate Follows(steps: seq<Step>, run: seq<State>) {
    && |run| == |steps| + 1
    && run[0] == Init()
    && forall i :: 0 <= i < |steps| ==> Enabled(run[i], steps[i]) && run[i + 1] == Apply(run[i], steps[i])
  }

  lemma FollowsIsRun(steps: seq<Step>, run: seq<State>)
    requires Follows(steps, run)
    ensures IsRun(run)
  {
    forall i | 0 <= i < |run| - 1
      ensures Next(run[i], run[i + 1])
    {
      assert Enabled(run[i], steps[i]) && run[i + 1] == Apply(run[i], steps[i]);
    }
  }

  /** The run of the next lemma up to the moment the worker has died. */
  lemma WorkerDiesUnderDrainer() returns (run: seq<State>)
    ensures IsRun(run)
    ensures run[|run| - 1] == State(DEAD, 0, 1, 0, Dead, Await({0}), {0}, {0}, {}, {})
  {
    run := Extend([Init()], AddWork(0), State(0, 0, 0, 0, Outside, Idle, {0}, {}, {}, {}));
    run := Extend(run, Notify(0), State(2, 0, 0, 0, Outside, Idle, {0}, {0}, {}, {}));
    run := Extend(run, CallWaitForEmpty, State(2, 0, 0, 0, Outside, Called({0}), {0}, {0}, {}, {}));
    run := Extend(run, TryWaitForEmpty, State(FLAG + 2, 0, 0, 0, Outside, Await({0}), {0}, {0}, {}, {}));
    run := Extend(run, Kill, State(DEAD, 0, 0, 0, PostEmpty(Dead), Await({0}), {0}, {0}, {}, {}));
    run := Extend(run, PostEmptySema, State(DEAD, 0, 1, 0, Dead, Await({0}), {0}, {0}, {}, {}));
  }

  /** With Reset the unqualified promise fails: the worker dies, posting the drainer, and is
      reset before the drainer reads the word.  WaitForEmpty then returns true although the
      item notified before the call was never processed. */
  lemma ResetRaceReturnsTrue() returns (run: seq<State>)
    ensures IsRun(run)
    ensures var last := run[|run| - 1];
            last.drainer == Returned({0}, true) && 0 in last.notified && last.processed == {}
  {
    run := WorkerDiesUnderDrainer();
    run := Extend(run, TakeEmptyToken, State(DEAD, 0, 0, 0, Dead, Check({0}), {0}, {0}, {}, {}));
    run := Extend(run, Reset, State(0, 0, 0, 0, Outside, Check({0}), {0}, {0}, {}, {0}));
    run := Extend(run, ReadAfterEmpty, State(0, 0, 0, 0, Outside, Returned({0}, true), {0}, {0}, {}, {0}));
  }

  lemma Extend(run: seq<State>, step: Step, s: State) returns (longer: seq<State>)
    requires IsRun(run) && Enabled(run[|run| - 1], step) && s == Apply(run[|run| - 1], step)
    ensures IsRun(longer) && longer[|longer| - 1] == s
  {
    longer := run + [s];
    assert Next(run[|run| - 1], s);
  }

  /** Past the bound a notification carries into the flag: a running word admits one more
      notification without pretending that a thread waits for empty exactly when fewer than
      2^29 are unacknowledged. */
  lemma NotificationBoundIsExact(v: int)
    requires Running(v) && !Flagged(v)
    ensures Flagged(v + 2) <==> !RoomToNotify(v)
  {
    assert v < FLAG;
  }
}
