/** common/SingleWaiterProgressEvent.h as a transition system.

    One waiter at a time is past the outer mutex (the others queue on it and touch nothing), one
    consumer publishes progress and notifies, and stray tokens may be posted at any moment.
    `m_mutex` is modelled explicitly, so a publication, which takes no lock, can fall between
    the protected read of the progress value and the arming that follows it.  Each access to a
    shared variable, and each kernel semaphore operation, is a step. */
module ProgressEvent {

  type Progress = int

  datatype Lock = Free | ByWaiter | ByConsumer

  /** The waiter inside WaitForChange.  `Checked`, `Read`, `Armed`, `Acking` and `Draining` hold
      `m_mutex`. */
  datatype Waiter =
    | Idle
    | Entered(observed: Progress)
    | Checked(observed: Progress)
    | Read(observed: Progress, value: Progress)
    | Armed(observed: Progress)
    | Asleep(observed: Progress)
    | Woken(observed: Progress)
    | Acking(observed: Progress)
    | Draining(observed: Progress)

  /** The consumer; `quiesce` tells a WakeWaiter called by PublishQuiescence from one called by
      NotifyOfProgress.  `InSection`, `Posting` and `Leaving` hold `m_mutex`. */
  datatype Consumer =
    | Working
    | Notifying
    | WantsLock(quiesce: bool)
    | InSection(quiesce: bool)
    | Posting(quiesce: bool)
    | Leaving(quiesce: bool)

  /** `quiesced` records that PublishQuiescence has completed since the last publication;
      `strays` counts stray tokens posted since the last wait returned.  `notified` records that a
      notification has completed since the last publication; `missed`, that such a notification
      found the hint false while the waiter was between its protected read and its hint store, and
      that no claim has made good for it since. */
  datatype State = State(
    progress: Progress,
    hint: bool,
    waiting: bool,
    claimed: bool,
    tokens: nat,
    lock: Lock,
    waiter: Waiter,
    consumer: Consumer,
    quiesced: bool,
    strays: nat,
    notified: bool,
    missed: bool)

  datatype Step =
    | Call(observed: Progress)
    | LockToArm
    | ReadProgress
    | ReturnAtOnce
    | Arm
    | PublishHint
    | TakeToken
    | LockToAck
    | IgnoreToken
    | Acknowledge
    | DrainOne
    | Return
    | Publish(value: Progress)
    | StartNotify
    | LoadHint
    | StartQuiescence
    | LockToWake
    | Claim
    | PostClaim
    | Unlock
    | Stray

  function Init(progress: Progress): State {
    State(progress, false, false, false, 0, Free, Idle, Working, false, 0, false, false)
  }

  /** The waiter has read the progress value under the lock and not yet stored the hint. */
  predicate InWindow(w: Waiter) {
    w.Read? || w.Armed?
  }

  predicate Enabled(s: State, step: Step) {
    match step
    case Call(_) => s.waiter.Idle?
    case LockToArm => s.waiter.Entered? && s.lock.Free?
    case ReadProgress => s.waiter.Checked?
    case ReturnAtOnce => s.waiter.Read? && s.waiter.value != s.waiter.observed
    case Arm => s.waiter.Read? && s.waiter.value == s.waiter.observed
    case PublishHint => s.waiter.Armed?
    case TakeToken => s.waiter.Asleep? && s.tokens > 0
    case LockToAck => s.waiter.Woken? && s.lock.Free?
    case IgnoreToken => s.waiter.Acking? && !s.claimed
    case Acknowledge => s.waiter.Acking? && s.claimed
    case DrainOne => s.waiter.Draining? && s.tokens > 0
    case Return => s.waiter.Draining? && s.tokens == 0
    case Publish(_) => s.consumer.Working?
    case StartNotify => s.consumer.Working?
    case LoadHint => s.consumer.Notifying?
    case StartQuiescence => s.consumer.Working?
    case LockToWake => s.consumer.WantsLock? && s.lock.Free?
    case Claim => s.consumer.InSection?
    case PostClaim => s.consumer.Posting?
    case Unlock => s.consumer.Leaving?
    case Stray => true
  }

  function Apply(s: State, step: Step): State
    requires Enabled(s, step)
  {
    match step
    case Call(v) => s.(waiter := Entered(v))
    case LockToArm => s.(waiter := Checked(s.waiter.observed), lock := ByWaiter)
    case ReadProgress => s.(waiter := Read(s.waiter.observed, s.progress))
    case ReturnAtOnce => s.(waiter := Idle, lock := Free, missed := false)
    case Arm => s.(waiter := Armed(s.waiter.observed), waiting := true, claimed := false)
    case PublishHint => s.(waiter := Asleep(s.waiter.observed), hint := true, lock := Free)
    case TakeToken => s.(waiter := Woken(s.waiter.observed), tokens := s.tokens - 1)
    case LockToAck => s.(waiter := Acking(s.waiter.observed), lock := ByWaiter)
    case IgnoreToken => s.(waiter := Asleep(s.waiter.observed), lock := Free)
    case Acknowledge => s.(waiter := Draining(s.waiter.observed), waiting := false, claimed := false)
    case DrainOne => s.(tokens := s.tokens - 1)
    case Return => s.(waiter := Idle, lock := Free, strays := 0)
    case Publish(v) => s.(progress := v, quiesced := false, notified := false, missed := false)
    case StartNotify => s.(consumer := Notifying)
    case LoadHint =>
      if s.hint then s.(consumer := WantsLock(false))
      else s.(consumer := Working, notified := true, missed := s.missed || InWindow(s.waiter))
    case StartQuiescence => s.(consumer := WantsLock(true))
    case LockToWake => s.(consumer := InSection(s.consumer.quiesce), lock := ByConsumer)
    case Claim =>
      if s.waiting && !s.claimed then
        s.(consumer := Posting(s.consumer.quiesce), claimed := true, hint := false, missed := false)
      else
        s.(consumer := Leaving(s.consumer.quiesce))
    case PostClaim => s.(consumer := Leaving(s.consumer.quiesce), tokens := s.tokens + 1)
    case Unlock =>
      s.(consumer := Working, lock := Free, quiesced := s.quiesced || s.consumer.quiesce, notified := true)
    case Stray => s.(tokens := s.tokens + 1, strays := s.strays + 1)
  }

  ghost predicate Next(s: State, s': State) {
    exists step :: Enabled(s, step) && s' == Apply(s, step)
  }

  ghost predicate IsRun(run: seq<State>) {
    && |run| > 0
    && run[0] == Init(run[0].progress)
    && forall i :: 0 <= i < |run| - 1 ==> Next(run[i], run[i + 1])
  }

  // ----- the invariant

  predicate LocksHeld(s: State) {
    && (s.lock.ByWaiter? <==>
        s.waiter.Checked? || s.waiter.Read? || s.waiter.Armed? || s.waiter.Acking? || s.waiter.Draining?)
    && (s.lock.ByConsumer? <==> s.consumer.InSection? || s.consumer.Posting? || s.consumer.Leaving?)
  }

  /** The arm is live exactly from arming to acknowledgement, and only a live arm is claimed. */
  predicate ArmOwned(s: State) {
    && (s.waiting <==> s.waiter.Armed? || s.waiter.Asleep? || s.waiter.Woken? || s.waiter.Acking?)
    && (s.claimed ==> s.waiting && !s.waiter.Armed?)
    && (s.consumer.Posting? ==> s.claimed)
    && (s.consumer.Leaving? ==> s.waiting ==> s.claimed)
  }

  /** The hint advertises exactly a live, unclaimed arm, from its store on. */
  predicate HintSet(s: State) {
    s.hint <==> s.waiting && !s.claimed && !s.waiter.Armed?
  }

  /** A claimed sleeper has its token, or the consumer is about to post it. */
  predicate TokenPresent(s: State) {
    s.claimed && s.waiter.Asleep? ==> s.tokens > 0 || s.consumer.Posting?
  }

  /** Tokens beyond the strays of this generation belong to a claim. */
  predicate TokensAccounted(s: State) {
    && (!s.waiting && !s.waiter.Draining? ==> s.tokens <= s.strays)
    && (s.waiting && (!s.claimed || s.consumer.Posting?) ==> s.tokens <= s.strays)
    && s.tokens <= s.strays + 1
  }

  /** Quiescence published after the last change leaves no unclaimed arm on an old value. */
  predicate QuiescenceSeen(s: State) {
    && (s.quiesced && s.waiter.Read? ==> s.waiter.value == s.progress)
    && (s.quiesced && s.waiting && !s.claimed && !s.waiter.Idle? ==> s.waiter.observed == s.progress)
  }

  /** A notification completed since the last change leaves no unclaimed arm on an old value
      either, unless its load of the hint fell into the window. */
  predicate NotificationSeen(s: State) {
    && (s.missed ==> InWindow(s.waiter) || (s.waiting && !s.claimed))
    && (s.notified && !s.missed && s.waiter.Read? ==> s.waiter.value == s.progress)
    && (s.notified && !s.missed && s.waiting && !s.claimed && !s.waiter.Idle? ==> s.waiter.observed == s.progress)
  }

  predicate Inv(s: State) {
    && LocksHeld(s)
    && ArmOwned(s)
    && HintSet(s)
    && TokenPresent(s)
    && TokensAccounted(s)
    && QuiescenceSeen(s)
    && NotificationSeen(s)
  }

  lemma InvPreserved(s: State, step: Step)
    requires Inv(s) && Enabled(s, step)
    ensures Inv(Apply(s, step))
  {
  }

  lemma NextKeepsInv(s: State, s': State)
    requires Inv(s) && Next(s, s')
    ensures Inv(s')
  {
    var step :| Enabled(s, step) && s' == Apply(s, step);
    InvPreserved(s, step);
  }

  /** Every state of every interleaving satisfies the invariant. */
  lemma {:induction false} InvHolds(run: seq<State>, k: nat)
    requires IsRun(run) && k < |run|
    ensures Inv(run[k])
  {
    if k > 0 {
      InvHolds(run, k - 1);
      NextKeepsInv(run[k - 1], run[k]);
    }
  }

  // ----- what the event promises

  /** No lost wake-up: once the consumer has run PublishQuiescence after its last publication,
      a sleeper whose observed value is not the current progress has been claimed and its token
      is there to be taken. */
  lemma NoLostWakeup(run: seq<State>, k: nat)
    requires IsRun(run) && k < |run|
    requires run[k].quiesced && run[k].consumer.Working?
    ensures run[k].waiter.Asleep? && run[k].waiter.observed != run[k].progress
            ==> run[k].claimed && run[k].tokens > 0
  {
    InvHolds(run, k);
  }

  /** The arm-time assertion never fails: a waiter that has just taken the lock finds no live
      arm and no unacknowledged claim. */
  lemma ArmAssertionHolds(run: seq<State>, k: nat)
    requires IsRun(run) && k < |run| && run[k].waiter.Checked?
    ensures !run[k].waiting && !run[k].claimed
  {
    InvHolds(run, k);
  }

  /** No token outlives its generation: outside a wait, every token in the semaphore is a stray
      posted since the last wait returned, and a claim adds at most one to those. */
  lemma TokensNeverCarryOver(run: seq<State>, k: nat)
    requires IsRun(run) && k < |run|
    ensures run[k].waiter.Idle? ==> run[k].tokens <= run[k].strays
    ensures run[k].tokens <= run[k].strays + 1
  {
    InvHolds(run, k);
  }

  /** An ordinary NotifyOfProgress issued while a waiter sleeps unclaimed is never skipped. */
  lemma NotifySeesSleeper(run: seq<State>, k: nat)
    requires IsRun(run) && k < |run|
    requires run[k].consumer.Notifying? && run[k].waiter.Asleep? && !run[k].claimed
    ensures Apply(run[k], LoadHint).consumer == WantsLock(false)
  {
    InvHolds(run, k);
  }

  /** When notification alone suffices: once it has completed after the last publication, a
      sleeper whose observed value is not the current progress is claimed, with its token there
      to be taken, exactly when no load of the hint since that publication fell between the
      waiter's protected read and its hint store, or a later claim made good for it. */
  lemma NotifySufficesIff(run: seq<State>, k: nat)
    requires IsRun(run) && k < |run|
    requires run[k].notified && run[k].consumer.Working?
    requires run[k].waiter.Asleep? && run[k].waiter.observed != run[k].progress
    ensures run[k].claimed <==> !run[k].missed
    ensures run[k].claimed ==> run[k].tokens > 0
  {
    InvHolds(run, k);
  }

  /** A sleeper that was missed is not lost for good: the next notification finds the hint, and
      the claim that follows it ends the miss. */
  lemma NextNotifyHeals(run: seq<State>, k: nat)
    requires IsRun(run) && k < |run| && run[k].missed && run[k].waiter.Asleep?
    ensures run[k].consumer.Notifying? ==> Apply(run[k], LoadHint).consumer == WantsLock(false)
    ensures run[k].consumer.InSection? ==> Apply(run[k], Claim).claimed && !Apply(run[k], Claim).missed
  {
    InvHolds(run, k);
  }

  /** A notification goes on to the lock exactly when there is an advertised arm to claim. */
  lemma NotifyTakesLockIff(run: seq<State>, k: nat)
    requires IsRun(run) && k < |run| && run[k].consumer.Notifying?
    ensures Apply(run[k], LoadHint).consumer == WantsLock(false)
       <==> run[k].waiting && !run[k].claimed && !run[k].waiter.Armed?
  {
    InvHolds(run, k);
  }

  predicate ByWaitingThread(step: Step) {
    ByWaiterThread(step) || step.Call? || step.LockToArm? || step.ReadProgress? || step.ReturnAtOnce? || step.Arm?
    || step.PublishHint?
  }

  predicate ByConsumerThread(step: Step) {
    !ByWaitingThread(step) && !step.Stray?
  }

  ghost predicate WaiterCanMove(s: State) {
    exists step :: ByWaitingThread(step) && Enabled(s, step)
  }

  ghost predicate ConsumerCanMove(s: State) {
    exists step :: ByConsumerThread(step) && Enabled(s, step)
  }

  /** What the threads wait for, in every run: the waiter for the lock while the consumer holds it, or
      asleep for a token; the consumer only for the lock, and only while the waiter holds it. */
  lemma BlockedIff(run: seq<State>, k: nat)
    requires IsRun(run) && k < |run|
    ensures var s := run[k];
            && (!WaiterCanMove(s) <==> (s.waiter.Asleep? && s.tokens == 0)
                                       || ((s.waiter.Entered? || s.waiter.Woken?) && s.lock.ByConsumer?))
            && (!ConsumerCanMove(s) <==> s.consumer.WantsLock? && s.lock.ByWaiter?)
  {
    InvHolds(run, k);
    WaiterBlocked(run[k]);
    ConsumerBlocked(run[k]);
  }

  lemma WaiterMoves(s: State, step: Step)
    requires ByWaitingThread(step) && Enabled(s, step)
    ensures WaiterCanMove(s)
  {
  }

  lemma ConsumerMoves(s: State, step: Step)
    requires ByConsumerThread(step) && Enabled(s, step)
    ensures ConsumerCanMove(s)
  {
  }

  lemma WaiterBlocked(s: State)
    requires Inv(s)
    ensures !WaiterCanMove(s) <==> (s.waiter.Asleep? && s.tokens == 0)
                                   || ((s.waiter.Entered? || s.waiter.Woken?) && s.lock.ByConsumer?)
  {
    if !(s.waiter.Asleep? && s.tokens == 0) && !((s.waiter.Entered? || s.waiter.Woken?) && s.lock.ByConsumer?) {
      var step := match s.waiter
                  case Idle => Call(0)
                  case Entered(_) => LockToArm
                  case Checked(_) => ReadProgress
                  case Read(v, w) => (if v == w then Arm else ReturnAtOnce)
                  case Armed(_) => PublishHint
                  case Asleep(_) => TakeToken
                  case Woken(_) => LockToAck
                  case Acking(_) => (if s.claimed then Acknowledge else IgnoreToken)
                  case Draining(_) => (if s.tokens > 0 then DrainOne else Return);
      WaiterMoves(s, step);
    }
  }

  lemma ConsumerBlocked(s: State)
    requires Inv(s)
    ensures !ConsumerCanMove(s) <==> s.consumer.WantsLock? && s.lock.ByWaiter?
  {
    if !(s.consumer.WantsLock? && s.lock.ByWaiter?) {
      var step := match s.consumer
                  case Working => StartNotify
                  case Notifying => LoadHint
                  case WantsLock(_) => LockToWake
                  case InSection(_) => Claim
                  case Posting(_) => PostClaim
                  case Leaving(_) => Unlock;
      ConsumerMoves(s, step);
    }
  }

  // ----- a claimed waiter gets out

  predicate ByWaiterThread(step: Step) {
    step.TakeToken? || step.LockToAck? || step.IgnoreToken? || step.Acknowledge? || step.DrainOne? || step.Return?
  }

  predicate OnTheWayOut(s: State) {
    s.claimed || s.waiter.Draining?
  }

  function StepsLeft(s: State): nat {
    s.tokens + match s.waiter
               case Asleep(_) => 4
               case Woken(_) => 3
               case Acking(_) => 2
               case Draining(_) => 1
               case _ => 0
  }

  /** Once claimed, the waiter cannot be sent back to sleep: some step of its own is possible as
      soon as the consumer is outside its lock section, and each such step brings it strictly
      closer to returning. */
  lemma ClaimedWaiterReturns(run: seq<State>, k: nat)
    requires IsRun(run) && k < |run| && OnTheWayOut(run[k]) && !run[k].lock.ByConsumer?
    ensures exists step :: ByWaiterThread(step) && Enabled(run[k], step)
    ensures forall step :: ByWaiterThread(step) && Enabled(run[k], step) ==>
              StepsLeft(Apply(run[k], step)) < StepsLeft(run[k])
              && (OnTheWayOut(Apply(run[k], step)) || Apply(run[k], step).waiter.Idle?)
  {
    InvHolds(run, k);
    var s := run[k];
    var step := match s.waiter
                case Asleep(_) => TakeToken
                case Woken(_) => LockToAck
                case Acking(_) => Acknowledge
                case _ => if s.tokens > 0 then DrainOne else Return;
    assert ByWaiterThread(step) && Enabled(s, step);
  }

  // ----- why quiescence is needed

  lemma Extend(run: seq<State>, step: Step, s: State) returns (longer: seq<State>)
    requires IsRun(run) && Enabled(run[|run| - 1], step) && s == Apply(run[|run| - 1], step)
    ensures IsRun(longer) && longer[|longer| - 1] == s
  {
    longer := run + [s];
    assert Next(run[|run| - 1], s);
  }

  /** Publishing and notifying alone can lose a wake-up: a publication that lands between the
      protected read and the hint store is notified while the hint is still false, and the
      waiter then sleeps on the old value with no token. */
  lemma NotifyAloneLosesWakeup() returns (run: seq<State>)
    ensures IsRun(run)
    ensures var last := run[|run| - 1];
            && last.waiter == Asleep(0) && last.progress == 1 && last.tokens == 0
            && !last.claimed && last.consumer.Working? && last.notified && last.missed
  {
    run := [Init(0)];
    run := Extend(run, Call(0), Init(0).(waiter := Entered(0)));
    run := Extend(run, LockToArm, Init(0).(waiter := Checked(0), lock := ByWaiter));
    run := Extend(run, ReadProgress, Init(0).(waiter := Read(0, 0), lock := ByWaiter));
    run := Extend(run, Publish(1), Init(1).(waiter := Read(0, 0), lock := ByWaiter));
    run := Extend(run, StartNotify, Init(1).(waiter := Read(0, 0), lock := ByWaiter, consumer := Notifying));
    var missed := Init(1).(notified := true, missed := true);
    run := Extend(run, LoadHint, missed.(waiter := Read(0, 0), lock := ByWaiter));
    run := Extend(run, Arm, missed.(waiter := Armed(0), lock := ByWaiter, waiting := true));
    run := Extend(run, PublishHint, missed.(waiter := Asleep(0), waiting := true, hint := true));
  }
}
