/** A producer that waits for ring space: the ring of common/boost_spsc_queue.hpp composed with
    the progress event of common/SingleWaiterProgressEvent.h, as pcsx2/vita/VitaGsMailbox.cpp
    composes them.  The producer finds items pending, then takes `consumer_position()`, then waits
    for it to change; the consumer may retire items between any two of these.  The progress value is
    the wrapped read index itself, so retiring an item is at the same time a publication. */
module RingWait {

  import Arithmetic
  import Ring = SpscRing
  import Event = ProgressEvent

  type Item = int

  /** `snap` is how many items had been popped when the waiting producer took its position; `seen`
      says that the producer has found items pending and has yet to take its position. */
  datatype State = State(ring: Ring.State<Item>, event: Event.State, snap: nat, seen: bool)

  datatype Step =
    | RingStep(r: Ring.Step<Item>)
    | Retire
    | CheckPending
    | TakePosition
    | EventStep(e: Event.Step)

  /** The producer pushes only while it is not waiting, and the consumer touches the ring only
      while it is not inside a notification: each is one thread. */
  predicate Enabled(s: State, step: Step) {
    match step
    case RingStep(r) =>
      && !r.PublishPop?
      && Ring.Enabled(s.ring, r)
      && (r.StartPush? || r.Construct? || r.PublishPush? ==> s.event.waiter.Idle? && !s.seen)
      && (!(r.StartPush? || r.Construct? || r.PublishPush?) ==> s.event.consumer.Working?)
    case Retire =>
      && Ring.Enabled(s.ring, Ring.PublishPop)
      && s.event.consumer.Working?
    case CheckPending => s.ring.producer.Ready? && s.event.waiter.Idle? && !s.seen
    case TakePosition => s.seen && s.ring.producer.Ready? && s.event.waiter.Idle?
    case EventStep(e) =>
      && !e.Call? && !e.Publish?
      && Event.Enabled(s.event, e)
  }

  function Apply(s: State, step: Step): State
    requires Enabled(s, step)
  {
    match step
    case RingStep(r) => s.(ring := Ring.Apply(s.ring, r))
    case Retire =>
      var ring := Ring.Apply(s.ring, Ring.PublishPop);
      s.(ring := ring, event := Event.Apply(s.event, Event.Publish(ring.readIndex)))
    case CheckPending => s.(seen := Ring.Size(s.ring) > 0)
    case TakePosition =>
      s.(event := Event.Apply(s.event, Event.Call(s.ring.readIndex)), snap := |s.ring.popped|, seen := false)
    case EventStep(e) => s.(event := Event.Apply(s.event, e))
  }

  ghost predicate Next(s: State, s': State) {
    exists step :: Enabled(s, step) && s' == Apply(s, step)
  }

  ghost predicate IsRun(run: seq<State>) {
    && |run| > 0
    && run[0].ring.size > 0
    && run[0] == State(Ring.Init(run[0].ring.size), Event.Init(0), 0, false)
    && forall i :: 0 <= i < |run| - 1 ==> Next(run[i], run[i + 1])
  }

  /** While the producer waits, nothing is pushed, so fewer than `size` pops can follow its
      snapshot. */
  ghost predicate Inv(s: State) {
    && Ring.Inv(s.ring)
    && Event.Inv(s.event)
    && s.event.progress == s.ring.readIndex
    && (!s.event.waiter.Idle? ==>
          && s.event.waiter.observed == s.snap % s.ring.size
          && s.snap <= |s.ring.popped|
          && |s.ring.pushed| - s.snap <= s.ring.size - 1)
  }

  lemma RingStepKeepsInv(s: State, r: Ring.Step<Item>)
    requires Inv(s) && Enabled(s, RingStep(r))
    ensures Inv(Apply(s, RingStep(r)))
  {
    Ring.InvPreserved(s.ring, r);
  }

  lemma RetireKeepsInv(s: State)
    requires Inv(s) && Enabled(s, Retire)
    ensures Inv(Apply(s, Retire))
  {
    Ring.InvPreserved(s.ring, Ring.PublishPop);
    Event.InvPreserved(s.event, Event.Publish(Ring.Apply(s.ring, Ring.PublishPop).readIndex));
  }

  lemma EventStepKeepsInv(s: State, e: Event.Step)
    requires Inv(s) && Enabled(s, EventStep(e))
    ensures Inv(Apply(s, EventStep(e)))
  {
    Event.InvPreserved(s.event, e);
  }

  /** Every step of the composition keeps both invariants and what links them. */
  lemma InvPreserved(s: State, step: Step)
    requires Inv(s) && Enabled(s, step)
    ensures Inv(Apply(s, step))
  {
    match step
    case RingStep(r) => RingStepKeepsInv(s, r);
    case Retire => RetireKeepsInv(s);
    case CheckPending =>
    case TakePosition => Event.InvPreserved(s.event, Event.Call(s.ring.readIndex));
    case EventStep(e) => EventStepKeepsInv(s, e);
  }

  lemma NextKeepsInv(s: State, s': State)
    requires Inv(s) && Next(s, s')
    ensures Inv(s')
  {
    var step :| Enabled(s, step) && s' == Apply(s, step);
    InvPreserved(s, step);
  }

  lemma {:induction false} InvHolds(run: seq<State>, k: nat)
    requires IsRun(run) && k < |run|
    ensures Inv(run[k])
  {
    if k == 0 {
      Ring.InitHasInv<Item>(run[0].ring.size);
    } else {
      InvHolds(run, k - 1);
      NextKeepsInv(run[k - 1], run[k]);
    }
  }

  /** Although the index wraps, equality of positions detects progress exactly: the waiting
      producer's observed position equals the current one iff nothing was popped since. */
  lemma PositionDetectsPops(run: seq<State>, k: nat)
    requires IsRun(run) && k < |run| && !run[k].event.waiter.Idle?
    ensures run[k].snap <= |run[k].ring.popped|
    ensures run[k].event.waiter.observed == run[k].ring.readIndex <==> run[k].snap == |run[k].ring.popped|
  {
    InvHolds(run, k);
    var s := run[k];
    Arithmetic.WrapIsInjective(s.snap, |s.ring.popped|, s.ring.size);
  }

  /** A producer waiting for space is never left asleep: once at least one item has been popped
      since it took its position and the consumer has published quiescence, its token is there. */
  lemma BlockedProducerIsWoken(run: seq<State>, k: nat)
    requires IsRun(run) && k < |run| && run[k].event.waiter.Asleep?
    requires run[k].event.quiesced && run[k].event.consumer.Working?
    requires |run[k].ring.popped| != run[k].snap
    ensures run[k].event.claimed && run[k].event.tokens > 0
  {
    InvHolds(run, k);
    PositionDetectsPops(run, k);
  }

  /** What can be left asleep: after quiescence, a sleeper that is not claimed has seen no pop since it
      took its position, and its ring is empty exactly if it was empty then. */
  lemma SleepsOnEmptyRingIff(run: seq<State>, k: nat)
    requires IsRun(run) && k < |run| && run[k].event.waiter.Asleep? && !run[k].event.claimed
    requires run[k].event.quiesced && run[k].event.consumer.Working?
    ensures |run[k].ring.popped| == run[k].snap
    ensures Ring.Size(run[k].ring) == 0 <==> |run[k].ring.pushed| == run[k].snap
  {
    InvHolds(run, k);
    PositionDetectsPops(run, k);
    SizeOfRing(run, k);
  }

  lemma SizeOfRing(run: seq<State>, k: nat)
    requires IsRun(run) && k < |run|
    ensures Ring.Size(run[k].ring) == |run[k].ring.pushed| - |run[k].ring.popped|
  {
    InvHolds(run, k);
    Ring.SizeOfState(run[k].ring);
  }

  /** The producer goes on to take its position exactly when the check finds an item queued, and none of its
      waits begins otherwise. */
  lemma WaitsIfPending(run: seq<State>, k: nat)
    requires IsRun(run) && k < |run|
    ensures Enabled(run[k], CheckPending) ==>
              (Apply(run[k], CheckPending).seen <==> |run[k].ring.popped| < |run[k].ring.pushed|)
    ensures run[k].seen || !run[k].event.waiter.Idle? ==> run[k].ring.pushed != []
  {
    InvHolds(run, k);
    SizeOfRing(run, k);
    PushedBeforeWait(run, k);
  }

  lemma {:induction false} PushedBeforeWait(run: seq<State>, k: nat)
    requires IsRun(run) && k < |run|
    ensures run[k].seen || !run[k].event.waiter.Idle? ==> run[k].ring.pushed != []
  {
    if k > 0 {
      PushedBeforeWait(run, k - 1);
      InvHolds(run, k - 1);
      NextStaysPushed(run[k - 1], run[k]);
    }
  }

  lemma NextStaysPushed(s: State, s': State)
    requires Inv(s) && Next(s, s') && (s.seen || !s.event.waiter.Idle? ==> s.ring.pushed != [])
    ensures s'.seen || !s'.event.waiter.Idle? ==> s'.ring.pushed != []
  {
    var step :| Enabled(s, step) && s' == Apply(s, step);
    StaysPushed(s, step);
  }

  lemma StaysPushed(s: State, step: Step)
    requires Inv(s) && Enabled(s, step) && (s.seen || !s.event.waiter.Idle? ==> s.ring.pushed != [])
    ensures var t := Apply(s, step); t.seen || !t.event.waiter.Idle? ==> t.ring.pushed != []
  {
    match step
    case RingStep(r) => assert s.ring.pushed <= Ring.Apply(s.ring, r).pushed;
    case Retire =>
    case CheckPending => Ring.SizeOfState(s.ring);
    case TakePosition =>
    case EventStep(e) => assert s.event.waiter.Idle? ==> Event.Apply(s.event, e).waiter.Idle?;
  }

  /** Some run ends in `s`. */
  ghost predicate Reachable(s: State) {
    exists run :: IsRun(run) && run[|run| - 1] == s
  }

  lemma Reach(s: State, step: Step, s': State)
    requires Reachable(s) && Enabled(s, step) && s' == Apply(s, step)
    ensures Reachable(s')
  {
    var run :| IsRun(run) && run[|run| - 1] == s;
    var longer := run + [s'];
    assert Next(s, s');
    assert IsRun(longer) && longer[|longer| - 1] == s';
  }

  function FullRing(): Ring.State<Item> {
    Ring.State(2, [Ring.Some(7), Ring.None], 1, 0, 0, Ring.Ready, Ring.Waiting, [7], [])
  }

  function DrainedRing(): Ring.State<Item> {
    Ring.State(2, [Ring.None, Ring.None], 1, 1, 0, Ring.Ready, Ring.Waiting, [7], [7])
  }

  /** A ring of two slots after one push. */
  lemma Pushed()
    ensures Reachable(State(FullRing(), Event.Init(0), 0, false))
  {
    var e := Event.Init(0);
    var empty := Ring.Init<Item>(2);
    assert empty.slots == [Ring.None, Ring.None];
    var begun := empty.(producer := Ring.Constructing(7));
    var built := empty.(slots := [Ring.Some(7), Ring.None], producer := Ring.Publishing(7));
    var start := [State(empty, e, 0, false)];
    assert IsRun(start) && start[|start| - 1] == State(empty, e, 0, false);
    Reach(State(empty, e, 0, false), RingStep(Ring.StartPush(7)), State(begun, e, 0, false));
    Reach(State(begun, e, 0, false), RingStep(Ring.Construct), State(built, e, 0, false));
    Reach(State(built, e, 0, false), RingStep(Ring.PublishPush), State(FullRing(), e, 0, false));
  }

  /** The producer finds the item pending, while the consumer is at it. */
  lemma CheckedInTime()
    ensures Reachable(State(FullRing().(consumer := Ring.Destroying(0, 7)), Event.Init(0), 0, true))
  {
    var e, full := Event.Init(0), FullRing();
    Pushed();
    Reach(State(full, e, 0, false), CheckPending, State(full, e, 0, true));
    Reach(State(full, e, 0, true), RingStep(Ring.StartPop), State(full.(consumer := Ring.Reading(0)), e, 0, true));
    Reach(State(full.(consumer := Ring.Reading(0)), e, 0, true), RingStep(Ring.CopyOut),
          State(full.(consumer := Ring.Destroying(0, 7)), e, 0, true));
  }

  /** Then the consumer retires it. */
  lemma PoppedAfterCheck()
    ensures Reachable(State(DrainedRing(), Event.Init(1), 0, true))
  {
    var retiring := FullRing().(slots := [Ring.None, Ring.None], consumer := Ring.Retiring(0, 7));
    DestroyedAfterCheck(retiring);
    RetireLast(retiring);
    Reach(State(retiring, Event.Init(0), 0, true), Retire, State(DrainedRing(), Event.Init(1), 0, true));
  }

  lemma DestroyedAfterCheck(retiring: Ring.State<Item>)
    requires retiring == FullRing().(slots := [Ring.None, Ring.None], consumer := Ring.Retiring(0, 7))
    ensures Reachable(State(retiring, Event.Init(0), 0, true))
  {
    var destroying := FullRing().(consumer := Ring.Destroying(0, 7));
    CheckedInTime();
    Reach(State(destroying, Event.Init(0), 0, true), RingStep(Ring.Destroy), State(retiring, Event.Init(0), 0, true));
  }

  lemma RetireLast(retiring: Ring.State<Item>)
    requires retiring == FullRing().(slots := [Ring.None, Ring.None], consumer := Ring.Retiring(0, 7))
    ensures Enabled(State(retiring, Event.Init(0), 0, true), Retire)
    ensures Apply(State(retiring, Event.Init(0), 0, true), Retire) == State(DrainedRing(), Event.Init(1), 0, true)
  {
  }

  function Quiescent(): Event.State {
    Event.Init(1).(quiesced := true, notified := true)
  }

  /** The consumer publishes quiescence after it. */
  lemma QuiescentAfterCheck()
    ensures Reachable(State(DrainedRing(), Quiescent(), 0, true))
  {
    var e, ring := Event.Init(1), DrainedRing();
    var wants := e.(consumer := Event.WantsLock(true));
    var inside := e.(consumer := Event.InSection(true), lock := Event.ByConsumer);
    var leaving := e.(consumer := Event.Leaving(true), lock := Event.ByConsumer);
    PoppedAfterCheck();
    QuiescenceSteps(State(ring, e, 0, true), wants, inside, leaving);
  }

  lemma QuiescenceSteps(s: State, wants: Event.State, inside: Event.State, leaving: Event.State)
    requires Reachable(s) && s.event == Event.Init(1)
    requires wants == s.event.(consumer := Event.WantsLock(true))
    requires inside == s.event.(consumer := Event.InSection(true), lock := Event.ByConsumer)
    requires leaving == s.event.(consumer := Event.Leaving(true), lock := Event.ByConsumer)
    ensures Reachable(s.(event := Quiescent()))
  {
    QuiescenceStarts(s, wants, inside);
    Reach(s.(event := inside), EventStep(Event.Claim), s.(event := leaving));
    Reach(s.(event := leaving), EventStep(Event.Unlock), s.(event := Quiescent()));
  }

  lemma QuiescenceStarts(s: State, wants: Event.State, inside: Event.State)
    requires Reachable(s) && s.event == Event.Init(1)
    requires wants == s.event.(consumer := Event.WantsLock(true))
    requires inside == s.event.(consumer := Event.InSection(true), lock := Event.ByConsumer)
    ensures Reachable(s.(event := inside))
  {
    Reach(s, EventStep(Event.StartQuiescence), s.(event := wants));
    Reach(s.(event := wants), EventStep(Event.LockToWake), s.(event := inside));
  }

  /** The source says that a drain to empty cannot lose its wake.  It can: the last item is popped, and
      quiescence published, between the check and the position, and the producer then sleeps on an
      empty ring with no token and nothing left that would post one. */
  lemma DrainBeforePositionLosesWakeup() returns (run: seq<State>)
    ensures IsRun(run)
    ensures var last := run[|run| - 1];
            && last.event.waiter.Asleep? && !last.event.claimed && last.event.tokens == 0
            && last.event.quiesced && last.event.consumer.Working?
            && last.ring.pushed == last.ring.popped == [7] && last.snap == 1
  {
    var e, ring := Quiescent(), DrainedRing();
    var entered := e.(waiter := Event.Entered(1));
    var checked := e.(waiter := Event.Checked(1), lock := Event.ByWaiter);
    var read := e.(waiter := Event.Read(1, 1), lock := Event.ByWaiter);
    var armed := e.(waiter := Event.Armed(1), lock := Event.ByWaiter, waiting := true);
    var asleep := e.(waiter := Event.Asleep(1), waiting := true, hint := true);
    QuiescentAfterCheck();
    Reach(State(ring, e, 0, true), TakePosition, State(ring, entered, 1, false));
    Reach(State(ring, entered, 1, false), EventStep(Event.LockToArm), State(ring, checked, 1, false));
    Reach(State(ring, checked, 1, false), EventStep(Event.ReadProgress), State(ring, read, 1, false));
    Reach(State(ring, read, 1, false), EventStep(Event.Arm), State(ring, armed, 1, false));
    Reach(State(ring, armed, 1, false), EventStep(Event.PublishHint), State(ring, asleep, 1, false));
    run :| IsRun(run) && run[|run| - 1] == State(ring, asleep, 1, false);
  }
}
