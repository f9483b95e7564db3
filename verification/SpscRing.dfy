/** The lock-free single-producer single-consumer ring of common/boost_spsc_queue.hpp.

    Producer and consumer interleave at every access to shared memory: the load of the other
    side's index, the construction or destruction of a slot, the copy out of a slot, and the
    store of the own index.  `pushed` and `popped` are the histories of completed operations. */
module SpscRing {

  import Arithmetic

  datatype Option<T> = None | Some(value: T)

  datatype Producer<T> = Ready | Constructing(item: T) | Publishing(item: T)

  /** `Holding` has run front() and not yet popped; `Reading` is about to copy the front slot in
      pop(T&); `Destroying` and `Retiring` are the two halves of removing it.  `slot` is the
      index the consumer loaded. */
  datatype Consumer<T> =
    | Waiting
    | Reading(slot: nat)
    | Fronting(slot: nat)
    | Holding(value: T)
    | Destroying(slot: nat, value: T)
    | Retiring(slot: nat, value: T)

  datatype State<T> = State(
    size: nat,
    slots: seq<Option<T>>,
    writeIndex: nat,
    readIndex: nat,
    pending: nat,
    producer: Producer<T>,
    consumer: Consumer<T>,
    pushed: seq<T>,
    popped: seq<T>)

  datatype Step<T> =
    | StartPush(item: T)
    | Construct
    | PublishPush
    | StartPop
    | CopyOut
    | StartFront
    | CopyFront
    | StartPopHeld
    | Destroy
    | PublishPop

  function NextIndex(size: nat, i: nat): nat
    requires size > 0
  {
    (i + 1) % size
  }

  function Init<T>(size: nat): State<T>
    requires size > 0
  {
    State(size, seq(size, _ => None), 0, 0, 0, Ready, Waiting, [], [])
  }

  predicate IsFull<T>(s: State<T>)
    requires s.size > 0
  {
    NextIndex(s.size, s.writeIndex) == s.readIndex
  }

  predicate IsEmpty<T>(s: State<T>) {
    s.writeIndex == s.readIndex
  }

  /** Indices in range: the part of the invariant that makes the steps well-defined. */
  predicate Shape<T>(s: State<T>) {
    && s.size > 0 && |s.slots| == s.size
    && s.writeIndex < s.size && s.readIndex < s.size && s.pending < s.size
    && (s.consumer.Reading? || s.consumer.Fronting? || s.consumer.Destroying? || s.consumer.Retiring?
        ==> s.consumer.slot < s.size)
  }

  /** A slot may be destroyed, or read, only while it is constructed. */
  predicate Enabled<T>(s: State<T>, step: Step<T>) {
    && Shape(s)
    && match step
       case StartPush(_) => s.producer.Ready?
       case Construct => s.producer.Constructing?
       case PublishPush => s.producer.Publishing?
       case StartPop => s.consumer.Waiting? || s.consumer.Holding?
       case CopyOut => s.consumer.Reading? && s.slots[s.consumer.slot].Some?
       case StartFront => s.consumer.Waiting? || s.consumer.Holding?
       case CopyFront => s.consumer.Fronting? && s.slots[s.consumer.slot].Some?
       case StartPopHeld => s.consumer.Holding?
       case Destroy => s.consumer.Destroying?
       case PublishPop => s.consumer.Retiring?
  }

  function Apply<T>(s: State<T>, step: Step<T>): State<T>
    requires Enabled(s, step)
  {
    match step
    case StartPush(item) => if IsFull(s) then s else s.(producer := Constructing(item))
    case Construct =>
      s.(slots := s.slots[s.writeIndex := Some(s.producer.item)], producer := Publishing(s.producer.item))
    case PublishPush =>
      s.(writeIndex := NextIndex(s.size, s.writeIndex), producer := Ready,
         pushed := s.pushed + [s.producer.item])
    case StartPop => if IsEmpty(s) then s else s.(consumer := Reading(s.readIndex))
    case CopyOut =>
      s.(consumer := Destroying(s.consumer.slot, s.slots[s.consumer.slot].value))
    case StartFront => if IsEmpty(s) then s else s.(consumer := Fronting(s.readIndex), pending := s.readIndex)
    case CopyFront => s.(consumer := Holding(s.slots[s.consumer.slot].value))
    case StartPopHeld => s.(consumer := Destroying(s.pending, s.consumer.value))
    case Destroy =>
      s.(slots := s.slots[s.consumer.slot := None], consumer := Retiring(s.consumer.slot, s.consumer.value))
    case PublishPop =>
      s.(readIndex := NextIndex(s.size, s.consumer.slot), consumer := Waiting,
         popped := s.popped + [s.consumer.value])
  }

  ghost predicate Next<T(!new)>(s: State<T>, s': State<T>) {
    exists step :: Enabled(s, step) && s' == Apply(s, step)
  }

  ghost predicate IsRun<T(!new)>(run: seq<State<T>>) {
    && |run| > 0
    && run[0].size > 0 && run[0] == Init(run[0].size)
    && forall i :: 0 <= i < |run| - 1 ==> Next(run[i], run[i + 1])
  }

  // ----- the invariant

  function Length<T>(s: State<T>): int {
    |s.pushed| - |s.popped|
  }

  /** What the slot `d` places after the read index holds: a queued item, the item the producer
      has constructed and not yet published, or nothing. */
  function Expected<T>(s: State<T>, d: nat): Option<T>
    requires Length(s) >= 0
  {
    if d == 0 && s.consumer.Retiring? then None
    else if d < Length(s) then Some(s.pushed[|s.popped| + d])
    else if d == Length(s) && s.producer.Publishing? then Some(s.producer.item)
    else None
  }

  ghost predicate SlotsHold<T>(s: State<T>)
    requires s.size > 0 && |s.slots| == s.size && Length(s) >= 0
  {
    forall d: nat {:trigger Expected(s, d)} :: d < s.size ==> s.slots[(|s.popped| + d) % s.size] == Expected(s, d)
  }

  ghost predicate Inv<T>(s: State<T>) {
    && Shape(s)
    && s.writeIndex == |s.pushed| % s.size
    && s.readIndex == |s.popped| % s.size
    && 0 <= Length(s) <= s.size - 1
    && s.popped == s.pushed[..|s.popped|]
    && SlotsHold(s)
    && (!s.producer.Ready? ==> Length(s) < s.size - 1)
    && (!s.consumer.Waiting? ==> Length(s) > 0)
    && (s.consumer.Holding? ==> s.pending == s.readIndex && s.consumer.value == s.pushed[|s.popped|])
    && (s.consumer.Reading? || s.consumer.Fronting? || s.consumer.Destroying? || s.consumer.Retiring?
        ==> s.consumer.slot == s.readIndex)
    && (s.consumer.Fronting? ==> s.pending == s.readIndex)
    && (s.consumer.Destroying? || s.consumer.Retiring? ==> s.consumer.value == s.pushed[|s.popped|])
  }

  lemma ConstructKeepsInv<T>(s: State<T>)
    requires Inv(s) && Enabled(s, Construct)
    ensures s.slots[s.writeIndex] == None
    ensures Inv(Apply(s, Construct))
  {
    var s' := Apply(s, Construct);
    var len := Length(s);
    assert Expected(s, len) == None;
    forall d: nat | d < s.size
      ensures s'.slots[(|s'.popped| + d) % s.size] == Expected(s', d)
    {
      if d < len {
        Arithmetic.WrapIsInjective(|s.popped| + d, |s.pushed|, s.size);
      } else if d > len {
        Arithmetic.WrapIsInjective(|s.pushed|, |s.popped| + d, s.size);
      }
      assert s.slots[(|s.popped| + d) % s.size] == Expected(s, d);
    }
  }

  lemma PublishPushKeepsInv<T>(s: State<T>)
    requires Inv(s) && Enabled(s, PublishPush)
    ensures Inv(Apply(s, PublishPush))
  {
    var s' := Apply(s, PublishPush);
    Arithmetic.NextWraps(|s.pushed|, s.size);
    forall d: nat | d < s.size
      ensures s'.slots[(|s'.popped| + d) % s.size] == Expected(s', d)
    {
      assert s.slots[(|s.popped| + d) % s.size] == Expected(s, d);
    }
  }

  lemma DestroyKeepsInv<T>(s: State<T>)
    requires Inv(s) && Enabled(s, Destroy)
    ensures s.slots[s.consumer.slot] == Some(s.consumer.value)
    ensures Inv(Apply(s, Destroy))
  {
    var s' := Apply(s, Destroy);
    assert s.slots[(|s.popped| + 0) % s.size] == Expected(s, 0);
    forall d: nat | d < s.size
      ensures s'.slots[(|s'.popped| + d) % s.size] == Expected(s', d)
    {
      Arithmetic.WrapIsInjective(|s.popped|, |s.popped| + d, s.size);
      assert s.slots[(|s.popped| + d) % s.size] == Expected(s, d);
    }
  }

  lemma PublishPopKeepsInv<T>(s: State<T>)
    requires Inv(s) && Enabled(s, PublishPop)
    ensures Inv(Apply(s, PublishPop))
  {
    var s' := Apply(s, PublishPop);
    Arithmetic.NextWraps(|s.popped|, s.size);
    forall d: nat | d < s.size
      ensures s'.slots[(|s'.popped| + d) % s.size] == Expected(s', d)
    {
      if d + 1 < s.size {
        assert s.slots[(|s.popped| + (d + 1)) % s.size] == Expected(s, d + 1);
      } else {
        Arithmetic.WrapPeriod(|s.popped|, s.size);
        assert s.slots[(|s.popped| + 0) % s.size] == Expected(s, 0);
      }
    }
  }

  /** The steps that touch neither slots nor indices. */
  lemma LocalStepKeepsInv<T>(s: State<T>, step: Step<T>)
    requires Inv(s) && Enabled(s, step)
    requires !(step.Construct? || step.PublishPush? || step.Destroy? || step.PublishPop?)
    ensures Inv(Apply(s, step))
  {
    var s' := Apply(s, step);
    FullAndEmpty(s);
    assert s.slots[(|s.popped| + 0) % s.size] == Expected(s, 0);
    forall d: nat | d < s.size
      ensures s'.slots[(|s'.popped| + d) % s.size] == Expected(s', d)
    {
      assert s.slots[(|s.popped| + d) % s.size] == Expected(s, d);
    }
  }

  /** The index tests mean what they should: at the instant of its load, push gives up exactly
      when the ring holds size - 1 items, and pop exactly when it holds none. */
  lemma FullAndEmpty<T>(s: State<T>)
    requires Inv(s)
    ensures IsFull(s) <==> Length(s) == s.size - 1
    ensures IsEmpty(s) <==> Length(s) == 0
  {
    Arithmetic.NextWraps(|s.pushed|, s.size);
    Arithmetic.WrapPeriod(|s.popped|, s.size);
    Arithmetic.WrapIsInjective(|s.pushed| + 1, |s.popped| + s.size, s.size);
    Arithmetic.WrapIsInjective(|s.popped|, |s.pushed|, s.size);
  }

  lemma InvPreserved<T>(s: State<T>, step: Step<T>)
    requires Inv(s) && Enabled(s, step)
    ensures Inv(Apply(s, step))
  {
    match step
    case Construct => ConstructKeepsInv(s);
    case PublishPush => PublishPushKeepsInv(s);
    case Destroy => DestroyKeepsInv(s);
    case PublishPop => PublishPopKeepsInv(s);
    case _ => LocalStepKeepsInv(s, step);
  }

  lemma InitHasInv<T>(size: nat)
    requires size > 0
    ensures Inv(Init<T>(size))
  {
  }

  lemma NextKeepsInv<T(!new)>(s: State<T>, s': State<T>)
    requires Inv(s) && Next(s, s')
    ensures Inv(s')
  {
    var step :| Enabled(s, step) && s' == Apply(s, step);
    InvPreserved(s, step);
  }

  lemma {:induction false} InvHolds<T(!new)>(run: seq<State<T>>, k: nat)
    requires IsRun(run) && k < |run|
    ensures Inv(run[k])
  {
    if k == 0 {
      InitHasInv<T>(run[0].size);
    } else {
      InvHolds(run, k - 1);
      NextKeepsInv(run[k - 1], run[k]);
    }
  }

  // ----- what the ring promises

  /** The items in the queue. */
  function Contents<T>(s: State<T>): seq<T>
    requires 0 <= |s.popped| <= |s.pushed|
  {
    s.pushed[|s.popped|..]
  }

  /** In every interleaving the popped items are a prefix of the pushed items and at most
      size - 1 are in between. */
  lemma FirstInFirstOut<T(!new)>(run: seq<State<T>>, k: nat)
    requires IsRun(run) && k < |run|
    ensures run[k].popped <= run[k].pushed
    ensures |run[k].pushed| - |run[k].popped| <= run[k].size - 1
  {
    InvHolds(run, k);
  }

  /** Step by step the ring refines a bounded FIFO: the store of the write index appends the
      producer's item, the store of the read index removes the head and hands it to the
      consumer, and every other step leaves the queue alone. */
  lemma StepRefinesFifo<T(!new)>(run: seq<State<T>>, k: nat, step: Step<T>)
    requires IsRun(run) && k < |run| && Enabled(run[k], step)
    ensures var s, s' := run[k], Apply(run[k], step);
            && |s.popped| <= |s.pushed| && |s'.popped| <= |s'.pushed|
            && (step.PublishPush? ==> Contents(s') == Contents(s) + [s.producer.item])
            && (step.PublishPop? ==> Contents(s) == [s.consumer.value] + Contents(s'))
            && (!step.PublishPush? && !step.PublishPop? ==> Contents(s') == Contents(s))
            && (step.StartPush? ==> (s' == s <==> |Contents(s)| == s.size - 1))
            && (step.StartPop? || step.StartFront? ==> (s' == s <==> |Contents(s)| == 0))
  {
    InvHolds(run, k);
    InvPreserved(run[k], step);
    FullAndEmpty(run[k]);
  }

  /** Objects are constructed only into empty slots and destroyed or copied only from
      constructed ones, so no construction leaks and no slot is destroyed twice. */
  lemma SlotLifetimes<T(!new)>(run: seq<State<T>>, k: nat)
    requires IsRun(run) && k < |run|
    ensures run[k].producer.Constructing? ==> Shape(run[k]) && run[k].slots[run[k].writeIndex].None?
    ensures run[k].consumer.Reading? || run[k].consumer.Fronting? || run[k].consumer.Destroying?
            ==> Shape(run[k]) && run[k].slots[run[k].consumer.slot].Some?
  {
    InvHolds(run, k);
    var s := run[k];
    if s.producer.Constructing? {
      ConstructKeepsInv(s);
    }
    if Length(s) > 0 {
      assert s.slots[(|s.popped| + 0) % s.size] == Expected(s, 0);
    }
  }

  /** Producer and consumer never work on the same slot. */
  lemma NoSlotRace<T(!new)>(run: seq<State<T>>, k: nat)
    requires IsRun(run) && k < |run|
    requires !run[k].producer.Ready? && !run[k].consumer.Waiting?
    ensures run[k].writeIndex != run[k].readIndex
    ensures !run[k].consumer.Holding? ==> run[k].consumer.slot == run[k].readIndex
  {
    InvHolds(run, k);
    Arithmetic.WrapIsInjective(|run[k].popped|, |run[k].pushed|, run[k].size);
  }

  /** size(), from the two indices it loads. */
  function SizeFrom(size: nat, writeIndex: nat, readIndex: nat): int {
    if readIndex > writeIndex then writeIndex + size - readIndex else writeIndex - readIndex
  }

  function Size<T>(s: State<T>): int {
    SizeFrom(s.size, s.writeIndex, s.readIndex)
  }

  /** The two branches both count the queued items. */
  lemma SizeCounts<T(!new)>(run: seq<State<T>>, k: nat)
    requires IsRun(run) && k < |run|
    ensures Size(run[k]) == |run[k].pushed| - |run[k].popped|
  {
    InvHolds(run, k);
    SizeOfState(run[k]);
  }

  lemma SizeOfState<T>(s: State<T>)
    requires Inv(s)
    ensures Size(s) == |s.pushed| - |s.popped|
  {
    var n, a, b := s.size, |s.popped|, |s.pushed|;
    var r := a % n + (b - a);
    assert b == r + n * (a / n);
    Arithmetic.AddMultiple(r, n, a / n);
    if r < n {
      Arithmetic.Unique(r, n, 0, r);
    } else {
      Arithmetic.Unique(r, n, 1, r - n);
    }
  }

  lemma {:induction false} SizeIsFixed<T(!new)>(run: seq<State<T>>, k: nat)
    requires IsRun(run) && k < |run|
    ensures run[k].size == run[0].size
  {
    if k > 0 {
      SizeIsFixed(run, k - 1);
      assert Next(run[k - 1], run[k]);
    }
  }

  /** size() loads the write index and, later, the read index.  For the producer, who pushes nothing
      meanwhile, the result is the number of items at the second load; for the consumer, who pops
      nothing meanwhile, at the first. */
  lemma SizeIsExactForItsCaller<T(!new)>(run: seq<State<T>>, j: nat, k: nat)
    requires IsRun(run) && j <= k < |run|
    ensures var n := SizeFrom(run[0].size, run[j].writeIndex, run[k].readIndex);
            && (|run[j].pushed| == |run[k].pushed| ==> n == |run[k].pushed| - |run[k].popped|)
            && (|run[j].popped| == |run[k].popped| ==> n == |run[j].pushed| - |run[j].popped|)
  {
    InvHolds(run, j);
    InvHolds(run, k);
    SizeIsFixed(run, j);
    SizeIsFixed(run, k);
    SizeCounts(run, j);
    SizeCounts(run, k);
  }

  /** Neither side ever waits for the other: each always has a step of its own, in every run. */
  lemma NeverBlocked<T(!new)>(run: seq<State<T>>, k: nat, item: T)
    requires IsRun(run) && k < |run|
    ensures exists step :: Enabled(run[k], step) && ByProducer(step)
    ensures exists step :: Enabled(run[k], step) && !ByProducer(step)
  {
    InvHolds(run, k);
    SlotLifetimes(run, k);
    var s := run[k];
    var push := match s.producer
                case Ready => StartPush(item)
                case Constructing(_) => Construct
                case Publishing(_) => PublishPush;
    assert Enabled(s, push) && ByProducer(push);
    var pop := match s.consumer
               case Waiting => StartPop
               case Reading(_) => CopyOut
               case Fronting(_) => CopyFront
               case Holding(_) => StartPopHeld
               case Destroying(_, _) => Destroy
               case Retiring(_, _) => PublishPop;
    assert Enabled(s, pop) && !ByProducer(pop);
  }

  predicate ByProducer<T>(step: Step<T>) {
    step.StartPush? || step.Construct? || step.PublishPush?
  }

  /** front() hands out the head of the queue, which stays there until the consumer pops it. */
  lemma FrontIsHead<T(!new)>(run: seq<State<T>>, k: nat)
    requires IsRun(run) && k < |run| && (run[k].consumer.Holding? || run[k].consumer.Destroying? || run[k].consumer.Retiring?)
    ensures |run[k].popped| < |run[k].pushed| && Contents(run[k])[0] == run[k].consumer.value
  {
    InvHolds(run, k);
  }
}
