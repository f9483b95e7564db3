/** The userspace-counted semaphore of common/Threading.h over the kernel semaphore of
    common/Semaphore.cpp, for any number of threads.  Each atomic operation on the counter and
    each kernel operation is a step.  The kernel wait retries on interruption, so it completes
    only by taking a token. */
module UserspaceSemaphore {

  type Thread = nat

  /** `posting` are the threads that found the counter negative and have yet to post the kernel
      semaphore; `blocked` are the threads inside the kernel wait.  `posts` and `acquired` count
      Post calls begun and waits completed. */
  datatype State = State(
    counter: int,
    kernel: nat,
    posting: set<Thread>,
    blocked: set<Thread>,
    posts: nat,
    acquired: nat)

  datatype Step =
    | Post(t: Thread)
    | KernelPost(t: Thread)
    | Wait(t: Thread)
    | KernelWait(t: Thread)
    | TryWait(t: Thread)

  function Init(): State {
    State(0, 0, {}, {}, 0, 0)
  }

  predicate Enabled(s: State, step: Step) {
    match step
    case KernelPost(t) => t in s.posting
    case KernelWait(t) => t in s.blocked && s.kernel > 0
    case _ => step.t !in s.posting && step.t !in s.blocked
  }

  function Apply(s: State, step: Step): State
    requires Enabled(s, step)
  {
    match step
    case Post(t) =>
      s.(counter := s.counter + 1, posts := s.posts + 1,
         posting := if s.counter < 0 then s.posting + {t} else s.posting)
    case KernelPost(t) => s.(posting := s.posting - {t}, kernel := s.kernel + 1)
    case Wait(t) =>
      if s.counter <= 0 then s.(counter := s.counter - 1, blocked := s.blocked + {t})
      else s.(counter := s.counter - 1, acquired := s.acquired + 1)
    case KernelWait(t) =>
      s.(kernel := s.kernel - 1, blocked := s.blocked - {t}, acquired := s.acquired + 1)
    case TryWait(t) =>
      if s.counter > 0 then s.(counter := s.counter - 1, acquired := s.acquired + 1) else s
  }

  ghost predicate Next(s: State, s': State) {
    exists step :: Enabled(s, step) && s' == Apply(s, step)
  }

  ghost predicate IsRun(run: seq<State>) {
    && |run| > 0
    && run[0] == Init()
    && forall i :: 0 <= i < |run| - 1 ==> Next(run[i], run[i + 1])
  }

  function Debt(counter: int): nat {
    if counter < 0 then -counter else 0
  }

  /** Every blocked thread is owed exactly one of: a future post, a kernel post in flight, a
      kernel token. */
  predicate Inv(s: State) {
    && Debt(s.counter) + |s.posting| + s.kernel == |s.blocked|
    && s.counter + |s.blocked| == s.posts - s.acquired
  }

  lemma InvPreserved(s: State, step: Step)
    requires Inv(s) && Enabled(s, step)
    ensures Inv(Apply(s, step))
  {
    match step
    case Post(t) => Joins(s.posting, t);
    case KernelPost(t) => Leaves(s.posting, t);
    case Wait(t) => Joins(s.blocked, t);
    case KernelWait(t) => Leaves(s.blocked, t);
    case TryWait(t) =>
  }

  lemma Joins(threads: set<Thread>, t: Thread)
    requires t !in threads
    ensures |threads + {t}| == |threads| + 1
  {
  }

  lemma Leaves(threads: set<Thread>, t: Thread)
    requires t in threads
    ensures |threads - {t}| == |threads| - 1
  {
  }

  lemma NextKeepsInv(s: State, s': State)
    requires Inv(s) && Next(s, s')
    ensures Inv(s')
  {
    var step :| Enabled(s, step) && s' == Apply(s, step);
    InvPreserved(s, step);
  }

  lemma {:induction false} InvHolds(run: seq<State>, k: nat)
    requires IsRun(run) && k < |run|
    ensures Inv(run[k])
  {
    if k > 0 {
      InvHolds(run, k - 1);
      NextKeepsInv(run[k - 1], run[k]);
    }
  }

  /** The accounting identity, in every state of every run. */
  lemma WakesBalanceSleepers(run: seq<State>, k: nat)
    requires IsRun(run) && k < |run|
    ensures Debt(run[k].counter) + |run[k].posting| + run[k].kernel == |run[k].blocked|
  {
    InvHolds(run, k);
  }

  /** It is a counting semaphore: the resources posted and not yet acquired are the positive
      part of the counter plus the wakes in flight, so waits never outnumber posts. */
  lemma RefinesCountingSemaphore(run: seq<State>, k: nat)
    requires IsRun(run) && k < |run|
    ensures run[k].posts - run[k].acquired
            == (if run[k].counter > 0 then run[k].counter else 0) + |run[k].posting| + run[k].kernel
    ensures run[k].acquired <= run[k].posts
  {
    InvHolds(run, k);
  }

  /** With the counter non-negative and no kernel post in flight, there is a token for each
      blocked thread, so none of them stays blocked. */
  lemma NoWaiterStaysBlocked(run: seq<State>, k: nat, t: Thread)
    requires IsRun(run) && k < |run|
    requires run[k].counter >= 0 && run[k].posting == {}
    ensures run[k].kernel == |run[k].blocked|
    ensures t in run[k].blocked ==> Enabled(run[k], KernelWait(t))
  {
    InvHolds(run, k);
    if t in run[k].blocked {
      assert run[k].blocked != {};
    }
  }

  /** Neither Wait nor TryWait blocks or gives up while a resource is free that is not already on its way
      to a blocked thread, and each takes one then; otherwise Wait blocks and TryWait changes nothing. */
  lemma TakesAtOnceIff(run: seq<State>, k: nat, t: Thread)
    requires IsRun(run) && k < |run| && t !in run[k].posting && t !in run[k].blocked
    ensures var s := run[k];
            var free := s.posts - s.acquired - |s.posting| - s.kernel;
            && free >= 0
            && (t in Apply(s, Wait(t)).blocked <==> free == 0)
            && Apply(s, Wait(t)).acquired == s.acquired + (if free > 0 then 1 else 0)
            && Apply(s, TryWait(t)).acquired == s.acquired + (if free > 0 then 1 else 0)
            && (free == 0 <==> Apply(s, TryWait(t)) == s)
  {
    InvHolds(run, k);
  }

  /** A post hands its resource on exactly when somebody is blocked who is not yet owed one. */
  lemma PostWakesIff(run: seq<State>, k: nat, t: Thread)
    requires IsRun(run) && k < |run| && t !in run[k].posting && t !in run[k].blocked
    ensures t in Apply(run[k], Post(t)).posting <==> |run[k].posting| + run[k].kernel < |run[k].blocked|
  {
    InvHolds(run, k);
  }

  /** The only thread that cannot go on is one blocked without a kernel token. */
  lemma BlockedIff(run: seq<State>, k: nat, t: Thread)
    requires IsRun(run) && k < |run|
    ensures (forall step :: Enabled(run[k], step) ==> step.t != t) <==> t in run[k].blocked && run[k].kernel == 0
  {
    InvHolds(run, k);
    OneActivity(run, k, t);
    var step := if t in run[k].posting then KernelPost(t) else if t in run[k].blocked then KernelWait(t) else Post(t);
    assert Enabled(run[k], step) || (t in run[k].blocked && run[k].kernel == 0);
  }

  lemma {:induction false} OneActivity(run: seq<State>, k: nat, t: Thread)
    requires IsRun(run) && k < |run|
    ensures !(t in run[k].posting && t in run[k].blocked)
  {
    if k > 0 {
      OneActivity(run, k - 1, t);
      assert Next(run[k - 1], run[k]);
    }
  }
}
