/**
 The thread pool of libs/thread_worker.h as a machine of its atomic steps.  A push loads
 the running flag, then counts its task, then queues it; a worker sees under the lock that
 the pool runs and the queue is not empty, takes a task, executes it, discounts it, and
 then loads the counter to tell the waiters; the queue may be cleared.  Any interleaving of
 pushers, workers, clearers and a stop is a run.
 */
module ThreadPool {
  import opened Arithmetic
  import opened MachineWords

  // ---------------------------------------------------------------- machine

  datatype Pool<T> = Pool(
    on: bool,
    count: int,
    /** Let in by a push that saw the pool running, not yet counted. */
    admitted: multiset<T>,
    /** Counted, not yet queued. */
    pushing: multiset<T>,
    queue: seq<T>,
    /** A worker holds the lock and is about to take the first task. */
    holder: bool,
    /** Taken by a worker, not yet executed. */
    running: multiset<T>,
    /** Executed, not yet discounted. */
    ended: multiset<T>,
    /** Workers between discounting and their look at the counter. */
    checking: nat,
    /** Whether the waiters have been told since the counter last changed. */
    told: bool,
    dropped: multiset<T>,
    /** Every execution, in order. */
    log: seq<T>,
    begun: multiset<T>)

  datatype Event<T> =
    | Admit(t: T)
    | Count(t: T)
    | EndPush(t: T)
    | Enter
    | Take
    | Execute(t: T)
    | Discount(t: T)
    | Check
    | Clear
    | Stop

  function Start<T>(): Pool<T> {
    Pool(true, 0, multiset{}, multiset{}, [], false, multiset{}, multiset{}, 0, true, multiset{}, [], multiset{})
  }

  predicate Enabled<T(==)>(s: Pool<T>, e: Event<T>) {
    match e
    case Count(t) => t in s.admitted
    case EndPush(t) => t in s.pushing && !s.holder
    case Enter => s.on && s.queue != [] && !s.holder
    case Take => s.holder && s.queue != []
    case Execute(t) => t in s.running
    case Discount(t) => t in s.ended
    case Check => s.checking > 0
    case Clear => !s.holder
    case _ => true
  }

  function Apply<T>(s: Pool<T>, e: Event<T>): Pool<T>
    requires Enabled(s, e)
  {
    match e
    case Admit(t) => if s.on then s.(admitted := s.admitted + multiset{t}) else s
    case Count(t) => s.(admitted := s.admitted - multiset{t}, count := s.count + 1, told := false,
                        pushing := s.pushing + multiset{t}, begun := s.begun + multiset{t})
    case EndPush(t) => s.(pushing := s.pushing - multiset{t}, queue := s.queue + [t])
    case Enter => s.(holder := true)
    case Take => s.(holder := false, queue := s.queue[1..], running := s.running + multiset{s.queue[0]})
    case Execute(t) => s.(running := s.running - multiset{t}, ended := s.ended + multiset{t}, log := s.log + [t])
    case Discount(t) => s.(ended := s.ended - multiset{t}, count := s.count - 1, told := false, checking := s.checking + 1)
    case Check => s.(checking := s.checking - 1, told := s.told || s.count == 0)
    case Clear => s.(queue := [], dropped := s.dropped + multiset(s.queue))
    case Stop => s.(on := false)
  }

  predicate IsRun<T(==)>(s: Pool<T>, es: seq<Event<T>>)
    decreases |es|
  {
    es == [] || (Enabled(s, es[0]) && IsRun(Apply(s, es[0]), es[1..]))
  }

  function After<T(==)>(s: Pool<T>, es: seq<Event<T>>): Pool<T>
    requires IsRun(s, es)
    decreases |es|
  {
    if es == [] then s else After(Apply(s, es[0]), es[1..])
  }

  // -------------------------------------------------------------- invariant

  /** The counter is every task that is counted and not yet queued, queued, with a worker, or lost. */
  ghost predicate Counted<T>(s: Pool<T>) {
    s.count == |s.pushing| + |s.queue| + |s.running| + |s.ended| + |s.dropped|
  }

  /** Every counted task is in one place, or has been executed. */
  ghost predicate Accounted<T>(s: Pool<T>) {
    s.begun == s.pushing + multiset(s.queue) + s.running + multiset(s.log) + s.dropped
  }

  /** A zero counter has been announced, or a worker is still to look at it: no wake-up is lost, and none is false. */
  ghost predicate Announced<T>(s: Pool<T>) {
    s.count == 0 ==> s.told || s.checking > 0
  }

  ghost predicate Inv<T>(s: Pool<T>) {
    Counted(s) && Accounted(s) && Announced(s) && (s.told ==> s.count == 0) && (s.holder ==> s.queue != [])
  }

  lemma StepCounted<T>(s: Pool<T>, e: Event<T>)
    requires Counted(s) && Enabled(s, e)
    ensures Counted(Apply(s, e))
  {
  }

  lemma StepAccounted<T>(s: Pool<T>, e: Event<T>)
    requires Accounted(s) && Enabled(s, e)
    ensures Accounted(Apply(s, e))
  {
    match e {
      case Take => TakeAccounted(s);
      case EndPush(t) => EndPushAccounted(s, t);
      case Execute(t) => ExecuteAccounted(s, t);
      case _ =>
    }
  }

  lemma TakeAccounted<T>(s: Pool<T>)
    requires Accounted(s) && Enabled(s, Take)
    ensures Accounted(Apply(s, Take))
  {
    assert s.queue == [s.queue[0]] + s.queue[1..];
  }

  lemma EndPushAccounted<T>(s: Pool<T>, t: T)
    requires Accounted(s) && Enabled(s, EndPush(t))
    ensures Accounted(Apply(s, EndPush(t)))
  {
    assert multiset(s.queue + [t]) == multiset(s.queue) + multiset{t};
  }

  lemma ExecuteAccounted<T>(s: Pool<T>, t: T)
    requires Accounted(s) && Enabled(s, Execute(t))
    ensures Accounted(Apply(s, Execute(t)))
  {
    assert multiset(s.log + [t]) == multiset(s.log) + multiset{t};
  }

  lemma StepInv<T>(s: Pool<T>, e: Event<T>)
    requires Inv(s) && Enabled(s, e)
    ensures Inv(Apply(s, e))
  {
    hide Counted, Accounted;
    StepCounted(s, e);
    StepAccounted(s, e);
  }

  lemma {:induction false} RunInv<T>(s: Pool<T>, es: seq<Event<T>>)
    requires Inv(s) && IsRun(s, es)
    ensures Inv(After(s, es))
    decreases |es|
  {
    hide Inv;
    if es != [] {
      StepInv(s, es[0]);
      RunInv(Apply(s, es[0]), es[1..]);
    }
  }

  /** When the counter is zero everything counted has been executed, once, and nothing was lost. */
  lemma ZeroMeansDone<T>(s: Pool<T>)
    requires Inv(s) && s.count == 0
    ensures multiset(s.log) == s.begun && s.dropped == multiset{} && s.queue == []
  {
  }

  // ---------------------------------------------------------- when waits end

  /** The counter can still come down to zero. */
  ghost predicate Drainable<T>(s: Pool<T>) {
    && s.dropped == multiset{}
    && (s.on || (s.pushing == multiset{} && |s.queue| == if s.holder then 1 else 0))
  }

  /** A lost task, or a counted task that no worker of a stopped pool will take, is there for good. */
  ghost predicate Stuck<T>(s: Pool<T>) {
    s.dropped != multiset{} || (!s.on && |s.pushing| + |s.queue| > if s.holder then 1 else 0)
  }

  lemma StepStuck<T>(s: Pool<T>, e: Event<T>)
    requires Inv(s) && Enabled(s, e) && Stuck(s)
    ensures Stuck(Apply(s, e))
  {
    hide Counted, Accounted, Announced;
    if e.Clear? && s.dropped == multiset{} {
      if s.queue != [] {
        assert s.queue[0] in multiset(s.queue);
      }
    }
  }

  lemma {:induction false} StuckForever<T>(s: Pool<T>, es: seq<Event<T>>)
    requires Inv(s) && IsRun(s, es) && Stuck(s)
    ensures After(s, es).count > 0
    decreases |es|
  {
    hide Inv, Stuck;
    if es == [] {
      StuckCounts(s);
    } else {
      StepInv(s, es[0]);
      StepStuck(s, es[0]);
      StuckForever(Apply(s, es[0]), es[1..]);
    }
  }

  lemma StuckCounts<T>(s: Pool<T>)
    requires Inv(s) && Stuck(s)
    ensures s.count > 0
  {
  }

  lemma StuckOrDrainable<T>(s: Pool<T>)
    requires Inv(s)
    ensures Stuck(s) <==> !Drainable(s)
  {
  }

  /** The work left, weighed so that every useful step lowers it. */
  ghost function Work<T>(s: Pool<T>): nat
    requires s.holder ==> s.queue != []
  {
    5 * |s.pushing| + 4 * |s.queue| - (if s.holder then 1 else 0) + 2 * |s.running| + |s.ended|
  }

  predicate Useful<T(==)>(s: Pool<T>, e: Event<T>) {
    Enabled(s, e) && (e.Take? || (e.EndPush? && s.on) || e.Enter? || e.Execute? || e.Discount?)
  }

  lemma UsefulStep<T>(s: Pool<T>, e: Event<T>)
    requires Inv(s) && Drainable(s) && Useful(s, e)
    ensures Inv(Apply(s, e)) && Drainable(Apply(s, e)) && Work(Apply(s, e)) < Work(s)
  {
    hide Counted, Accounted, Announced, Work, Drainable;
    StepInv(s, e);
    StepDrainable(s, e);
    StepWork(s, e);
  }

  lemma StepDrainable<T>(s: Pool<T>, e: Event<T>)
    requires Drainable(s) && Useful(s, e)
    ensures Drainable(Apply(s, e))
  {
  }

  lemma StepWork<T>(s: Pool<T>, e: Event<T>)
    requires Useful(s, e) && (s.holder ==> s.queue != []) && (Apply(s, e).holder ==> Apply(s, e).queue != [])
    ensures Work(Apply(s, e)) < Work(s)
  {
  }

  /** A step that brings the counter closer to zero. */
  lemma NextStep<T>(s: Pool<T>) returns (e: Event<T>)
    requires Inv(s) && Drainable(s) && s.count > 0
    ensures Useful(s, e)
  {
    hide Accounted, Announced;
    if s.holder {
      e := Take;
    } else if s.pushing != multiset{} {
      var t :| t in s.pushing;
      e := EndPush(t);
    } else if s.queue != [] {
      e := Enter;
    } else if s.running != multiset{} {
      var t :| t in s.running;
      e := Execute(t);
    } else {
      assert s.ended != multiset{};
      var t :| t in s.ended;
      e := Discount(t);
    }
  }

  lemma {:induction false} Drain<T>(s: Pool<T>) returns (es: seq<Event<T>>)
    requires Inv(s) && Drainable(s)
    ensures IsRun(s, es) && After(s, es).count == 0
    decreases if s.holder ==> s.queue != [] then Work(s) else 0
  {
    hide Inv, Drainable, Apply, Enabled;
    HolderHasTask(s);
    if s.count == 0 {
      es := [];
    } else {
      var e := NextStep(s);
      UsefulStep(s, e);
      var rest := Drain(Apply(s, e));
      es := [e] + rest;
      assert es[1..] == rest;
    }
  }

  lemma HolderHasTask<T>(s: Pool<T>)
    requires Inv(s)
    ensures s.count >= 0 && (s.holder ==> s.queue != [])
  {
  }

  /** Exactly when waiting can still end: nothing was lost, and the pool runs or its workers already have all there is. */
  lemma WaitCanEnd<T>(s: Pool<T>)
    requires Inv(s)
    ensures (exists es :: IsRun(s, es) && After(s, es).count == 0) <==> Drainable(s)
  {
    hide Inv, Drainable, Stuck, Apply, Enabled;
    StuckOrDrainable(s);
    if Drainable(s) {
      var es := Drain(s);
    } else {
      forall es | IsRun(s, es) ensures After(s, es).count != 0 {
        StuckForever(s, es);
      }
    }
  }

  /** The tasks whose push began in a run. */
  function PushedIn<T>(es: seq<Event<T>>): multiset<T> {
    if es == [] then multiset{} else (if es[0].Admit? then multiset{es[0].t} else multiset{}) + PushedIn(es[1..])
  }

  lemma StepPushed<T>(s: Pool<T>, e: Event<T>)
    requires Enabled(s, e) && s.on && !e.Stop?
    ensures Apply(s, e).on
    ensures Apply(s, e).admitted + Apply(s, e).begun
         == s.admitted + s.begun + if e.Admit? then multiset{e.t} else multiset{}
  {
  }

  /** On a pool that is not stopped every push is counted or about to be. */
  lemma {:induction false} PushAccount<T>(s: Pool<T>, es: seq<Event<T>>)
    requires IsRun(s, es) && s.on && Stop !in es
    ensures After(s, es).on && After(s, es).admitted + After(s, es).begun == s.admitted + s.begun + PushedIn(es)
    decreases |es|
  {
    hide Apply, Enabled;
    if es != [] {
      assert es[0] in es;
      StepPushed(s, es[0]);
      PushAccount(Apply(s, es[0]), es[1..]);
    }
  }

  lemma {:induction false} NothingDropped<T>(s: Pool<T>, es: seq<Event<T>>)
    requires IsRun(s, es) && Clear !in es
    ensures After(s, es).dropped == s.dropped
    decreases |es|
  {
    if es != [] {
      assert es[0] in es;
      NothingDropped(Apply(s, es[0]), es[1..]);
    }
  }

  /** A pool never cleared and never stopped can always drain. */
  lemma NeverClearedDrains<T>(es: seq<Event<T>>)
    requires IsRun(Start<T>(), es) && Clear !in es && Stop !in es
    ensures Drainable(After(Start<T>(), es))
  {
    NothingDropped(Start<T>(), es);
    PushAccount(Start<T>(), es);
  }

  /** `wait`: when the counter is zero, exactly the counted tasks have been executed, each as often as it was pushed. */
  lemma WaitMeansAllRun<T>(es: seq<Event<T>>)
    requires IsRun(Start<T>(), es) && After(Start<T>(), es).count == 0
    ensures multiset(After(Start<T>(), es).log) == After(Start<T>(), es).begun
    ensures Stop !in es ==>
      multiset(After(Start<T>(), es).log) + After(Start<T>(), es).admitted == PushedIn(es)
  {
    hide Inv;
    StartInv<T>();
    RunInv(Start<T>(), es);
    ZeroMeansDone(After(Start<T>(), es));
    if Stop !in es {
      PushAccount(Start<T>(), es);
      var a := After(Start<T>(), es);
      assert multiset{} + multiset{} + PushedIn(es) == PushedIn(es);
      assert multiset(a.log) + a.admitted == a.admitted + a.begun;
    }
  }

  lemma StartInv<T>()
    ensures Inv(Start<T>())
  {
  }

  // ------------------------------------------------------------ order and stop

  /** The tasks queued in a run, and the tasks taken, in order. */
  function QueuedIn<T>(es: seq<Event<T>>): seq<T> {
    if es == [] then [] else QueuedBy(es[0]) + QueuedIn(es[1..])
  }

  function TakenIn<T(==)>(s: Pool<T>, es: seq<Event<T>>): seq<T>
    requires IsRun(s, es)
    decreases |es|
  {
    if es == [] then [] else TakenBy(s, es[0]) + TakenIn(Apply(s, es[0]), es[1..])
  }

  lemma Weave<T>(q: seq<T>, queued: seq<T>, later: seq<T>, taken: seq<T>, next: seq<T>, takenLater: seq<T>, end: seq<T>)
    requires q + queued == taken + next && next + later == takenLater + end
    ensures q + (queued + later) == (taken + takenLater) + end
  {
    assert q + (queued + later) == (q + queued) + later;
    assert (taken + next) + later == taken + (next + later);
  }

  function QueuedBy<T>(e: Event<T>): seq<T> {
    if e.EndPush? then [e.t] else []
  }

  function TakenBy<T(==)>(s: Pool<T>, e: Event<T>): seq<T>
    requires Enabled(s, e)
  {
    if e.Take? then [s.queue[0]] else []
  }

  lemma QueueAfter<T>(s: Pool<T>, e: Event<T>)
    requires Enabled(s, e) && !e.Clear?
    ensures e.Take? ==> s.queue != []
    ensures Apply(s, e).queue
         == if e.Take? then s.queue[1..] else if e.EndPush? then s.queue + [e.t] else s.queue
  {
  }

  lemma StepQueue<T>(s: Pool<T>, e: Event<T>)
    requires Enabled(s, e) && !e.Clear?
    ensures s.queue + QueuedBy(e) == TakenBy(s, e) + Apply(s, e).queue
  {
    hide Apply;
    QueueAfter(s, e);
    var q := Apply(s, e).queue;
    if e.Take? {
      assert s.queue + [] == [s.queue[0]] + q;
    } else if e.EndPush? {
      assert q == [] + q;
    } else {
      assert s.queue + [] == [] + q;
    }
  }

  /** Tasks are taken in the order they were queued. */
  lemma {:induction false} FirstInFirstOut<T>(s: Pool<T>, es: seq<Event<T>>)
    requires IsRun(s, es) && Clear !in es
    ensures s.queue + QueuedIn(es) == TakenIn(s, es) + After(s, es).queue
    decreases |es|
  {
    hide Apply, Enabled, QueuedBy, TakenBy;
    if es == [] {
      assert s.queue + [] == [] + s.queue;
    } else {
      var e, rest := es[0], es[1..];
      assert e in es;
      StepQueue(s, e);
      FirstInFirstOut(Apply(s, e), rest);
      Weave(s.queue, QueuedBy(e), QueuedIn(rest), TakenBy(s, e), Apply(s, e).queue, TakenIn(Apply(s, e), rest),
            After(s, es).queue);
    }
  }

  lemma StepStopped<T>(s: Pool<T>, e: Event<T>)
    requires Enabled(s, e) && !s.on
    ensures !Apply(s, e).on && Apply(s, e).admitted <= s.admitted
    ensures |Apply(s, e).log| + |Apply(s, e).running| + (if Apply(s, e).holder then 1 else 0)
         <= |s.log| + |s.running| + (if s.holder then 1 else 0)
  {
  }

  /** A stopped pool stays stopped, lets no push in, and executes no more than its workers already have. */
  lemma {:induction false} StoppedRunsOut<T>(s: Pool<T>, es: seq<Event<T>>)
    requires IsRun(s, es) && !s.on
    ensures !After(s, es).on && After(s, es).admitted <= s.admitted
    ensures |After(s, es).log| <= |s.log| + |s.running| + if s.holder then 1 else 0
    decreases |es|
  {
    hide Apply, Enabled;
    if es != [] {
      StepStopped(s, es[0]);
      StoppedRunsOut(Apply(s, es[0]), es[1..]);
    }
  }

  lemma StopStops<T>(s: Pool<T>)
    ensures !Apply(s, Stop).on
  {
  }

  // -------------------------------------------------------------- the class

  /** The shared fields, and beside them where every task is. */
  class Shared<T(==)> {
    var isRunning: bool
    var countWorks: int
    var d: seq<T>
    ghost var state: Pool<T>

    constructor ()
      ensures Valid() && state == Start<T>()
    {
      isRunning, countWorks, d, state := true, 0, [], Start<T>();
    }

    ghost predicate Valid()
      reads this
    {
      state.on == isRunning && state.count == countWorks && state.queue == d && Inv(state)
    }

    /** `push_back`, first step: the running flag is loaded. */
    method Admit(val: T) returns (accepted: bool)
      requires Valid()
      modifies this
      ensures Valid() && state == Apply(old(state), Event.Admit(val)) && accepted == old(isRunning)
    {
      hide Inv;
      StepInv(state, Event.Admit(val));
      state := Apply(state, Event.Admit(val));
      accepted := isRunning;
    }

    /** `push_back`, second step: `fetch_add`, whether or not the pool still runs. */
    method Count(ghost val: T)
      requires Valid() && val in state.admitted
      modifies this
      ensures Valid() && state == Apply(old(state), Event.Count(val))
    {
      hide Inv;
      StepInv(state, Event.Count(val));
      state := Apply(state, Event.Count(val));
      countWorks := countWorks + 1;
    }

    /** `push_back`, third step, under the lock. */
    method EndPush(val: T)
      requires Valid() && val in state.pushing && !state.holder
      modifies this
      ensures Valid() && state == Apply(old(state), Event.EndPush(val))
    {
      hide Inv;
      StepInv(state, Event.EndPush(val));
      state := Apply(state, Event.EndPush(val));
      d := d + [val];
    }

    /** A worker with the lock: goes on only if the pool runs and there is a task. */
    method Enter() returns (ready: bool)
      requires Valid() && !state.holder
      modifies this
      ensures Valid() && ready == (old(isRunning) && old(d) != [])
      ensures state == if ready then Apply(old(state), Event.Enter) else old(state)
    {
      hide Inv;
      ready := isRunning && d != [];
      if ready {
        StepInv(state, Event.Enter);
        state := Apply(state, Event.Enter);
      }
    }

    /** The worker takes the first task and gives the lock back. */
    method TakeTask() returns (task: T)
      requires Valid() && state.holder
      modifies this
      ensures Valid() && old(d) == [task] + d && state == Apply(old(state), Take)
    {
      hide Inv;
      HolderHasTask(state);
      StepInv(state, Take);
      state := Apply(state, Take);
      assert d == [d[0]] + d[1..];
      task, d := d[0], d[1..];
    }

    /** The task has returned. */
    ghost method Executed(t: T)
      requires Valid() && t in state.running
      modifies this
      ensures Valid() && state == Apply(old(state), Execute(t))
    {
      hide Inv;
      StepInv(state, Execute(t));
      state := Apply(state, Execute(t));
    }

    /** `fetch_sub`. */
    method Discount(ghost t: T)
      requires Valid() && t in state.ended
      modifies this
      ensures Valid() && state == Apply(old(state), Event.Discount(t))
    {
      hide Inv;
      StepInv(state, Event.Discount(t));
      state := Apply(state, Event.Discount(t));
      countWorks := countWorks - 1;
    }

    /** The later look at the counter: the waiters are told if it is zero then, and if so all that was counted is done. */
    method CheckIdle() returns (idle: bool)
      requires Valid() && state.checking > 0
      modifies this
      ensures Valid() && state == Apply(old(state), Check)
      ensures idle <==> countWorks == 0
      ensures idle ==> state.told && multiset(state.log) == state.begun
    {
      hide Inv;
      StepInv(state, Check);
      state := Apply(state, Check);
      idle := countWorks == 0;
      if idle {
        ZeroMeansDone(state);
      }
    }

    /** `clear`: the queue is emptied, the counter is not lowered. */
    method ClearQueue()
      requires Valid() && !state.holder
      modifies this
      ensures Valid() && state == Apply(old(state), Clear)
      ensures old(d) != [] ==> Stuck(state)
    {
      hide Inv;
      StepInv(state, Clear);
      if d != [] {
        assert d[0] in multiset(d);
      }
      state := Apply(state, Clear);
      d := [];
    }

    method StopPool()
      requires Valid()
      modifies this
      ensures Valid() && state == Apply(old(state), Stop)
    {
      hide Inv;
      StepInv(state, Stop);
      state := Apply(state, Stop);
      isRunning := false;
    }

    method Step(e: Event<T>)
      requires Valid() && Enabled(state, e)
      modifies this
      ensures Valid() && state == Apply(old(state), e)
    {
      hide Inv;
      match e {
        case Admit(t) => var _ := Admit(t);
        case Count(t) => Count(t);
        case EndPush(t) => EndPush(t);
        case Enter => var _ := Enter();
        case Take => var _ := TakeTask();
        case Execute(t) => Executed(t);
        case Discount(t) => Discount(t);
        case Check => var _ := CheckIdle();
        case Clear => ClearQueue();
        case Stop => StopPool();
      }
    }

    /** Any run on the object: at a zero counter exactly the counted tasks have been executed, all of them pushed. */
    method Run(es: seq<Event<T>>)
      requires Valid() && state == Start<T>() && IsRun(Start<T>(), es)
      modifies this
      ensures Valid() && state == After(Start<T>(), es)
      ensures countWorks == 0 ==> multiset(state.log) == state.begun && d == []
      ensures countWorks == 0 && Stop !in es ==> multiset(state.log) + state.admitted == PushedIn(es)
    {
      hide Apply, Enabled, Inv, PushedIn;
      var i := 0;
      assert es[0..] == es;
      while i < |es|
        invariant 0 <= i <= |es| && Valid() && IsRun(state, es[i..])
        invariant After(state, es[i..]) == After(Start<T>(), es)
      {
        assert es[i..][1..] == es[i + 1..];
        Step(es[i]);
        i := i + 1;
      }
      assert es[i..] == [];
      if countWorks == 0 {
        ZeroMeansDone(state);
        WaitMeansAllRun(es);
      }
    }
  }

  // ----------------------------------------------------------------- ranges

  datatype Range = Range(start: int, end: int)

  predicate Covers(r: Range, k: int) {
    r.start <= k <= r.end
  }

  /** How many of the ranges hold an index. */
  function Coverage(rs: seq<Range>, k: int): nat {
    if rs == [] then 0 else Coverage(rs[..|rs| - 1], k) + if Covers(rs[|rs| - 1], k) then 1 else 0
  }

  /** Ranges laid end to end from 0 to n. */
  predicate Tiles(rs: seq<Range>, n: int) {
    if rs == [] then n == 0
    else
      var r := rs[|rs| - 1];
      r.start <= r.end && r.end + 1 == n && Tiles(rs[..|rs| - 1], r.start)
  }

  lemma {:induction false} TilesCover(rs: seq<Range>, n: int, k: int)
    requires Tiles(rs, n)
    ensures n >= 0 && Coverage(rs, k) == if 0 <= k < n then 1 else 0
  {
    if rs != [] {
      TilesCover(rs[..|rs| - 1], rs[|rs| - 1].start, k);
    }
  }

  /** `sz / get_count_threads()`, at least one: the division is unsigned, so a negative size becomes a huge one first. */
  function PerThread(sz: int, threads: nat): int
    requires threads > 0 && -W64 <= sz
  {
    var each := ToInt32((if sz < 0 then sz + W64 else sz) / threads);
    if each == 0 then 1 else each
  }

  /** The range with the last index is not the last thread's, and `start + count_per_thread` does not fit 32 bits there. */
  predicate Overflows(sz: int, threads: nat)
    requires threads > 0 && -W32 / 2 <= sz < W32 / 2
  {
    sz > 0 &&
    var n := PerThread(sz, threads) + 1;
    n > 0 && (sz - 1) / n < threads - 1 && ((sz - 1) / n + 1) * n > W32 / 2
  }

  /** How many indices the ranges reach. */
  function Reached(sz: int, threads: nat): (r: int)
    requires threads > 0 && -W32 / 2 <= sz < W32 / 2
  {
    if sz <= 0 then 0
    else if Overflows(sz, threads) then
      var n := PerThread(sz, threads) + 1;
      (sz - 1) / n * n
    else sz
  }

  /** The ranges of `in_parallel`: inclusive, none empty, end to end; none for a negative size. */
  method Ranges(sz: int, threads: nat) returns (rs: seq<Range>)
    requires threads > 0 && -W32 / 2 <= sz < W32 / 2
    ensures Tiles(rs, Reached(sz, threads)) && |rs| <= threads
    ensures forall k :: Coverage(rs, k) == if 0 <= k < Reached(sz, threads) then 1 else 0
  {
    hide Coverage, ToInt32, PerThread, Overflows, Reached;
    var each := PerThread(sz, threads);
    ghost var size := if sz < 0 then 0 else sz;
    ReachedIs(sz, threads);
    rs := [];
    var start, i := 0, 0;
    while i < threads
      invariant 0 <= i <= threads && 0 <= start <= size && |rs| == i
      invariant i == threads ==> start == size
      invariant start < size ==> start == i * (each + 1)
      invariant start == size ==> Reached(sz, threads) == size
      invariant Tiles(rs, start)
    {
      var end := ToInt32(start + each);
      Wraps(start + each);
      if start < size {
        RangeAt(sz, threads, i);
      }
      if end >= sz || i == threads - 1 {
        end := sz - 1;
      }
      if start > end {
        break;
      }
      assert (rs + [Range(start, end)])[..|rs|] == rs;
      rs := rs + [Range(start, end)];
      start := end + 1;
      i := i + 1;
    }
    assert start == Reached(sz, threads);
    forall k ensures Coverage(rs, k) == if 0 <= k < Reached(sz, threads) then 1 else 0 {
      TilesCover(rs, start, k);
    }
  }

  lemma Wraps(n: int)
    requires -W32 / 2 <= n < W32
    ensures ToInt32(n) == if n < W32 / 2 then n else n - W32
  {
  }

  lemma ReachedIs(sz: int, threads: nat)
    requires threads > 0 && -W32 / 2 <= sz < W32 / 2
    ensures -W32 / 2 <= PerThread(sz, threads) < W32 / 2
    ensures sz >= 0 ==> 1 <= PerThread(sz, threads)
    ensures sz <= 0 ==> Reached(sz, threads) == 0
  {
    hide ToInt32;
    if sz >= 0 {
      QuotientBelow(sz, threads);
      Kept(sz / threads);
    }
  }

  /** What the range that starts at i * n has to do with the last index. */
  lemma RangeAt(sz: int, threads: nat, i: nat)
    requires threads > 0 && 0 < sz < W32 / 2 && i < threads
    requires i * (PerThread(sz, threads) + 1) < sz
    ensures var n := PerThread(sz, threads) + 1;
      && (i + 1) * n == i * n + n
      && ((i + 1) * n >= sz && (i == threads - 1 || (i + 1) * n <= W32 / 2) ==> Reached(sz, threads) == sz)
      && (i < threads - 1 && (i + 1) * n > W32 / 2 ==> Reached(sz, threads) == i * n)
      && (i == threads - 1 ==> Reached(sz, threads) == sz)
  {
    hide PerThread;
    var n := PerThread(sz, threads) + 1;
    ReachedIs(sz, threads);
    Distribute(i, 1, n);
    LastRange(sz, n, i);
  }

  lemma LastRange(sz: int, n: int, i: nat)
    requires 0 < n && i * n <= sz - 1
    ensures (sz - 1) / n >= i
    ensures sz - 1 < (i + 1) * n ==> (sz - 1) / n == i
  {
    var q := (sz - 1) / n;
    assert sz - 1 == q * n + (sz - 1) % n;
    Distribute(i, 1, n);
    if q < i {
      MulMonotone(q + 1, i, n);
      Distribute(q, 1, n);
    }
    if sz - 1 < (i + 1) * n {
      QuotientUnique(sz - 1, n, i, sz - 1 - i * n);
    }
  }

  /** Every index is reached exactly unless the sum overflows. */
  lemma AllReached(sz: int, threads: nat)
    requires threads > 0 && -W32 / 2 <= sz < W32 / 2
    ensures Reached(sz, threads) == (if sz < 0 then 0 else sz) <==> !Overflows(sz, threads)
  {
    hide PerThread;
    ReachedIs(sz, threads);
    if sz > 0 {
      var n := PerThread(sz, threads) + 1;
      assert sz - 1 == (sz - 1) / n * n + (sz - 1) % n;
    }
  }

  /** It takes more than 46341 threads. */
  lemma FewThreads(sz: int, threads: nat)
    requires 0 < threads <= 46341 && -W32 / 2 <= sz < W32 / 2
    ensures !Overflows(sz, threads)
  {
    hide PerThread;
    if sz > 0 {
      EachIs(sz, threads);
      var n := PerThread(sz, threads) + 1;
      var last := (sz - 1) / n;
      if last < threads - 1 {
        MulMonotone(last + 1, threads - 1, n);
        Rectangle(sz, threads);
      }
    }
  }

  lemma EachIs(sz: nat, threads: nat)
    requires threads > 0 && sz < W32 / 2
    ensures PerThread(sz, threads) == if sz / threads == 0 then 1 else sz / threads
    ensures PerThread(sz, threads) >= 1
  {
    hide ToInt32;
    QuotientBelow(sz, threads);
    Kept(sz / threads);
  }

  lemma Rectangle(sz: nat, t: nat)
    requires 0 < t <= 46341 && sz < W32 / 2
    ensures (t - 1) * ((if sz / t == 0 then 1 else sz / t) + 1) <= W32 / 2
  {
    var q := sz / t;
    assert sz == q * t + sz % t;
    if q + 1 <= t - 1 {
      MulMonotone(q + 1, 46340, t - 1);
    } else {
      Distribute(t, 1, q + 1);
      Distribute(q, 1, t);
    }
  }

  lemma ManyThreads()
    ensures Overflows(W32 / 2 - 1, 100001)
  {
    assert (W32 / 2 - 1) / 100001 == 21474;
    Kept(21474);
    assert (W32 / 2 - 2) / 21475 == 99999;
  }

  lemma QuotientBelow(sz: nat, threads: nat)
    requires threads > 0
    ensures 0 <= sz / threads <= sz
  {
    MulMonotone(1, threads, sz);
    DivideBelow(sz, threads, sz + 1);
  }

  lemma {:induction false} CoverageWithout(rs: seq<Range>, j: nat, k: int)
    requires j < |rs|
    ensures Coverage(rs, k) == Coverage(rs[..j] + rs[j + 1..], k) + if Covers(rs[j], k) then 1 else 0
  {
    var n := |rs| - 1;
    if j == n {
      assert rs[..j] + rs[j + 1..] == rs[..n];
    } else {
      var w := rs[..j] + rs[j + 1..];
      assert w[..|w| - 1] == rs[..n][..j] + rs[..n][j + 1..] && w[|w| - 1] == rs[n];
      CoverageWithout(rs[..n], j, k);
    }
  }

  /** The coverage does not depend on the order. */
  lemma {:induction false} CoveragePermuted(a: seq<Range>, b: seq<Range>, k: int)
    requires multiset(a) == multiset(b)
    ensures Coverage(a, k) == Coverage(b, k)
  {
    if a == [] {
      assert |multiset(b)| == 0;
    } else {
      var n := |a| - 1;
      assert a == a[..n] + [a[n]];
      assert a[n] in multiset(b);
      var j :| 0 <= j < |b| && b[j] == a[n];
      TakenOut(b, j);
      CoverageWithout(b, j, k);
      CoveragePermuted(a[..n], b[..j] + b[j + 1..], k);
    }
  }

  lemma TakenOut(b: seq<Range>, j: nat)
    requires j < |b|
    ensures multiset(b[..j] + b[j + 1..]) == multiset(b) - multiset{b[j]}
  {
    assert b == b[..j] + [b[j]] + b[j + 1..];
  }

  // ------------------------------------------------------------ in_parallel

  /** A task of one call of `in_parallel`. */
  datatype Job = Job(call: nat, range: Range)

  /** The ranges a call has had executed, in order, each execution once. */
  function Mine(log: seq<Job>, call: nat): seq<Range> {
    if log == [] then []
    else
      var j := log[|log| - 1];
      Mine(log[..|log| - 1], call) + if j.call == call then [j.range] else []
  }

  lemma {:induction false} MineCounts(log: seq<Job>, call: nat, r: Range)
    ensures multiset(Mine(log, call))[r] == multiset(log)[Job(call, r)]
  {
    if log != [] {
      var n := |log| - 1;
      MineCounts(log[..n], call, r);
      assert log == log[..n] + [log[n]];
    }
  }

  /**
   `in_parallel` on a pool that is not stopped: once all its pushes have returned and the counter is zero,
   the executions of its ranges are exactly its ranges, so every index has been processed exactly once.
   */
  lemma {:induction false} EveryIndexOnce(es: seq<Event<Job>>, call: nat, rs: seq<Range>, sz: nat, k: int)
    requires IsRun(Start<Job>(), es) && Stop !in es && After(Start<Job>(), es).count == 0
    requires forall r :: PushedIn(es)[Job(call, r)] == multiset(rs)[r]
    requires forall r :: Job(call, r) !in After(Start<Job>(), es).admitted
    requires Tiles(rs, sz)
    ensures multiset(Mine(After(Start<Job>(), es).log, call)) == multiset(rs)
    ensures Coverage(Mine(After(Start<Job>(), es).log, call), k) == if 0 <= k < sz then 1 else 0
  {
    hide IsRun, After, PushedIn, Mine, Tiles, Coverage;
    WaitMeansAllRun(es);
    var s := After(Start<Job>(), es);
    var mine := Mine(s.log, call);
    forall r ensures multiset(mine)[r] == multiset(rs)[r] {
      MineCounts(s.log, call, r);
      assert (multiset(s.log) + s.admitted)[Job(call, r)] == PushedIn(es)[Job(call, r)];
    }
    CoveragePermuted(mine, rs, k);
    TilesCover(rs, sz, k);
  }
}
