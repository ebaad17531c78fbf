/**
 The write path of one server connection (libs/network/epoll_v2.cpp and
 epoll_v2.hpp): messages are queued, coalesced, handed to a worker, partly sent
 and queued again, while the event loop and the workers interleave.  The model
 is a state machine over their atomic steps, for a connection that is not removed.
 */
module WriteQueue {
  import opened Bytes
  import opened Splitting

  // -------------------------------------------------------------------- state

  /** `m_write`: a message, how much of it was sent, and whether it waits for the socket. */
  datatype Chunk = Chunk(msg: seq<Byte>, cursor: nat, waiting: bool)

  /** The statuses of `todo` that keep the connection. */
  datatype Status = Ok | OkRead | SetEpollOut

  /** A task of the thread pool for this connection, before and after its system call. */
  datatype Worker =
    | Writing(msg: seq<Byte>, cursor: nat)
    | Reading
    | Finished(status: Status, msg: seq<Byte>, cursor: nat)

  datatype Action = NoAction | Action(status: Status, msg: seq<Byte>, cursor: nat)

  /**
   The connection: its queue, its membership in `fd_in_process`, its tasks, its
   entry in `actions`; and, for the account, the payloads pushed and bytes sent.
   */
  datatype Conn = Conn(
    queue: seq<Chunk>,
    inProcess: bool,
    workers: seq<Worker>,
    action: Action,
    payloads: seq<seq<Byte>>,
    sent: seq<Byte>)

  const START := Conn([], false, [], NoAction, [], [])

  // ----------------------------------------------------------------- coalescing

  /** Messages of this size or more are not merged. */
  const MERGE_LIMIT: nat := 1024 * 1024

  /** How many chunks at the front are merged, and into what. */
  function Absorbed(queue: seq<Chunk>, one: seq<Byte>): (r: (nat, seq<Byte>))
    ensures r.0 <= |queue|
  {
    if queue == [] || queue[0].cursor != 0 || |queue[0].msg| >= MERGE_LIMIT || |one| >= MERGE_LIMIT then (0, one)
    else
      var (n, all) := Absorbed(queue[1..], one + queue[0].msg);
      (n + 1, all)
  }

  function Coalesce(queue: seq<Chunk>): (r: seq<Chunk>)
    ensures r == [] <==> queue == []
  {
    var (n, one) := Absorbed(queue, []);
    if n > 1 then [Chunk(one, 0, false)] + queue[n..] else queue
  }

  /** The bytes a queue still has to send. */
  function Rest(queue: seq<Chunk>): seq<Byte>
    requires Fit(queue)
  {
    if queue == [] then [] else queue[0].msg[queue[0].cursor..] + Rest(queue[1..])
  }

  /** A chunk is empty or has bytes left. */
  predicate Fit(queue: seq<Chunk>) {
    forall i :: 0 <= i < |queue| ==> HasRest(queue[i].msg, queue[i].cursor)
  }

  predicate HasRest(msg: seq<Byte>, cursor: nat) {
    cursor < |msg| || (cursor == 0 && msg == [])
  }

  lemma {:induction false} RestConcat(a: seq<Chunk>, b: seq<Chunk>)
    requires Fit(a) && Fit(b)
    ensures Fit(a + b) && Rest(a + b) == Rest(a) + Rest(b)
  {
    if a == [] {
      assert a + b == b;
    } else {
      assert (a + b)[1..] == a[1..] + b;
      RestConcat(a[1..], b);
    }
  }

  lemma RestFirst(queue: seq<Chunk>)
    requires Fit(queue) && queue != []
    ensures Rest(queue) == queue[0].msg[queue[0].cursor..] + Rest(queue[1..])
    ensures queue[0].msg[0..] == queue[0].msg
  {
  }

  lemma {:induction false} AbsorbedRest(queue: seq<Chunk>, one: seq<Byte>)
    requires Fit(queue)
    ensures var (n, all) := Absorbed(queue, one); Fit(queue[n..]) && one + Rest(queue) == all + Rest(queue[n..])
  {
    hide Rest;
    if queue == [] || queue[0].cursor != 0 || |queue[0].msg| >= MERGE_LIMIT || |one| >= MERGE_LIMIT {
      assert queue[0..] == queue;
    } else {
      var m := queue[0].msg;
      RestFirst(queue);
      AbsorbedRest(queue[1..], one + m);
      var (n, all) := Absorbed(queue[1..], one + m);
      assert queue[n + 1..] == queue[1..][n..];
      assert one + Rest(queue) == (one + m) + Rest(queue[1..]);
    }
  }

  /** Merging messages changes no byte and no order. */
  lemma CoalesceRest(queue: seq<Chunk>)
    requires Fit(queue)
    ensures Fit(Coalesce(queue)) && Rest(Coalesce(queue)) == Rest(queue)
  {
    var (n, one) := Absorbed(queue, []);
    AbsorbedRest(queue, []);
    if n > 1 {
      var c := Chunk(one, 0, false);
      assert one[0..] == one;
      assert ([c] + queue[n..])[1..] == queue[n..];
    }
  }

  predicate Mergeable(c: Chunk) {
    c.cursor == 0 && |c.msg| < MERGE_LIMIT
  }

  lemma {:induction false} AbsorbedStops(queue: seq<Chunk>, one: seq<Byte>)
    ensures var (n, all) := Absorbed(queue, one);
      && |one| <= |all| && |all| < (if |one| < MERGE_LIMIT then 2 * MERGE_LIMIT else |one| + 1)
      && (n < |queue| ==> !Mergeable(queue[n]) || |all| >= MERGE_LIMIT)
      && (n == 0 ==> all == one) && (n == 1 ==> all == one + queue[0].msg)
      && (n > 0 ==> Mergeable(queue[0]))
  {
    if queue != [] && Mergeable(queue[0]) && |one| < MERGE_LIMIT {
      AbsorbedStops(queue[1..], one + queue[0].msg);
    }
  }

  /** Merging goes on as long as it may: the first two messages left are not both small and unsent. */
  lemma CoalesceMaximal(queue: seq<Chunk>)
    ensures |Coalesce(queue)| >= 2 ==> !(Mergeable(Coalesce(queue)[0]) && Mergeable(Coalesce(queue)[1]))
    ensures |Coalesce(queue)| < |queue| ==> |Coalesce(queue)[0].msg| < 2 * MERGE_LIMIT
  {
    AbsorbedStops(queue, []);
    assert |queue| > 0 ==> [] + queue[0].msg == queue[0].msg;
  }

  // -------------------------------------------------------------------- steps

  /** What the system call `send` does on a connection that stays: some bytes, or would block. */
  datatype SendResult = Sent(n: nat) | WouldBlock

  datatype Event =
    | Push(payload: seq<Byte>)
    | StartWrite
    | StartRead
    | Work(i: nat, result: SendResult)
    | Finish(i: nat)
    | Handle
    | EpollOut

  /** When an event can happen. */
  predicate Enabled(c: Conn, e: Event) {
    match e
    case Push(_) => true
    case StartWrite => !c.inProcess && c.queue != [] && !c.queue[0].waiting
    case StartRead => !c.inProcess
    case Work(i, result) =>
      && i < |c.workers| && c.workers[i].Writing?
      && (result.Sent? && c.workers[i].msg != [] ==> 0 < result.n <= |c.workers[i].msg| - c.workers[i].cursor)
    case Finish(i) => i < |c.workers| && !c.workers[i].Writing?
    case Handle => c.action.Action?
    case EpollOut => c.queue != []
  }

  function Apply(c: Conn, e: Event, det: seq<Byte>): Conn
    requires Enabled(c, e)
  {
    match e
    case Push(payload) => PushMessage(c, payload, det)
    case StartWrite => BeginWrite(c)
    case StartRead => c.(inProcess := true, workers := c.workers + [Reading])
    case Work(i, result) => SendSome(c, i, result)
    case Finish(i) => ProcessFinished(c, i)
    case Handle => HandleAction(c)
    case EpollOut => c.(queue := [c.queue[0].(waiting := false)] + c.queue[1..])
  }

  /** `push_message_impl`: the delimiter, the message, the delimiter. */
  function PushMessage(c: Conn, payload: seq<Byte>, det: seq<Byte>): Conn {
    c.(queue := c.queue + [Chunk(det, 0, false), Chunk(payload, 0, false), Chunk(det, 0, false)],
       payloads := c.payloads + [payload])
  }

  /** `write_to_fd`: merges, then gives the front message to a worker. */
  function BeginWrite(c: Conn): Conn
    requires c.queue != []
  {
    var q := Coalesce(c.queue);
    c.(queue := q[1..], inProcess := true, workers := c.workers + [Writing(q[0].msg, q[0].cursor)])
  }

  /** The worker's one call of `send`. */
  function SendSome(c: Conn, i: nat, result: SendResult): Conn
    requires Enabled(c, Work(i, result))
  {
    var w := c.workers[i];
    if w.msg == [] then c.(workers := c.workers[i := Finished(Ok, w.msg, w.cursor)])
    else match result
    case WouldBlock => c.(workers := c.workers[i := Finished(SetEpollOut, w.msg, w.cursor)])
    case Sent(n) =>
      var at := w.cursor + n;
      var status := if at == |w.msg| then Ok else SetEpollOut;
      c.(workers := c.workers[i := Finished(status, w.msg, at)], sent := c.sent + w.msg[w.cursor..at])
  }

  /** `process_finished`: an action is inserted only if there is none for the connection. */
  function ProcessFinished(c: Conn, i: nat): Conn
    requires i < |c.workers| && !c.workers[i].Writing?
  {
    var w := c.workers[i];
    var a := if w.Reading? then Action(OkRead, [], 0) else Action(w.status, w.msg, w.cursor);
    c.(workers := c.workers[..i] + c.workers[i + 1..], action := if c.action.NoAction? then a else c.action)
  }

  /** The event loop's switch over the action: what is left of a message goes back to the front. */
  function HandleAction(c: Conn): Conn
    requires c.action.Action?
  {
    var d := c.(inProcess := false, action := NoAction);
    if c.action.status == SetEpollOut then
      d.(queue := [Chunk(c.action.msg, c.action.cursor, true)] + d.queue)
    else d
  }

  // ---------------------------------------------------------------- invariant

  function Held(c: Conn): seq<Byte>
    requires forall w :: w in c.workers ==> WorkerFit(w)
    requires ActionFit(c.action)
  {
    if c.workers != [] then WorkerRest(c.workers[0])
    else if c.action.Action? then c.action.msg[c.action.cursor..]
    else []
  }

  predicate WorkerFit(w: Worker) {
    match w
    case Writing(msg, cursor) => HasRest(msg, cursor)
    case Reading => true
    case Finished(status, msg, cursor) => EndFit(status, msg, cursor)
  }

  /** Only a message with bytes left asks for the socket; any other is sent whole. */
  predicate EndFit(status: Status, msg: seq<Byte>, cursor: nat) {
    if status == SetEpollOut then cursor < |msg| else cursor == |msg|
  }

  function WorkerRest(w: Worker): seq<Byte>
    requires WorkerFit(w)
  {
    if w.Reading? then [] else w.msg[w.cursor..]
  }

  predicate ActionFit(a: Action) {
    a.Action? ==> EndFit(a.status, a.msg, a.cursor)
  }

  /** At most one worker or pending action, just when the connection is in process; and no byte lost or reordered. */
  ghost predicate Inv(c: Conn, det: seq<Byte>) {
    && |c.workers| + (if c.action.Action? then 1 else 0) == (if c.inProcess then 1 else 0)
    && Fit(c.queue) && (forall w :: w in c.workers ==> WorkerFit(w)) && ActionFit(c.action)
    && c.sent + Held(c) + Rest(c.queue) == Stream(c.payloads, det)
  }

  lemma StartInv(det: seq<Byte>)
    ensures Inv(START, det)
  {
  }

  lemma {:induction false} StreamSnoc(payloads: seq<seq<Byte>>, p: seq<Byte>, det: seq<Byte>)
    ensures Stream(payloads + [p], det) == Stream(payloads, det) + (det + p + det)
  {
    if payloads == [] {
      assert [p][1..] == [];
      assert det + p + det + [] == [] + (det + p + det);
      assert payloads + [p] == [p];
    } else {
      StreamSnoc(payloads[1..], p, det);
      assert (payloads + [p])[1..] == payloads[1..] + [p];
      var h := det + payloads[0] + det;
      assert h + (Stream(payloads[1..], det) + (det + p + det)) == (h + Stream(payloads[1..], det)) + (det + p + det);
    }
  }

  lemma {:induction false} PushInv(c: Conn, payload: seq<Byte>, det: seq<Byte>)
    requires Inv(c, det)
    ensures Inv(PushMessage(c, payload, det), det)
  {
    var three := [Chunk(det, 0, false), Chunk(payload, 0, false), Chunk(det, 0, false)];
    RestThree(det, payload);
    RestConcat(c.queue, three);
    StreamSnoc(c.payloads, payload, det);
    var framed := det + payload + det;
    assert c.sent + Held(c) + (Rest(c.queue) + framed) == (c.sent + Held(c) + Rest(c.queue)) + framed;
  }

  lemma {:induction false} RestOne(m: seq<Byte>)
    ensures Fit([Chunk(m, 0, false)]) && Rest([Chunk(m, 0, false)]) == m
  {
    var q := [Chunk(m, 0, false)];
    assert q[1..] == [] && m[0..] == m && m + [] == m;
  }

  lemma {:induction false} RestThree(det: seq<Byte>, payload: seq<Byte>)
    ensures var q := [Chunk(det, 0, false), Chunk(payload, 0, false), Chunk(det, 0, false)];
      Fit(q) && Rest(q) == det + payload + det
  {
    hide Rest;
    var d, p := [Chunk(det, 0, false)], [Chunk(payload, 0, false)];
    RestOne(det);
    RestOne(payload);
    RestConcat(d, p);
    RestConcat(d + p, d);
    assert d + p + d == [Chunk(det, 0, false), Chunk(payload, 0, false), Chunk(det, 0, false)];
  }

  lemma {:induction false} WriteInv(c: Conn, det: seq<Byte>)
    requires Inv(c, det) && Enabled(c, StartWrite)
    ensures Inv(BeginWrite(c), det)
  {
    hide Rest, Stream, Coalesce;
    CoalesceRest(c.queue);
    var q := Coalesce(c.queue);
    RestFirst(q);
    var w := Writing(q[0].msg, q[0].cursor);
    assert c.workers + [w] == [w];
    assert c.sent + [] + (WorkerRest(w) + Rest(q[1..])) == c.sent + WorkerRest(w) + Rest(q[1..]);
  }

  lemma {:induction false} WorkInv(c: Conn, i: nat, result: SendResult, det: seq<Byte>)
    requires Inv(c, det) && Enabled(c, Work(i, result))
    ensures Inv(SendSome(c, i, result), det)
  {
    hide Rest, Stream, Fit, Held;
    var w := c.workers[i];
    assert c.workers == [w] && w in c.workers;
    HeldByWorker(c);
    var d := SendSome(c, i, result);
    assert d.workers == [d.workers[0]] && d.workers[0] in d.workers;
    HeldByWorker(d);
    if w.msg != [] && result.Sent? {
      SendAccount(c.sent, w.msg, w.cursor, w.cursor + result.n, Rest(c.queue));
    }
  }

  lemma HeldByWorker(c: Conn)
    requires c.workers != [] && (forall w :: w in c.workers ==> WorkerFit(w)) && ActionFit(c.action)
    ensures c.workers[0] in c.workers && Held(c) == WorkerRest(c.workers[0])
  {
  }

  lemma SendAccount(sent: seq<Byte>, msg: seq<Byte>, from: nat, to: nat, rest: seq<Byte>)
    requires from <= to <= |msg|
    ensures sent + msg[from..] + rest == (sent + msg[from..to]) + msg[to..] + rest
  {
    assert msg[from..] == msg[from..to] + msg[to..];
  }

  lemma {:induction false} FinishInv(c: Conn, i: nat, det: seq<Byte>)
    requires Inv(c, det) && Enabled(c, Finish(i))
    ensures Inv(ProcessFinished(c, i), det)
  {
    var w := c.workers[i];
    assert i == 0 && c.workers == [w] && w in c.workers;
    assert ProcessFinished(c, i).workers == [];
  }

  lemma {:induction false} HandleInv(c: Conn, det: seq<Byte>)
    requires Inv(c, det) && Enabled(c, Handle)
    ensures Inv(HandleAction(c), det)
  {
    assert c.workers == [];
    var a := c.action;
    if a.status == SetEpollOut {
      var front := [Chunk(a.msg, a.cursor, true)];
      assert (front + c.queue)[1..] == c.queue;
      assert c.sent + a.msg[a.cursor..] + Rest(c.queue) == c.sent + [] + (a.msg[a.cursor..] + Rest(c.queue));
    } else {
      assert a.msg[a.cursor..] == [];
    }
  }

  /** Every step of the event loop and of the workers keeps the account. */
  lemma {:induction false} StepInv(c: Conn, e: Event, det: seq<Byte>)
    requires Inv(c, det) && Enabled(c, e)
    ensures Inv(Apply(c, e, det), det)
  {
    match e
    case Push(payload) => PushInv(c, payload, det);
    case StartWrite => WriteInv(c, det);
    case StartRead =>
      assert c.workers + [Reading] == [Reading];
    case Work(i, result) => WorkInv(c, i, result, det);
    case Finish(i) => FinishInv(c, i, det);
    case Handle => HandleInv(c, det);
    case EpollOut =>
      var q := [c.queue[0].(waiting := false)] + c.queue[1..];
      assert q[1..] == c.queue[1..];
  }

  // --------------------------------------------------------------------- runs

  predicate IsRun(c: Conn, run: seq<Event>, det: seq<Byte>)
    decreases |run|
  {
    run == [] || (Enabled(c, run[0]) && IsRun(Apply(c, run[0], det), run[1..], det))
  }

  function After(c: Conn, run: seq<Event>, det: seq<Byte>): Conn
    requires IsRun(c, run, det)
    decreases |run|
  {
    if run == [] then c else After(Apply(c, run[0], det), run[1..], det)
  }

  lemma {:induction false} RunInv(c: Conn, run: seq<Event>, det: seq<Byte>)
    requires Inv(c, det) && IsRun(c, run, det)
    ensures Inv(After(c, run, det), det)
    decreases |run|
  {
    if run != [] {
      StepInv(c, run[0], det);
      RunInv(Apply(c, run[0], det), run[1..], det);
    }
  }

  /**
   In every state of every run: the bytes sent, held and queued are together the
   framed payloads in order; at most one worker or action exists, so no action is
   ever dropped for another; and a connection at rest has sent everything.
   */
  lemma {:induction false} WritePathSafe(run: seq<Event>, det: seq<Byte>)
    requires IsRun(START, run, det)
    ensures var c := After(START, run, det);
      && Inv(c, det)
      && c.sent <= Stream(c.payloads, det)
      && |c.workers| + (if c.action.Action? then 1 else 0) <= 1
      && (forall i :: Enabled(c, Finish(i)) ==> c.action.NoAction?)
      && (c.queue == [] && !c.inProcess ==> c.sent == Stream(c.payloads, det))
  {
    StartInv(det);
    RunInv(START, run, det);
    var c := After(START, run, det);
    assert c.sent + Held(c) + Rest(c.queue) == c.sent + (Held(c) + Rest(c.queue));
    if c.queue == [] && !c.inProcess {
      assert c.sent + [] + [] == c.sent;
    }
  }

  /**
   End to end, for an unbordered delimiter that no payload holds: whatever has been
   sent, the client has received a first part of the payloads, in order, less the
   empty ones; and all of them once the connection is at rest.
   */
  lemma {:induction false} EndToEnd(run: seq<Event>, det: seq<Byte>)
    requires det != [] && Unbordered(det) && IsRun(START, run, det) && Clean(After(START, run, det).payloads, det)
    ensures var c := After(START, run, det); var got := Split(c.sent, det).msgs;
      && got <= NonEmpty(c.payloads)
      && (c.queue == [] && !c.inProcess ==> got == NonEmpty(c.payloads))
  {
    WritePathSafe(run, det);
    var c := After(START, run, det);
    var all := Stream(c.payloads, det);
    StreamSplits(c.payloads, det);
    assert all == c.sent + all[|c.sent|..];
    SplitConcat(c.sent, all[|c.sent|..], det);
  }

  // ------------------------------------------------------------ coming to rest

  predicate AtRest(c: Conn) {
    c.queue == [] && !c.inProcess
  }

  predicate NoPush(run: seq<Event>) {
    forall i :: 0 <= i < |run| ==> !run[i].Push?
  }

  /** The steps left for a chunk that waits in the queue, for a worker and for an action. */
  function ChunkWork(c: Chunk): nat {
    if c.waiting then 5 else 4
  }

  function QueueWork(queue: seq<Chunk>): nat {
    if queue == [] then 0 else ChunkWork(queue[0]) + QueueWork(queue[1..])
  }

  function WorkerWork(w: Worker): nat {
    match w
    case Writing(_, _) => 3
    case Reading => 2
    case Finished(status, _, _) => if status == SetEpollOut then 7 else 2
  }

  function WorkersWork(ws: seq<Worker>): nat {
    if ws == [] then 0 else WorkerWork(ws[0]) + WorkersWork(ws[1..])
  }

  function ActionWork(a: Action): nat {
    if a.NoAction? then 0 else if a.status == SetEpollOut then 6 else 1
  }

  function Left(c: Conn): nat {
    QueueWork(c.queue) + WorkersWork(c.workers) + ActionWork(c.action)
  }

  lemma {:induction false} QueueWorkDrop(queue: seq<Chunk>, k: nat)
    requires 1 <= k <= |queue|
    ensures QueueWork(queue[k..]) + 4 <= QueueWork(queue)
  {
    if k > 1 {
      QueueWorkDrop(queue[1..], k - 1);
      assert queue[1..][k - 1..] == queue[k..];
    }
  }

  lemma CoalesceTail(queue: seq<Chunk>) returns (k: nat)
    requires queue != []
    ensures 1 <= k <= |queue| && Coalesce(queue)[1..] == queue[k..]
  {
    var (n, one) := Absorbed(queue, []);
    k := if n > 1 then n else 1;
  }

  lemma OneWorker(w: Worker)
    ensures WorkersWork([w]) == WorkerWork(w) && WorkersWork([]) == 0
  {
    assert [w][1..] == [];
  }

  lemma StartWriteWork(c: Conn, det: seq<Byte>)
    requires Enabled(c, StartWrite) && c.workers == []
    ensures Left(Apply(c, StartWrite, det)) < Left(c)
  {
    hide Coalesce, QueueWork, WorkersWork;
    var k := CoalesceTail(c.queue);
    QueueWorkDrop(c.queue, k);
    var q := Coalesce(c.queue);
    var w := Writing(q[0].msg, q[0].cursor);
    assert c.workers + [w] == [w];
    OneWorker(w);
  }

  lemma EpollOutWork(c: Conn, det: seq<Byte>)
    requires Enabled(c, EpollOut) && c.queue[0].waiting
    ensures Left(Apply(c, EpollOut, det)) < Left(c)
  {
    var q := [c.queue[0].(waiting := false)] + c.queue[1..];
    assert q[1..] == c.queue[1..];
  }

  lemma HandleWork(c: Conn, det: seq<Byte>)
    requires Enabled(c, Handle)
    ensures Left(Apply(c, Handle, det)) < Left(c)
  {
    hide WorkersWork;
    var q := [Chunk(c.action.msg, c.action.cursor, true)] + c.queue;
    assert q[1..] == c.queue;
  }

  /** A worker that sends all it has. */
  lemma SendAllWork(c: Conn, n: nat, det: seq<Byte>)
    requires |c.workers| == 1 && c.workers[0].Writing? && HasRest(c.workers[0].msg, c.workers[0].cursor)
    requires n == |c.workers[0].msg| - c.workers[0].cursor
    ensures Enabled(c, Work(0, Sent(n))) && Left(Apply(c, Work(0, Sent(n)), det)) < Left(c)
  {
    hide QueueWork, WorkersWork;
    var w := c.workers[0];
    assert c.workers == [w];
    OneWorker(w);
    var d := Apply(c, Work(0, Sent(n)), det);
    assert d.workers == [d.workers[0]] && d.workers[0].Finished? && d.workers[0].status == Ok;
    OneWorker(d.workers[0]);
  }

  lemma FinishWork(c: Conn, det: seq<Byte>)
    requires |c.workers| == 1 && !c.workers[0].Writing? && c.action.NoAction?
    ensures Enabled(c, Finish(0)) && Left(Apply(c, Finish(0), det)) < Left(c)
  {
    hide QueueWork, WorkersWork;
    assert c.workers == [c.workers[0]];
    OneWorker(c.workers[0]);
    assert c.workers[..0] + c.workers[1..] == [];
  }

  /** A connection that is not at rest has a step that brings it closer, without a push. */
  lemma NextStep(c: Conn, det: seq<Byte>) returns (e: Event)
    requires Inv(c, det) && !AtRest(c)
    ensures !e.Push? && Enabled(c, e) && Left(Apply(c, e, det)) < Left(c)
  {
    hide Left, Apply, Rest, Stream, Held;
    if c.workers != [] {
      var w := c.workers[0];
      assert w in c.workers;
      if w.Writing? {
        e := Work(0, Sent(|w.msg| - w.cursor));
        SendAllWork(c, |w.msg| - w.cursor, det);
      } else {
        e := Finish(0);
        FinishWork(c, det);
      }
    } else if c.action.Action? {
      e := Handle;
      HandleWork(c, det);
    } else if c.queue[0].waiting {
      e := EpollOut;
      EpollOutWork(c, det);
    } else {
      e := StartWrite;
      StartWriteWork(c, det);
    }
  }

  /** From every state a run without pushes leads to rest, and then all that was pushed has been sent. */
  lemma {:induction false} Drain(c: Conn, det: seq<Byte>) returns (run: seq<Event>)
    requires Inv(c, det)
    ensures IsRun(c, run, det) && NoPush(run) && AtRest(After(c, run, det))
    ensures After(c, run, det).payloads == c.payloads && After(c, run, det).sent == Stream(c.payloads, det)
    decreases Left(c)
  {
    hide Inv, Left, Apply, Enabled, Stream;
    if AtRest(c) {
      run := [];
      RestIsSent(c, det);
    } else {
      var e := NextStep(c, det);
      StepInv(c, e, det);
      KeepsPayloads(c, e, det);
      var rest := Drain(Apply(c, e, det), det);
      run := [e] + rest;
      assert run[1..] == rest;
    }
  }

  lemma KeepsPayloads(c: Conn, e: Event, det: seq<Byte>)
    requires Enabled(c, e) && !e.Push?
    ensures Apply(c, e, det).payloads == c.payloads
  {
    hide Coalesce;
  }

  lemma RestIsSent(c: Conn, det: seq<Byte>)
    requires Inv(c, det) && AtRest(c)
    ensures c.sent == Stream(c.payloads, det)
  {
    assert c.sent + [] + [] == c.sent;
  }

  /** So every run can be continued until the client has received all payloads. */
  lemma AllDelivered(run: seq<Event>, det: seq<Byte>) returns (more: seq<Event>)
    requires det != [] && Unbordered(det) && IsRun(START, run, det) && Clean(After(START, run, det).payloads, det)
    ensures var c := After(START, run, det);
      && IsRun(c, more, det) && NoPush(more) && AtRest(After(c, more, det))
      && Split(After(c, more, det).sent, det).msgs == NonEmpty(c.payloads)
  {
    hide Inv, IsRun, After, Unbordered, Clean, Split, NonEmpty, Stream;
    StartInv(det);
    RunInv(START, run, det);
    var c := After(START, run, det);
    more := Drain(c, det);
    StreamSplits(c.payloads, det);
  }

  /** The front message waits for the socket and nobody is sending. */
  predicate Blocked(c: Conn) {
    && c.queue != [] && c.queue[0].waiting
    && (forall w :: w in c.workers ==> w.Reading?)
    && (c.action.Action? ==> c.action.status != SetEpollOut)
  }

  /** What is left of a message that could not be sent whole waits at the front. */
  lemma PartlySentBlocks(c: Conn, det: seq<Byte>)
    requires Inv(c, det) && c.action.Action? && c.action.status == SetEpollOut
    ensures Blocked(HandleAction(c)) && HandleAction(c).queue[0].msg[HandleAction(c).queue[0].cursor..] == Held(c)
  {
    assert c.workers == [];
  }

  lemma NobodySends(c: Conn)
    requires Blocked(c)
    ensures forall i, result :: !Enabled(c, Work(i, result))
  {
    forall i: nat, result ensures !Enabled(c, Work(i, result)) {
      if i < |c.workers| {
        assert c.workers[i] in c.workers;
      }
    }
  }

  lemma StepBlocked(c: Conn, e: Event, det: seq<Byte>)
    requires Blocked(c) && Enabled(c, e) && e != EpollOut
    ensures Blocked(Apply(c, e, det)) && Apply(c, e, det).sent == c.sent && Apply(c, e, det).queue[0] == c.queue[0]
  {
    NobodySends(c);
    if e.Finish? {
      assert c.workers[e.i] in c.workers;
      assert forall w :: w in c.workers[..e.i] + c.workers[e.i + 1..] ==> w in c.workers;
    }
  }

  /** Nothing is sent before the socket reports that it takes bytes again. */
  lemma {:induction false} BlockedUntilEpollOut(c: Conn, run: seq<Event>, det: seq<Byte>)
    requires Blocked(c) && IsRun(c, run, det) && EpollOut !in run
    ensures Blocked(After(c, run, det)) && After(c, run, det).sent == c.sent && After(c, run, det).queue[0] == c.queue[0]
    decreases |run|
  {
    hide Blocked, Apply, Enabled;
    BlockedHasFront(c);
    if run != [] {
      assert run[0] in run;
      StepBlocked(c, run[0], det);
      BlockedUntilEpollOut(Apply(c, run[0], det), run[1..], det);
    }
  }

  lemma BlockedHasFront(c: Conn)
    requires Blocked(c)
    ensures c.queue != []
  {
  }

  // ------------------------------------------------- the imperative write path

  /** The connection as the server updates it in place. */
  class Connection {
    var queue: seq<Chunk>
    var inProcess: bool
    var workers: seq<Worker>
    var action: Action
    ghost var payloads: seq<seq<Byte>>
    ghost var sent: seq<Byte>

    ghost function State(): Conn
      reads this
    {
      Conn(queue, inProcess, workers, action, payloads, sent)
    }

    constructor ()
      ensures State() == START
    {
      queue, inProcess, workers, action, payloads, sent := [], false, [], NoAction, [], [];
    }

    method PushMessage(payload: seq<Byte>, det: seq<Byte>)
      modifies this
      ensures State() == Apply(old(State()), Push(payload), det)
    {
      queue := queue + [Chunk(det, 0, false)];
      queue := queue + [Chunk(payload, 0, false)];
      queue := queue + [Chunk(det, 0, false)];
      payloads := payloads + [payload];
    }

    /** The merging loop of `write_to_fd`. */
    method Merge()
      modifies this`queue
      ensures queue == Coalesce(old(queue))
    {
      var one: seq<Byte> := [];
      var n := 0;
      assert queue[0..] == queue;
      while n < |queue|
        invariant 0 <= n <= |queue|
        invariant var (k, all) := Absorbed(queue[n..], one); Absorbed(queue, []) == (n + k, all)
      {
        var w := queue[n];
        assert queue[n..][1..] == queue[n + 1..];
        if w.cursor != 0 {
          break;
        }
        if |w.msg| < MERGE_LIMIT && |one| < MERGE_LIMIT {
          one := one + w.msg;
        } else {
          break;
        }
        n := n + 1;
      }
      if n > 1 {
        queue := [Chunk(one, 0, false)] + queue[n..];
      }
    }

    /** `write_to_fd`. */
    method WriteToFd()
      modifies this
      ensures old(queue) != [] && !old(inProcess) ==> State() == BeginWrite(old(State()))
      ensures old(queue) == [] || old(inProcess) ==> State() == old(State()).(queue := Coalesce(old(queue)))
    {
      Merge();
      if queue != [] {
        if !inProcess {
          inProcess := true;
          var w := queue[0];
          queue := queue[1..];
          workers := workers + [Writing(w.msg, w.cursor)];
        }
      }
    }

    /** The worker's task, given what `send` does. */
    method Send(i: nat, result: SendResult, ghost det: seq<Byte>)
      requires Enabled(State(), Work(i, result))
      modifies this
      ensures State() == Apply(old(State()), Work(i, result), det)
    {
      var w := workers[i];
      var status, cursor := Ok, w.cursor;
      if w.msg != [] {
        match result {
          case WouldBlock =>
            status := SetEpollOut;
          case Sent(n) =>
            sent := sent + w.msg[cursor..cursor + n];
            cursor := cursor + n;
            if cursor < |w.msg| {
              status := SetEpollOut;
            }
        }
      }
      workers := workers[i := Finished(status, w.msg, cursor)];
    }

    /** `process_finished`. */
    method Finish(i: nat, ghost det: seq<Byte>)
      requires Enabled(State(), Event.Finish(i))
      modifies this
      ensures State() == Apply(old(State()), Event.Finish(i), det)
    {
      var w := workers[i];
      workers := workers[..i] + workers[i + 1..];
      if action == NoAction {
        action := if w.Reading? then Action(OkRead, [], 0) else Action(w.status, w.msg, w.cursor);
      }
    }

    /** The event loop on an action: `process_ended` and the switch. */
    method Handle(ghost det: seq<Byte>)
      requires Enabled(State(), Event.Handle)
      modifies this
      ensures State() == Apply(old(State()), Event.Handle, det)
    {
      var a := action;
      action := NoAction;
      inProcess := false;
      if a.status == SetEpollOut {
        queue := [Chunk(a.msg, a.cursor, true)] + queue;
      }
    }

    /** A read task for the connection. */
    method StartRead(ghost det: seq<Byte>)
      requires Enabled(State(), Event.StartRead)
      modifies this
      ensures State() == Apply(old(State()), Event.StartRead, det)
    {
      inProcess := true;
      workers := workers + [Reading];
    }

    /** The socket takes bytes again. */
    method EpollOut(ghost det: seq<Byte>)
      requires Enabled(State(), Event.EpollOut)
      modifies this
      ensures State() == Apply(old(State()), Event.EpollOut, det)
    {
      queue := [queue[0].(waiting := false)] + queue[1..];
    }

    method Step(e: Event, det: seq<Byte>)
      requires Enabled(State(), e)
      modifies this
      ensures State() == Apply(old(State()), e, det)
    {
      match e {
        case Push(payload) => PushMessage(payload, det);
        case StartWrite => WriteToFd();
        case StartRead => StartRead(det);
        case Work(i, result) => Send(i, result, det);
        case Finish(i) => Finish(i, det);
        case Handle => Handle(det);
        case EpollOut => EpollOut(det);
      }
    }

    /**
     Any run on the object: no byte is lost, doubled or reordered, and what a client splits from the bytes
     sent are the first payloads, all of them once the connection is at rest.
     */
    method Run(run: seq<Event>, det: seq<Byte>)
      requires State() == START && IsRun(START, run, det)
      modifies this
      ensures State() == After(START, run, det) && Inv(State(), det)
      ensures det != [] && Unbordered(det) && Clean(payloads, det) ==> Split(sent, det).msgs <= NonEmpty(payloads)
      ensures det != [] && Unbordered(det) && Clean(payloads, det) && queue == [] && !inProcess ==>
        Split(sent, det).msgs == NonEmpty(payloads)
    {
      hide Apply, Enabled, Inv, Unbordered, Clean, Split, NonEmpty;
      var i := 0;
      assert run[0..] == run;
      while i < |run|
        invariant 0 <= i <= |run| && IsRun(State(), run[i..], det)
        invariant After(State(), run[i..], det) == After(START, run, det)
      {
        assert run[i..][1..] == run[i + 1..];
        Step(run[i], det);
        i := i + 1;
      }
      assert run[i..] == [];
      StartInv(det);
      RunInv(START, run, det);
      if det != [] && Unbordered(det) && Clean(payloads, det) {
        EndToEnd(run, det);
      }
    }
  }
}
