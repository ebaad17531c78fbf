/**
 Delimiter framing on the server (libs/network/epoll_v2.cpp: `process_read` and
 `process_read2` with `message_helper` of epoll_v2.hpp).  Both parsers are
 proved to run one automaton over the bytes.
 */
module Framing {
  import opened Sequences
  import opened Arithmetic
  import opened Bytes

  // ---------------------------------------------------------------- automaton

  /** A partly read message, and how many bytes of a delimiter follow it. */
  datatype Frame = Frame(message: seq<Byte>, k: nat)

  const EMPTY := Frame([], 0)

  predicate InRange(st: Frame, det: seq<Byte>) {
    st.k <= |det|
  }

  /** What one byte does to a frame that does not hold a whole delimiter. */
  function Feed(st: Frame, ch: Byte, det: seq<Byte>): (r: Frame)
    requires st.k < |det|
    ensures InRange(r, det)
  {
    if ch == det[st.k] then Frame(st.message, st.k + 1)
    else if ch == det[0] then Frame(st.message + det[..st.k], 1)
    else Frame(st.message + det[..st.k] + [ch], 0)
  }

  /** A whole delimiter ends the message; an empty message is dropped. */
  function Flushed(st: Frame, det: seq<Byte>): (r: Frame)
    requires InRange(st, det) && det != []
    ensures r.k < |det|
  {
    if st.k == |det| then EMPTY else st
  }

  function Emitted(st: Frame, det: seq<Byte>): (msgs: seq<seq<Byte>>)
    ensures |msgs| <= 1
  {
    if st.k == |det| && st.message != [] then [st.message] else []
  }

  /** The automaton over a run of bytes: the frame it ends in and the messages it yields. */
  datatype Outcome = Outcome(frame: Frame, msgs: seq<seq<Byte>>)

  function Run(st: Frame, buf: seq<Byte>, det: seq<Byte>): (r: Outcome)
    requires st.k < |det|
    ensures r.frame.k < |det|
    decreases |buf|, 0
  {
    if buf == [] then Outcome(st, [])
    else Resume(Feed(st, buf[0], det), buf[1..], det)
  }

  /** The automaton from a frame that may hold a whole delimiter. */
  function Resume(st: Frame, buf: seq<Byte>, det: seq<Byte>): (r: Outcome)
    requires InRange(st, det) && det != []
    ensures r.frame.k < |det|
    decreases |buf|, 1
  {
    var r := Run(Flushed(st, det), buf, det);
    Outcome(r.frame, Emitted(st, det) + r.msgs)
  }

  lemma ResumeOpen(st: Frame, buf: seq<Byte>, det: seq<Byte>)
    requires st.k < |det|
    ensures Resume(st, buf, det) == Run(st, buf, det)
  {
    var r := Run(st, buf, det);
    assert [] + r.msgs == r.msgs;
  }

  lemma RunCons(st: Frame, ch: Byte, rest: seq<Byte>, det: seq<Byte>)
    requires st.k < |det|
    ensures Run(st, [ch] + rest, det) == Resume(Feed(st, ch, det), rest, det)
  {
    assert ([ch] + rest)[1..] == rest;
  }

  /** Feeding a stream in pieces gives what feeding it whole gives. */
  lemma {:induction false} RunConcat(st: Frame, a: seq<Byte>, b: seq<Byte>, det: seq<Byte>)
    requires st.k < |det|
    ensures var r := Run(st, a, det); var t := Run(r.frame, b, det);
      Run(st, a + b, det) == Outcome(t.frame, r.msgs + t.msgs)
    decreases |a|
  {
    if a == [] {
      assert a + b == b;
    } else {
      var f := Feed(st, a[0], det);
      RunConcat(Flushed(f, det), a[1..], b, det);
      assert (a + b)[1..] == a[1..] + b;
      var r := Run(Flushed(f, det), a[1..], det);
      var t := Run(r.frame, b, det);
      assert Emitted(f, det) + (r.msgs + t.msgs) == (Emitted(f, det) + r.msgs) + t.msgs;
    }
  }

  /** The reads of a connection, one call of the parser each. */
  function RunChunks(st: Frame, chunks: seq<seq<Byte>>, det: seq<Byte>): (r: Outcome)
    requires st.k < |det|
    ensures r.frame.k < |det|
    decreases |chunks|
  {
    if chunks == [] then Outcome(st, [])
    else
      var r := Run(st, chunks[0], det);
      var t := RunChunks(r.frame, chunks[1..], det);
      Outcome(t.frame, r.msgs + t.msgs)
  }

  /** However the stream is cut into reads, the messages and the end state are those of one read. */
  lemma {:induction false} ChunkingIrrelevant(st: Frame, chunks: seq<seq<Byte>>, det: seq<Byte>)
    requires st.k < |det|
    ensures RunChunks(st, chunks, det) == Run(st, Flat(chunks), det)
    decreases |chunks|
  {
    if chunks != [] {
      var r := Run(st, chunks[0], det);
      ChunkingIrrelevant(r.frame, chunks[1..], det);
      assert chunks == [chunks[0]] + chunks[1..];
      FlatCons(chunks[0], chunks[1..]);
      RunConcat(st, chunks[0], Flat(chunks[1..]), det);
    }
  }

  // -------------------------------------------------------------- the parsers

  /** `message_helper`: the bytes held back are a prefix of the delimiter. */
  class MessageHelper {
    var message: seq<Byte>
    var delMessage: seq<Byte>
    var seekDelimeter: int

    constructor ()
      ensures message == [] && delMessage == [] && seekDelimeter == -1
    {
      message, delMessage, seekDelimeter := [], [], -1;
    }

    ghost predicate Valid(det: seq<Byte>)
      reads this
    {
      -1 <= seekDelimeter < |det| && delMessage == det[..seekDelimeter + 1]
    }

    ghost function State(): Frame
      reads this
      requires -1 <= seekDelimeter
    {
      Frame(message, seekDelimeter + 1)
    }

    method Clear()
      modifies this
      ensures message == [] && delMessage == [] && seekDelimeter == -1
    {
      message, delMessage, seekDelimeter := [], [], -1;
    }

    /** Notes one more byte of the delimiter. */
    method Match(ch: Byte, ghost det: seq<Byte>)
      requires Valid(det) && seekDelimeter + 1 < |det| && ch == det[seekDelimeter + 1]
      modifies this
      ensures Valid(det) && message == old(message) && seekDelimeter == old(seekDelimeter) + 1
    {
      seekDelimeter := seekDelimeter + 1;
      delMessage := delMessage + [ch];
    }

    /** Gives the bytes of a broken delimiter back to the message. */
    method GiveBack(ghost det: seq<Byte>)
      requires Valid(det)
      modifies this
      ensures Valid(det) && seekDelimeter == -1
      ensures message == old(message) + det[..old(seekDelimeter) + 1]
    {
      if delMessage != [] {
        message := message + delMessage;
        delMessage := [];
        seekDelimeter := -1;
      }
    }
  }

  /** The lambda `f_add_message`. */
  method AddMessage(m: MessageHelper, ret: seq<seq<Byte>>, ghost det: seq<Byte>) returns (out: seq<seq<Byte>>)
    requires m.Valid(det) && m.seekDelimeter + 1 == |det| && det != []
    modifies m
    ensures m.Valid(det) && m.State() == EMPTY
    ensures out == ret + Emitted(old(m.State()), det)
  {
    out := ret;
    if m.message != [] {
      out := out + [m.message];
    }
    m.Clear();
  }

  /** The inner loop of `process_read2`: up to and including the next byte that continues a delimiter. */
  method ScanRun(m: MessageHelper, buf: seq<Byte>, det: seq<Byte>, start: nat) returns (i: nat)
    requires m.Valid(det) && m.seekDelimeter + 1 < |det| && start < |buf|
    modifies m
    ensures m.Valid(det) && start < i <= |buf|
    ensures Run(old(m.State()), buf[start..], det) == Resume(m.State(), buf[i..], det)
  {
    i := start;
    var delChar := det[m.seekDelimeter + 1];
    while i < |buf|
      invariant start <= i <= |buf| && m.Valid(det) && m.seekDelimeter + 1 < |det|
      invariant delChar == det[m.seekDelimeter + 1]
      invariant Run(old(m.State()), buf[start..], det) == Run(m.State(), buf[i..], det)
    {
      var ch := buf[i];
      assert buf[i..][1..] == buf[i + 1..];
      if ch == delChar {
        m.Match(ch, det);
        i := i + 1;
        return;
      }
      ghost var before := m.State();
      m.GiveBack(det);
      delChar := det[0];
      if ch == delChar {
        m.Match(ch, det);
        i := i + 1;
        return;
      }
      m.message := m.message + [ch];
      assert m.State() == Feed(before, ch, det);
      i := i + 1;
    }
    assert buf[i..] == [];
  }

  /** The call of `f_add_message`, and what it leaves to be done. */
  method Deliver(m: MessageHelper, ret: seq<seq<Byte>>, ghost det: seq<Byte>, ghost left: seq<Byte>)
    returns (out: seq<seq<Byte>>)
    requires m.Valid(det) && m.seekDelimeter + 1 == |det| && det != []
    modifies m
    ensures m.Valid(det) && m.seekDelimeter == -1
    ensures var r, t := Resume(old(m.State()), left, det), Resume(m.State(), left, det);
      r.frame == t.frame && ret + r.msgs == out + t.msgs
  {
    hide Run;
    ghost var e, r := Emitted(m.State(), det), Run(EMPTY, left, det);
    out := AddMessage(m, ret, det);
    assert ret + (e + r.msgs) == (ret + e) + r.msgs;
    ResumeOpen(EMPTY, left, det);
  }

  lemma ResumeNothing(st: Frame, det: seq<Byte>)
    requires st.k < |det|
    ensures Resume(st, [], det) == Outcome(st, [])
  {
  }

  /** `process_read2`. */
  method ProcessRead2(m: MessageHelper, buf: seq<Byte>, det: seq<Byte>) returns (ret: seq<seq<Byte>>)
    requires m.Valid(det) && m.seekDelimeter + 1 < |det|
    modifies m
    ensures m.Valid(det) && m.seekDelimeter + 1 < |det|
    ensures Outcome(m.State(), ret) == Run(old(m.State()), buf, det)
  {
    hide Run, Resume, Emitted;
    ret := [];
    var i := 0;
    ghost var goal := Run(m.State(), buf, det);
    assert buf[0..] == buf;
    ResumeOpen(m.State(), buf, det);
    assert [] + goal.msgs == goal.msgs;
    while i < |buf|
      invariant 0 <= i <= |buf| && m.Valid(det)
      invariant i == |buf| ==> m.seekDelimeter + 1 < |det|
      invariant var r := Resume(m.State(), buf[i..], det); goal == Outcome(r.frame, ret + r.msgs)
      decreases |buf| - i, m.seekDelimeter
    {
      if m.seekDelimeter + 1 < |det| {
        ResumeOpen(m.State(), buf[i..], det);
        i := ScanRun(m, buf, det, i);
        if i == |buf| {
          if m.seekDelimeter + 1 >= |det| {
            ret := Deliver(m, ret, det, buf[i..]);
          }
        }
      } else {
        ret := Deliver(m, ret, det, buf[i..]);
      }
    }
    assert buf[i..] == [];
    ResumeNothing(m.State(), det);
    assert ret + [] == ret;
  }

  // ----------------------------------------------------- the recursive parser

  /** The call depth beyond which `process_read` gives up on a broken delimiter. */
  const MAX_DEPTH: nat := 30000

  datatype LimitedOutcome = LimitedOutcome(frame: Frame, msgs: seq<seq<Byte>>, stopped: bool)

  /** The automaton as `process_read` runs it, counting calls; stopped means the rest of the buffer is lost. */
  function RunLimited(st: Frame, buf: seq<Byte>, det: seq<Byte>, depth: nat): (r: LimitedOutcome)
    requires InRange(st, det) && det != []
    ensures r.frame.k < |det|
    decreases |buf|, st.k
  {
    if st.k == |det| then
      var r := RunLimited(EMPTY, buf, det, depth + 1);
      LimitedOutcome(r.frame, Emitted(st, det) + r.msgs, r.stopped)
    else if buf == [] then LimitedOutcome(st, [], false)
    else if buf[0] != det[st.k] && st.k > 0 && depth > MAX_DEPTH then LimitedOutcome(st, [], true)
    else
      var f := Feed(st, buf[0], det);
      RunLimited(f, buf[1..], det, if f.k > 0 then depth + 1 else depth)
  }

  lemma LimitedStep(st: Frame, buf: seq<Byte>, i: nat, det: seq<Byte>, depth: nat)
    requires st.k < |det| && i < |buf|
    ensures var gives := buf[i] != det[st.k] && st.k > 0 && depth > MAX_DEPTH; var f := Feed(st, buf[i], det);
      RunLimited(st, buf[i..], det, depth)
      == if gives then LimitedOutcome(st, [], true)
         else RunLimited(f, buf[i + 1..], det, if f.k > 0 then depth + 1 else depth)
  {
    assert buf[i..][1..] == buf[i + 1..];
  }

  lemma LimitedEnd(st: Frame, det: seq<Byte>, depth: nat)
    requires st.k < |det|
    ensures RunLimited(st, [], det, depth) == LimitedOutcome(st, [], false)
  {
  }

  lemma LimitedFull(st: Frame, buf: seq<Byte>, det: seq<Byte>, depth: nat)
    requires st.k == |det| && det != []
    ensures var r := RunLimited(EMPTY, buf, det, depth + 1);
      RunLimited(st, buf, det, depth) == LimitedOutcome(r.frame, Emitted(st, det) + r.msgs, r.stopped)
  {
  }

  /** A message that has begun is delivered, or only gets longer. */
  lemma {:induction false} MessageStays(st: Frame, buf: seq<Byte>, det: seq<Byte>)
    requires InRange(st, det) && det != [] && st.message != []
    ensures var r := Resume(st, buf, det); r.msgs != [] || |r.frame.message| >= |st.message|
    decreases |buf|
  {
    if st.k < |det| && buf != [] {
      MessageStays(Feed(st, buf[0], det), buf[1..], det);
    }
  }

  /** Giving up on a broken delimiter loses at least the bytes of the delimiter. */
  lemma StopLoses(st: Frame, buf: seq<Byte>, det: seq<Byte>)
    requires 0 < st.k < |det| && buf != [] && buf[0] != det[st.k]
    ensures Run(st, buf, det) != Outcome(st, [])
  {
    hide Resume;
    MessageStays(Feed(st, buf[0], det), buf[1..], det);
  }

  /** The recursive parser is the automaton exactly if it does not give up. */
  lemma {:induction false} LimitedIsRun(st: Frame, buf: seq<Byte>, det: seq<Byte>, depth: nat)
    requires InRange(st, det) && det != []
    ensures var r := RunLimited(st, buf, det, depth);
      !r.stopped <==> Outcome(r.frame, r.msgs) == Resume(st, buf, det)
    decreases |buf|, st.k
  {
    hide RunLimited, Run, Resume, Emitted;
    if st.k == |det| {
      var l, r, e := RunLimited(EMPTY, buf, det, depth + 1), Run(EMPTY, buf, det), Emitted(st, det);
      LimitedIsRun(EMPTY, buf, det, depth + 1);
      ResumeOpen(EMPTY, buf, det);
      LimitedFull(st, buf, det, depth);
      ResumeFull(st, buf, det);
      SamePrefix(e, l.msgs, r.msgs);
    } else {
      ResumeOpen(st, buf, det);
      if buf == [] {
        LimitedEnd(st, det, depth);
        ResumeNothing(st, det);
      } else {
        assert buf[0..] == buf;
        LimitedStep(st, buf, 0, det, depth);
        var f := Feed(st, buf[0], det);
        assert buf == [buf[0]] + buf[1..];
        RunCons(st, buf[0], buf[1..], det);
        if buf[0] != det[st.k] && st.k > 0 && depth > MAX_DEPTH {
          StopLoses(st, buf, det);
        } else {
          LimitedIsRun(f, buf[1..], det, if f.k > 0 then depth + 1 else depth);
        }
      }
    }
  }

  lemma SamePrefix(e: seq<seq<Byte>>, a: seq<seq<Byte>>, b: seq<seq<Byte>>)
    ensures e + a == e + b <==> a == b
  {
    assert (e + a)[|e|..] == a && (e + b)[|e|..] == b;
  }

  lemma ResumeFull(st: Frame, buf: seq<Byte>, det: seq<Byte>)
    requires st.k == |det| && det != []
    ensures var r := Run(EMPTY, buf, det); Resume(st, buf, det) == Outcome(r.frame, Emitted(st, det) + r.msgs)
  {
  }

  /** A byte costs at most one level, and every delimiter completed one more. */
  function Levels(st: Frame, n: nat, det: seq<Byte>): nat
    requires det != []
  {
    n + (st.k + n) / |det|
  }

  lemma LevelsStep(st: Frame, f: Frame, n: nat, det: seq<Byte>)
    requires det != [] && n > 0 && f.k <= st.k + 1
    ensures (if f.k > 0 then 1 else 0) + Levels(f, n - 1, det) <= Levels(st, n, det)
  {
    var a, b, d := f.k + n - 1, st.k + n, |det|;
    DivideMonotone(a, b, d);
  }

  lemma LevelsFlush(st: Frame, n: nat, det: seq<Byte>)
    requires det != [] && st.k == |det|
    ensures 1 + Levels(EMPTY, n, det) == Levels(st, n, det)
  {
    var q, r := n / |det|, n % |det|;
    assert n == q * |det| + r;
    Distribute(q, 1, |det|);
    QuotientUnique(|det| + n, |det|, q + 1, r);
  }

  /** A parse that stays within the limit never gives up. */
  lemma {:induction false} ShortNeverStops(st: Frame, buf: seq<Byte>, det: seq<Byte>, depth: nat)
    requires InRange(st, det) && det != [] && depth + Levels(st, |buf|, det) <= MAX_DEPTH + 1
    ensures !RunLimited(st, buf, det, depth).stopped
    decreases |buf|, st.k
  {
    hide Levels;
    if st.k == |det| {
      LevelsFlush(st, |buf|, det);
      ShortNeverStops(EMPTY, buf, det, depth + 1);
    } else if buf != [] {
      AtLeastOne(st, |buf|, det);
      var f := Feed(st, buf[0], det);
      LevelsStep(st, f, |buf|, det);
      ShortNeverStops(f, buf[1..], det, if f.k > 0 then depth + 1 else depth);
    }
  }

  lemma AtLeastOne(st: Frame, n: nat, det: seq<Byte>)
    requires det != []
    ensures Levels(st, n, det) >= n
  {
    DivideMonotone(0, st.k + n, |det|);
  }

  /** A delimiter of one byte is never broken off. */
  lemma {:induction false} OneByteNeverStops(st: Frame, buf: seq<Byte>, det: seq<Byte>, depth: nat)
    requires InRange(st, det) && |det| == 1
    ensures !RunLimited(st, buf, det, depth).stopped
    decreases |buf|, st.k
  {
    if st.k == |det| {
      OneByteNeverStops(EMPTY, buf, det, depth + 1);
    } else if buf != [] {
      var f := Feed(st, buf[0], det);
      OneByteNeverStops(f, buf[1..], det, if f.k > 0 then depth + 1 else depth);
    }
  }

  /** Buffers up to this size are parsed alike, whatever the state and the delimiter. */
  const SAFE_SIZE: nat := 20000

  lemma SafeLevels(st: Frame, n: nat, det: seq<Byte>)
    requires st.k < |det| && |det| >= 2 && n <= SAFE_SIZE
    ensures 1 + Levels(st, n, det) <= MAX_DEPTH + 1
  {
    DivideBelow(st.k + n, |det|, 10001);
  }

  lemma ParsersAgree(st: Frame, buf: seq<Byte>, det: seq<Byte>)
    requires st.k < |det| && |buf| <= SAFE_SIZE
    ensures var r := RunLimited(st, buf, det, 1); !r.stopped && Outcome(r.frame, r.msgs) == Run(st, buf, det)
  {
    hide Levels, RunLimited, Run, Resume;
    if |det| == 1 {
      OneByteNeverStops(st, buf, det, 1);
    } else {
      SafeLevels(st, |buf|, det);
      ShortNeverStops(st, buf, det, 1);
    }
    LimitedIsRun(st, buf, det, 1);
    ResumeOpen(st, buf, det);
  }

  function Repeat(s: seq<Byte>, n: nat): seq<Byte> {
    if n == 0 then [] else s + Repeat(s, n - 1)
  }

  /** Each delimiter of two bytes takes three levels. */
  lemma {:induction false} PairsCost(x: Byte, y: Byte, n: nat, rest: seq<Byte>, depth: nat)
    requires x != y
    ensures RunLimited(EMPTY, Repeat([x, y], n) + rest, [x, y], depth) == RunLimited(EMPTY, rest, [x, y], depth + 3 * n)
    decreases n
  {
    var det := [x, y];
    if n == 0 {
      assert Repeat(det, 0) + rest == rest;
    } else {
      var tail := Repeat(det, n - 1) + rest;
      assert Repeat(det, n) + rest == [x, y] + tail;
      assert ([x, y] + tail)[1..] == [y] + tail && ([y] + tail)[1..] == tail;
      var f := Feed(EMPTY, x, det);
      assert f == Frame([], 1) && Feed(f, y, det) == Frame([], 2);
      assert RunLimited(EMPTY, [x, y] + tail, det, depth) == RunLimited(f, [y] + tail, det, depth + 1);
      assert RunLimited(f, [y] + tail, det, depth + 1) == RunLimited(Frame([], 2), tail, det, depth + 2);
      var r := RunLimited(EMPTY, tail, det, depth + 3);
      assert [] + r.msgs == r.msgs;
      PairsCost(x, y, n - 1, rest, depth + 3);
    }
  }

  /** One byte more can be too many: the bound is sharp. */
  lemma LongLoses(x: Byte, y: Byte, z: Byte)
    requires x != y && z != x && z != y
    ensures var st, buf, det := Frame([], 1), [y] + (Repeat([x, y], 9999) + [x, z]), [x, y];
      && |buf| == SAFE_SIZE + 1
      && RunLimited(st, buf, det, 1) == LimitedOutcome(Frame([], 1), [], true)
      && Run(st, buf, det) != Outcome(Frame([], 1), [])
  {
    var st, det := Frame([], 1), [x, y];
    var pairs := Repeat(det, 9999) + [x, z];
    var buf := [y] + pairs;
    RepeatLength(det, 9999);
    assert buf[1..] == pairs;
    assert Feed(st, y, det) == Frame([], 2);
    assert RunLimited(st, buf, det, 1) == RunLimited(Frame([], 2), pairs, det, 2);
    LimitedFull(Frame([], 2), pairs, det, 2);
    PairsCost(x, y, 9999, [x, z], 3);
    assert [x, z][1..] == [z];
    assert RunLimited(EMPTY, [x, z], det, 30000) == RunLimited(st, [z], det, 30001);
    var r := RunLimited(EMPTY, [x, z], det, 30000);
    assert [] + r.msgs == r.msgs;
    LimitedIsRun(st, buf, det, 1);
    ResumeOpen(st, buf, det);
  }

  lemma {:induction false} RepeatLength(s: seq<Byte>, n: nat)
    ensures |Repeat(s, n)| == n * |s|
  {
    if n > 0 {
      RepeatLength(s, n - 1);
      Distribute(n, 1, |s|);
    }
  }

  /** `process_read`: the lambda `f_read`, called at byte i with the call count so far. */
  method ReadFrom(m: MessageHelper, buf: seq<Byte>, det: seq<Byte>, start: nat, calls: nat, ret0: seq<seq<Byte>>)
    returns (ret: seq<seq<Byte>>, ghost stopped: bool)
    requires m.Valid(det) && det != [] && start <= |buf|
    modifies m
    ensures m.Valid(det) && m.seekDelimeter + 1 < |det|
    ensures var r := RunLimited(old(m.State()), buf[start..], det, calls + 1);
      m.State() == r.frame && ret == ret0 + r.msgs && stopped == r.stopped
    decreases |buf| - start, m.seekDelimeter
  {
    hide RunLimited, Emitted;
    var depth := calls + 1;
    ghost var goal := RunLimited(m.State(), buf[start..], det, depth);
    ret, stopped := ret0, false;
    if m.seekDelimeter + 1 < |det| {
      var i := start;
      var delChar := det[m.seekDelimeter + 1];
      while i < |buf|
        invariant start <= i <= |buf| && m.Valid(det) && m.seekDelimeter + 1 < |det|
        invariant i == start ==> m.seekDelimeter == old(m.seekDelimeter)
        invariant delChar == det[m.seekDelimeter + 1]
        invariant goal == RunLimited(m.State(), buf[i..], det, depth)
      {
        var ch := buf[i];
        LimitedStep(m.State(), buf, i, det, depth);
        if ch == delChar {
          m.Match(ch, det);
          ret, stopped := ReadFrom(m, buf, det, i + 1, depth, ret0);
          return;
        }
        if m.delMessage != [] && depth > MAX_DEPTH {
          stopped := true;
          assert ret0 + [] == ret0;
          return;
        }
        ghost var before := m.State();
        m.GiveBack(det);
        delChar := det[0];
        if ch == delChar {
          m.Match(ch, det);
          ret, stopped := ReadFrom(m, buf, det, i + 1, depth, ret0);
          return;
        }
        m.message := m.message + [ch];
        assert m.State() == Feed(before, ch, det);
        i := i + 1;
      }
      assert buf[i..] == [];
      LimitedEnd(m.State(), det, depth);
      assert ret0 + [] == ret0;
    } else {
      ghost var e, r := Emitted(m.State(), det), RunLimited(EMPTY, buf[start..], det, depth + 1);
      LimitedFull(m.State(), buf[start..], det, depth);
      var ret1 := AddMessage(m, ret0, det);
      ret, stopped := ReadFrom(m, buf, det, start, depth, ret1);
      assert (ret0 + e) + r.msgs == ret0 + (e + r.msgs);
    }
  }

  method ProcessRead(m: MessageHelper, buf: seq<Byte>, det: seq<Byte>) returns (ret: seq<seq<Byte>>)
    requires m.Valid(det) && m.seekDelimeter + 1 < |det|
    modifies m
    ensures m.Valid(det) && m.seekDelimeter + 1 < |det|
    ensures var r := RunLimited(old(m.State()), buf, det, 1); m.State() == r.frame && ret == r.msgs
  {
    assert buf[0..] == buf;
    ghost var stopped;
    ret, stopped := ReadFrom(m, buf, det, 0, 0, []);
  }
}
