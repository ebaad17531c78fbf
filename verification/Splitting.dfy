/**
 Delimiter framing on the client (the framing part of `tcp_client::read_bytes`),
 leftmost splitting as the common meaning of the parsers, and what framed
 payloads become on either side.
 */
module Splitting {
  import opened Sequences
  import opened Bytes
  import opened Framing

  // ------------------------------------------------------- leftmost splitting

  /** The delimiter occurs in s at position i. */
  predicate At(s: seq<Byte>, det: seq<Byte>, i: nat) {
    i + |det| <= |s| && s[i..i + |det|] == det
  }

  predicate Contains(s: seq<Byte>, det: seq<Byte>) {
    exists i :: 0 <= i <= |s| && At(s, det, i)
  }

  /** `std::string::find`: the first position from `from` on where the delimiter occurs, or -1. */
  function Find(s: seq<Byte>, det: seq<Byte>, from: nat): (f: int)
    ensures -1 <= f
    ensures f >= 0 ==> from <= f && At(s, det, f) && forall i :: from <= i < f ==> !At(s, det, i)
    ensures f == -1 ==> forall i :: from <= i ==> !At(s, det, i)
    decreases |s| - from
  {
    if from + |det| > |s| then -1
    else if At(s, det, from) then from
    else Find(s, det, from + 1)
  }

  /** The pieces before each leftmost delimiter, empty ones dropped, and the bytes after the last. */
  datatype Pieces = Pieces(msgs: seq<seq<Byte>>, rest: seq<Byte>)

  function Keep(piece: seq<Byte>): seq<seq<Byte>> {
    if piece == [] then [] else [piece]
  }

  function Split(s: seq<Byte>, det: seq<Byte>): Pieces
    requires det != []
    decreases |s|
  {
    var f := Find(s, det, 0);
    if f == -1 then Pieces([], s)
    else
      var r := Split(s[f + |det|..], det);
      Pieces(Keep(s[..f]) + r.msgs, r.rest)
  }

  lemma FindUnique(s: seq<Byte>, det: seq<Byte>, from: nat, f: nat)
    requires from <= f && At(s, det, f) && forall i :: from <= i < f ==> !At(s, det, i)
    ensures Find(s, det, from) == f
  {
  }

  lemma AtPrefix(s: seq<Byte>, t: seq<Byte>, det: seq<Byte>, i: nat)
    requires i + |det| <= |s|
    ensures At(s + t, det, i) <==> At(s, det, i)
  {
    assert (s + t)[i..i + |det|] == s[i..i + |det|];
  }

  lemma FindConcat(a: seq<Byte>, b: seq<Byte>, det: seq<Byte>)
    requires Find(a, det, 0) >= 0
    ensures Find(a + b, det, 0) == Find(a, det, 0) && Find(a, det, 0) + |det| <= |a|
  {
    hide Find;
    var f := Find(a, det, 0);
    FindFits(a, det);
    forall i | 0 <= i <= f
      ensures At(a + b, det, i) <==> At(a, det, i)
    {
      AtPrefix(a, b, det, i);
    }
    FindUnique(a + b, det, 0, f);
  }

  lemma FindFits(s: seq<Byte>, det: seq<Byte>)
    ensures Find(s, det, 0) >= 0 ==> Find(s, det, 0) + |det| <= |s|
  {
  }

  lemma SplitStep(s: seq<Byte>, det: seq<Byte>)
    requires det != []
    ensures Find(s, det, 0) == -1 ==> Split(s, det) == Pieces([], s)
    ensures var f := Find(s, det, 0); f >= 0 ==> f + |det| <= |s|
    ensures var f := Find(s, det, 0); f >= 0 ==>
      Split(s, det) == Pieces(Keep(s[..f]) + Split(s[f + |det|..], det).msgs, Split(s[f + |det|..], det).rest)
  {
    hide Keep, Find, At;
    FindFits(s, det);
  }

  /** Splitting a stream in pieces gives what splitting it whole gives. */
  lemma {:induction false} SplitConcat(a: seq<Byte>, b: seq<Byte>, det: seq<Byte>)
    requires det != []
    ensures var r := Split(a, det); var t := Split(r.rest + b, det);
      Split(a + b, det) == Pieces(r.msgs + t.msgs, t.rest)
    decreases |a|
  {
    hide Split, Find, Keep, At;
    var f := Find(a, det, 0);
    SplitStep(a, det);
    if f == -1 {
      var t := Split(a + b, det);
      assert [] + t.msgs == t.msgs;
    } else {
      FindConcat(a, b, det);
      SplitStep(a + b, det);
      var a1 := a[f + |det|..];
      assert (a + b)[f + |det|..] == a1 + b && (a + b)[..f] == a[..f];
      SplitConcat(a1, b, det);
      var r := Split(a1, det);
      var t := Split(r.rest + b, det);
      assert Keep(a[..f]) + (r.msgs + t.msgs) == (Keep(a[..f]) + r.msgs) + t.msgs;
    }
  }

  // --------------------------------------------------------------- the client

  /** The buffer `m` and resume offset `s` of `read_bytes`. */
  class ClientBuffer {
    var m: seq<Byte>
    var s: nat

    constructor ()
      ensures m == [] && s == 0
    {
      m, s := [], 0;
    }

    /** No delimiter starts before the resume offset, and none could once more bytes arrive. */
    ghost predicate Valid(det: seq<Byte>)
      reads this
    {
      (s == 0 || s + |det| <= |m|) && forall i :: 0 <= i < s ==> !At(m, det, i)
    }

    /** The lambda `check`; out is the piece it hands on, if any. */
    method Check(det: seq<Byte>) returns (found: bool, out: seq<seq<Byte>>)
      requires det != [] && Valid(det)
      modifies this
      ensures Valid(det)
      ensures found <==> Contains(old(m), det)
      ensures found ==> |m| < |old(m)|
      ensures !found ==> m == old(m)
      ensures var r := Split(m, det); Split(old(m), det) == Pieces(out + r.msgs, r.rest)
    {
      hide Split, Find, At;
      out := [];
      ghost var was := m;
      var f := Find(m, det, s);
      FindFromResume(m, det, s);
      SplitStep(m, det);
      if f != -1 {
        s := 0;
        assert At(was, det, f);
        if f == 0 {
          m := m[|det|..];
        } else if f + |det| == |m| {
          out := [m[..f]];
          m := [];
          assert was[f + |det|..] == [];
        } else {
          out := [m[..f]];
          m := m[f + |det|..];
        }
        return true, out;
      }
      ghost var r := Split(m, det);
      assert [] + r.msgs == r.msgs;
      if |m| > |det| {
        s := |m| - |det|;
      }
      return false, out;
    }

    /** `read_bytes`: appends what was read and delivers every whole piece. */
    method ReadBytes(chunk: seq<Byte>, det: seq<Byte>) returns (out: seq<seq<Byte>>)
      requires det != [] && Valid(det)
      modifies this
      ensures Valid(det) && Pieces(out, m) == Split(old(m) + chunk, det)
    {
      hide Split, Find;
      ghost var was := m;
      m := m + chunk;
      forall i | 0 <= i < s
        ensures !At(m, det, i)
      {
        AtPrefix(was, chunk, det, i);
      }
      out := [];
      var found := true;
      ghost var goal, r := Split(m, det), Split(m, det);
      assert [] + r.msgs == r.msgs;
      while found
        invariant Valid(det) && r == Split(m, det) && goal == Pieces(out + r.msgs, r.rest)
        invariant !found ==> !Contains(m, det)
        decreases |m|, found
      {
        ghost var out0 := out;
        var piece;
        found, piece := Check(det);
        out := out + piece;
        r := Split(m, det);
        assert out0 + (piece + r.msgs) == out + r.msgs;
      }
      NothingLeft(m, det);
      assert out + [] == out;
    }

    /** Any number of reads: what is delivered and what is kept are the leftmost splitting of the stream. */
    method ReadAll(chunks: seq<seq<Byte>>, det: seq<Byte>) returns (out: seq<seq<Byte>>)
      requires det != [] && Valid(det) && !Contains(m, det)
      modifies this
      ensures Valid(det) && Pieces(out, m) == Split(old(m) + Flat(chunks), det)
    {
      hide Split, Flat, Contains;
      ghost var start := m;
      out := [];
      FlatNone<Byte>();
      assert chunks[..0] == [] && start + [] == start;
      NothingLeft(m, det);
      var i := 0;
      while i < |chunks|
        invariant 0 <= i <= |chunks| && Valid(det)
        invariant Pieces(out, m) == Split(start + Flat(chunks[..i]), det)
      {
        SplitConcat(start + Flat(chunks[..i]), chunks[i], det);
        FlatSnoc(chunks, i);
        assert start + Flat(chunks[..i + 1]) == (start + Flat(chunks[..i])) + chunks[i];
        var piece := ReadBytes(chunks[i], det);
        out := out + piece;
        i := i + 1;
      }
      assert chunks[..i] == chunks;
    }
  }

  lemma NothingLeft(m: seq<Byte>, det: seq<Byte>)
    requires det != []
    ensures !Contains(m, det) ==> Split(m, det) == Pieces([], m)
  {
    FindFromResume(m, det, 0);
  }

  lemma FindFromResume(m: seq<Byte>, det: seq<Byte>, s: nat)
    requires forall i :: 0 <= i < s ==> !At(m, det, i)
    ensures Find(m, det, s) == Find(m, det, 0)
    ensures Find(m, det, 0) == -1 <==> !Contains(m, det)
  {
    var f := Find(m, det, s);
    if f == -1 {
      assert forall i :: 0 <= i ==> !At(m, det, i);
      var g := Find(m, det, 0);
    } else {
      FindUnique(m, det, 0, f);
    }
  }

  // ------------------------------------- when the server splits at the leftmost

  /** Every later occurrence of the delimiter's first byte starts a copy of its beginning that runs to its end. */
  predicate SelfAligned(det: seq<Byte>) {
    forall p :: 0 < p < |det| && det[p] == det[0] ==> det[p..] <= det
  }

  /** The last j bytes of u are the first j of the delimiter. */
  predicate Ends(u: seq<Byte>, det: seq<Byte>, j: nat) {
    j <= |u| && j <= |det| && u[|u| - j..] == det[..j]
  }

  /** The frame accounts for the bytes u read since the last message, and its k is the longest match there is. */
  ghost predicate Tracks(st: Frame, u: seq<Byte>, det: seq<Byte>) {
    && st.k < |det| && u == st.message + det[..st.k]
    && (forall j :: st.k < j <= |det| ==> !Ends(u, det, j))
    && !Contains(u, det)
  }

  lemma EndsShorter(u: seq<Byte>, ch: Byte, det: seq<Byte>, j: nat)
    requires 0 < j && Ends(u + [ch], det, j)
    ensures Ends(u, det, j - 1) && det[j - 1] == ch
  {
    var v := u + [ch];
    assert v[|v| - j..][..j - 1] == u[|u| - (j - 1)..];
    assert det[..j][..j - 1] == det[..j - 1];
    assert v[|v| - j..][j - 1] == ch;
  }

  /** Two matches of different lengths at one end overlap inside the delimiter. */
  lemma EndsOverlap(u: seq<Byte>, det: seq<Byte>, i: nat, k: nat)
    requires 0 < i < k <= |det| && Ends(u, det, i) && Ends(u, det, k)
    ensures det[k - i..k] == det[..i] && det[k - i] == det[0]
  {
    assert u[|u| - k..][k - i..] == u[|u| - i..];
    assert det[..k][k - i..] == det[k - i..k];
    assert det[..i][0] == det[0];
  }

  /** In a delimiter that aligns with itself, both matches go on with one byte. */
  lemma EndsRealign(u: seq<Byte>, det: seq<Byte>, i: nat, k: nat)
    requires SelfAligned(det) && 0 < i < k < |det| && Ends(u, det, i) && Ends(u, det, k)
    ensures det[i] == det[k]
  {
    EndsOverlap(u, det, i, k);
    assert det[k - i..][i] == det[k];
  }

  /** An occurrence in u with one more byte is one in u or ends at that byte. */
  lemma ContainsOneMore(u: seq<Byte>, ch: Byte, det: seq<Byte>)
    requires det != [] && !Contains(u, det) && !Ends(u + [ch], det, |det|)
    ensures !Contains(u + [ch], det)
  {
    var v := u + [ch];
    forall i | 0 <= i <= |v|
      ensures !At(v, det, i)
    {
      if i + |det| <= |u| {
        AtPrefix(u, [ch], det, i);
      } else if i + |det| == |v| {
        assert v[i..i + |det|] == v[|v| - |det|..] && det[..|det|] == det;
      }
    }
  }

  /** One byte keeps the account, for a delimiter that aligns with itself. */
  lemma FeedTracks(st: Frame, u: seq<Byte>, ch: Byte, det: seq<Byte>)
    requires SelfAligned(det) && Tracks(st, u, det)
    ensures var f := Feed(st, ch, det);
      u + [ch] == f.message + det[..f.k] && (f.k < |det| ==> Tracks(f, u + [ch], det))
  {
    var f := Feed(st, ch, det);
    var v, k := u + [ch], st.k;
    assert f.k > 0 ==> det[..f.k] == det[..f.k - 1] + [ch];
    assert det[..0] == [];
    assert u[|u| - k..] == det[..k];
    assert Ends(u, det, k);
    forall j | f.k < j <= |det|
      ensures !Ends(v, det, j)
    {
      if Ends(v, det, j) {
        EndsShorter(u, ch, det, j);
        if 1 < j <= k {
          EndsRealign(u, det, j - 1, k);
        }
      }
    }
    if f.k < |det| {
      ContainsOneMore(u, ch, det);
    }
  }

  /** From a tracked frame the automaton splits the bytes at the leftmost delimiters. */
  lemma {:induction false} RunIsSplit(st: Frame, u: seq<Byte>, buf: seq<Byte>, det: seq<Byte>)
    requires SelfAligned(det) && Tracks(st, u, det)
    ensures var r := Run(st, buf, det); Split(u + buf, det) == Pieces(r.msgs, r.frame.message + det[..r.frame.k])
    decreases |buf|
  {
    if buf == [] {
      assert u + buf == u;
      NothingLeft(u, det);
    } else {
      var ch, rest := buf[0], buf[1..];
      var f := Feed(st, ch, det);
      FeedTracks(st, u, ch, det);
      assert u + buf == (u + [ch]) + rest;
      if f.k < |det| {
        RunIsSplit(f, u + [ch], rest, det);
        ResumeOpen(f, rest, det);
      } else {
        assert det[..f.k] == det;
        assert u + buf == f.message + det + rest;
        FirstDelimiter(f.message, det, rest, u, ch);
        assert Tracks(EMPTY, [], det);
        RunIsSplit(EMPTY, [], rest, det);
        assert [] + rest == rest;
      }
    }
  }

  lemma FirstDelimiter(msg: seq<Byte>, det: seq<Byte>, rest: seq<Byte>, u: seq<Byte>, ch: Byte)
    requires det != [] && u + [ch] == msg + det && !Contains(u, det)
    ensures var r := Split(rest, det); Split(msg + det + rest, det) == Pieces(Keep(msg) + r.msgs, r.rest)
  {
    var s := msg + det + rest;
    assert s == u + ([ch] + rest);
    forall i | 0 <= i < |msg|
      ensures !At(s, det, i)
    {
      AtPrefix(u, [ch] + rest, det, i);
    }
    assert s[|msg|..|msg| + |det|] == det;
    FindUnique(s, det, 0, |msg|);
    assert s[..|msg|] == msg && s[|msg| + |det|..] == rest;
  }

  lemma EmptyTracks(det: seq<Byte>)
    requires det != []
    ensures Tracks(EMPTY, [], det)
  {
  }

  /** A frame too far from a whole delimiter yields no message. */
  lemma {:induction false} TooShort(st: Frame, buf: seq<Byte>, det: seq<Byte>)
    requires st.k + |buf| < |det|
    ensures Run(st, buf, det).msgs == []
    decreases |buf|
  {
    if buf != [] {
      var f := Feed(st, buf[0], det);
      TooShort(f, buf[1..], det);
      ResumeOpen(f, buf[1..], det);
    }
  }

  /** The beginning of a delimiter advances the frame through it. */
  lemma {:induction false} RunPrefix(k: nat, n: nat, det: seq<Byte>)
    requires k + n < |det|
    ensures Run(Frame([], k), det[k..k + n], det) == Outcome(Frame([], k + n), [])
    decreases n
  {
    if n > 0 {
      assert det[k..k + n][1..] == det[k + 1..k + n];
      RunPrefix(k + 1, n - 1, det);
      ResumeOpen(Frame([], k + 1), det[k + 1..k + n], det);
    }
  }

  lemma PrefixTail(a: seq<Byte>, b: seq<Byte>)
    requires 0 < |a| <= |b| && a[0] == b[0]
    ensures a[1..] <= b[1..] ==> a <= b
  {
    assert a == [a[0]] + a[1..] && b == [b[0]] + b[1..];
  }

  /** The position of the first difference of a string from a longer one it does not begin. */
  function FirstDifference(a: seq<Byte>, b: seq<Byte>): (j: nat)
    requires |a| <= |b| && !(a <= b)
    ensures j < |a| && a[j] != b[j] && a[..j] == b[..j]
  {
    if a[0] != b[0] then 0
    else
      PrefixTail(a, b);
      var j := 1 + FirstDifference(a[1..], b[1..]);
      assert a[..j] == [a[0]] + a[1..][..j - 1] && b[..j] == [b[0]] + b[1..][..j - 1];
      j
  }

  /** The server misses the delimiter in this stream when its first byte recurs at p out of alignment. */
  lemma {:induction false} Misaligned(det: seq<Byte>, p: nat)
    requires 0 < p < |det| && det[p] == det[0] && !(det[p..] <= det)
    ensures Run(EMPTY, det[..p] + det, det).msgs == []
    ensures Split(det[..p] + det, det).msgs != []
  {
    hide Run, Resume, Split, Find;
    var j := FirstDifference(det[p..], det);
    var k := p + j;
    var rest := det[j..];
    Regroup(det, p, j);
    BrokenOff(det, k, rest);
    SplitFinds(det[..p] + det, det, p, k);
  }

  lemma Regroup(det: seq<Byte>, p: nat, j: nat)
    requires p + j <= |det| && det[p..][..j] == det[..j]
    ensures det[..p] + det == det[..p + j] + det[j..]
  {
    assert det[..p + j] == det[..p] + det[p..][..j];
    assert det == det[..j] + det[j..];
  }

  /** A delimiter broken off at k by another byte is not completed by the few bytes after it. */
  lemma BrokenOff(det: seq<Byte>, k: nat, rest: seq<Byte>)
    requires k < |det| && 0 < |rest| < |det| && rest[0] != det[k]
    ensures Run(EMPTY, det[..k] + rest, det).msgs == []
  {
    hide Run, Resume;
    RunPrefix(0, k, det);
    assert det[0..0 + k] == det[..k];
    RunConcat(EMPTY, det[..k], rest, det);
    var f := Feed(Frame([], k), rest[0], det);
    assert rest == [rest[0]] + rest[1..];
    RunCons(Frame([], k), rest[0], rest[1..], det);
    ResumeOpen(f, rest[1..], det);
    TooShort(f, rest[1..], det);
  }

  /** Leftmost splitting yields a piece from a string that holds the delimiter but does not begin with it. */
  lemma SplitFinds(w: seq<Byte>, det: seq<Byte>, p: nat, k: nat)
    requires p + |det| == |w| && w[p..] == det && k < |det| && w[k] != det[k]
    ensures Split(w, det).msgs != []
  {
    assert w[p..p + |det|] == det;
    assert At(w, det, p);
    assert w[0..0 + |det|][k] == w[k];
    assert !At(w, det, 0);
  }

  /** The server's parser splits every stream at the leftmost delimiters exactly when the delimiter aligns with itself. */
  lemma {:induction false} ServerSplitsLeftmost(det: seq<Byte>)
    requires det != []
    ensures SelfAligned(det) <==> forall s: seq<Byte> :: Run(EMPTY, s, det).msgs == Split(s, det).msgs
  {
    hide Run, Split, SelfAligned;
    if SelfAligned(det) {
      forall s: seq<Byte>
        ensures Run(EMPTY, s, det).msgs == Split(s, det).msgs
      {
        AlignedSplits(s, det);
      }
    } else {
      var p := Unaligned(det);
      Misaligned(det, p);
    }
  }

  lemma AlignedSplits(s: seq<Byte>, det: seq<Byte>)
    requires det != [] && SelfAligned(det)
    ensures Run(EMPTY, s, det).msgs == Split(s, det).msgs
  {
    hide Run, Split, SelfAligned;
    EmptyTracks(det);
    RunIsSplit(EMPTY, [], s, det);
    assert [] + s == s;
  }

  lemma Unaligned(det: seq<Byte>) returns (p: nat)
    requires !SelfAligned(det)
    ensures 0 < p < |det| && det[p] == det[0] && !(det[p..] <= det)
  {
    p :| 0 < p < |det| && det[p] == det[0] && !(det[p..] <= det);
  }

  // ---------------------------------------------------------- framed payloads

  /** What both senders put on the wire: each payload between two delimiters. */
  function Stream(payloads: seq<seq<Byte>>, det: seq<Byte>): seq<Byte> {
    if payloads == [] then [] else det + payloads[0] + det + Stream(payloads[1..], det)
  }

  function NonEmpty(payloads: seq<seq<Byte>>): seq<seq<Byte>> {
    if payloads == [] then [] else Keep(payloads[0]) + NonEmpty(payloads[1..])
  }

  predicate Clean(payloads: seq<seq<Byte>>, det: seq<Byte>) {
    forall i :: 0 <= i < |payloads| ==> !Contains(payloads[i], det)
  }

  /** No proper end of the delimiter is also its beginning. */
  predicate Unbordered(det: seq<Byte>) {
    forall q :: 0 < q < |det| ==> det[q..] != det[..|det| - q]
  }

  predicate FirstByteUnique(det: seq<Byte>) {
    forall p :: 0 < p < |det| ==> det[p] != det[0]
  }

  lemma FirstByteUniqueMeans(det: seq<Byte>)
    ensures FirstByteUnique(det) ==> SelfAligned(det) && Unbordered(det)
  {
    if FirstByteUnique(det) {
      forall q | 0 < q < |det|
        ensures det[q..] != det[..|det| - q]
      {
        assert det[q..][0] == det[q] && det[..|det| - q][0] == det[0];
      }
    }
  }

  /** A delimiter found across the seam of payload and delimiter is a border of the delimiter. */
  lemma Straddle(pl: seq<Byte>, det: seq<Byte>, i: nat)
    requires i < |pl| < i + |det| && At(pl + det, det, i)
    ensures var q := |pl| - i; det[q..] == det[..|det| - q]
  {
    var q := |pl| - i;
    assert (pl + det)[i..i + |det|][q..] == det[..|det| - q];
  }

  /** After a payload without the delimiter, an unbordered delimiter first occurs where it was put. */
  lemma PayloadFound(pl: seq<Byte>, det: seq<Byte>)
    requires det != [] && Unbordered(det) && !Contains(pl, det)
    ensures Split(pl + det, det) == Pieces(Keep(pl), [])
  {
    var s := pl + det;
    forall i | 0 <= i < |pl|
      ensures !At(s, det, i)
    {
      if i + |det| <= |pl| {
        AtPrefix(pl, det, det, i);
      } else if At(s, det, i) {
        Straddle(pl, det, i);
      }
    }
    assert s[|pl|..|pl| + |det|] == det;
    FindUnique(s, det, 0, |pl|);
    assert s[..|pl|] == pl && s[|pl| + |det|..] == [];
    assert Find([], det, 0) == -1;
    assert Keep(pl) + [] == Keep(pl);
  }

  /** Splitting a stream of framed payloads gives the payloads, for an unbordered delimiter. */
  lemma {:induction false} StreamSplits(payloads: seq<seq<Byte>>, det: seq<Byte>)
    requires det != [] && Unbordered(det) && Clean(payloads, det)
    ensures Split(Stream(payloads, det), det) == Pieces(NonEmpty(payloads), [])
    decreases |payloads|
  {
    hide Split, Find, Contains, Unbordered;
    NoDelimiterInEmpty(det);
    NothingLeft([], det);
    if payloads != [] {
      var pl, rest := payloads[0], Stream(payloads[1..], det);
      StreamSplits(payloads[1..], det);
      PayloadFound(pl, det);
      LeadingDelimiter(det, pl + det + rest);
      SplitConcat(pl + det, rest, det);
      assert [] + rest == rest;
      assert det + pl + det + rest == det + (pl + det + rest);
    }
  }

  lemma NoDelimiterInEmpty(det: seq<Byte>)
    requires det != []
    ensures !Contains([], det)
  {
  }

  lemma {:induction false} OnePayload(x: seq<Byte>, det: seq<Byte>)
    requires det != []
    ensures Stream([x], det) == det + (x + det)
    ensures |x| < |det| ==> Clean([x], det)
    ensures x != [] ==> NonEmpty([x]) != []
  {
    assert [x][1..] == [];
    assert det + x + det + [] == det + (x + det);
  }

  /** A border put before the delimiter makes it occur at the start. */
  lemma BorderTwice(det: seq<Byte>, q: nat)
    requires 0 < q < |det| && det[q..] == det[..|det| - q]
    ensures det[..q] + det == det + det[|det| - q..]
  {
    assert det == det[..q] + det[q..];
    assert det == det[..|det| - q] + det[|det| - q..];
  }

  /** A payload that is the beginning of a delimiter before its first byte recurs is lost by the server. */
  lemma PayloadLostByServer(det: seq<Byte>, p: nat)
    requires 0 < p < |det| && det[p] == det[0]
    ensures Clean([det[..p]], det) && Run(EMPTY, Stream([det[..p]], det), det).msgs == [] && NonEmpty([det[..p]]) != []
  {
    var x := det[..p];
    var w := x + det;
    hide Run, Resume, Split, Find;
    OnePayload(x, det);
    WholeDelimiter(det, w);
    if det[p..] <= det {
      assert det[p..] == det[..|det| - p];
      BorderTwice(det, p);
      WholeDelimiter(det, det[|det| - p..]);
      TooShort(EMPTY, det[|det| - p..], det);
    } else {
      Misaligned(det, p);
    }
  }

  lemma WholeDelimiter(det: seq<Byte>, rest: seq<Byte>)
    requires det != []
    ensures Run(EMPTY, det + rest, det) == Run(EMPTY, rest, det)
  {
    var n := |det| - 1;
    RunPrefix(0, n, det);
    assert det[0..0 + n] == det[..n];
    assert det + rest == det[..n] + ([det[n]] + rest);
    RunConcat(EMPTY, det[..n], [det[n]] + rest, det);
    RunCons(Frame([], n), det[n], rest, det);
    var r := Run(EMPTY, rest, det);
    assert [] + r.msgs == r.msgs;
  }

  /** A payload that is a border of the delimiter is lost by leftmost splitting. */
  lemma PayloadLostBySplit(det: seq<Byte>, q: nat)
    requires 0 < q < |det| && det[q..] == det[..|det| - q]
    ensures Clean([det[..q]], det) && Split(Stream([det[..q]], det), det).msgs == [] && NonEmpty([det[..q]]) != []
  {
    var x := det[..q];
    var tail := det[|det| - q..];
    hide Split, Find;
    OnePayload(x, det);
    BorderTwice(det, q);
    LeadingDelimiter(det, x + det);
    LeadingDelimiter(det, tail);
    NothingLeft(tail, det);
  }

  lemma LeadingDelimiter(det: seq<Byte>, rest: seq<Byte>)
    requires det != []
    ensures Split(det + rest, det) == Split(rest, det)
  {
    var s := det + rest;
    assert s[0..0 + |det|] == det && s[..0] == [] && s[|det|..] == rest;
    FindUnique(s, det, 0, 0);
    var r := Split(rest, det);
    assert [] + r.msgs == r.msgs;
  }

  /** The server delivers all framed payloads that do not hold the delimiter exactly when its first byte does not recur. */
  lemma {:induction false} ServerDelivers(det: seq<Byte>)
    requires det != []
    ensures FirstByteUnique(det) <==>
      forall payloads :: Clean(payloads, det) ==> Run(EMPTY, Stream(payloads, det), det).msgs == NonEmpty(payloads)
  {
    if FirstByteUnique(det) {
      FirstByteUniqueMeans(det);
      forall payloads | Clean(payloads, det)
        ensures Run(EMPTY, Stream(payloads, det), det).msgs == NonEmpty(payloads)
      {
        ServerSplitsLeftmost(det);
        StreamSplits(payloads, det);
      }
    } else {
      var p :| 0 < p < |det| && det[p] == det[0];
      PayloadLostByServer(det, p);
    }
  }

  /** The client delivers all of them exactly when the delimiter has no border. */
  lemma {:induction false} ClientDelivers(det: seq<Byte>)
    requires det != []
    ensures Unbordered(det) <==>
      forall payloads :: Clean(payloads, det) ==> Split(Stream(payloads, det), det).msgs == NonEmpty(payloads)
  {
    if Unbordered(det) {
      forall payloads | Clean(payloads, det)
        ensures Split(Stream(payloads, det), det).msgs == NonEmpty(payloads)
      {
        StreamSplits(payloads, det);
      }
    } else {
      var q :| 0 < q < |det| && det[q..] == det[..|det| - q];
      PayloadLostBySplit(det, q);
    }
  }
}
