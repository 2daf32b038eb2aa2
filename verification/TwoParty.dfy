/** A sender and a peer on one link: nothing is lost, reordered or overflowed, and the peer receives the message. */
module TwoParty {
  import opened Types
  import opened Framing
  import opened Decoder
  import opened RoundTrip
  import opened Hosts
  import opened Transport
  import opened Messages
  import opened HandshakePeer
  import opened Link

  // ---- conservation ----

  /** What the peer has read, NULLs aside, followed by what is still in the FIFO. */
  function Passed(p: Peer): seq<byte> {
    Strip(p.seen) + p.queue
  }

  lemma {:induction false} ReadConserves(p: Peer, n: nat)
    requires FLAG_NULL !in p.queue
    ensures Passed(ReadMany(p, n)) == Passed(p) && FLAG_NULL !in ReadMany(p, n).queue
    decreases n
  {
    if n > 0 {
      ReadConserves(p, n - 1);
      ReadOnce(ReadMany(p, n - 1));
    }
  }

  lemma {:induction false} ReadOnce(q: Peer)
    requires FLAG_NULL !in q.queue
    ensures Passed(Read(q)) == Passed(q) && FLAG_NULL !in Read(q).queue
  {
    if q.queue == [] {
      StripSnoc(q.seen, FLAG_NULL);
    } else {
      StripSnoc(q.seen, q.queue[0]);
      assert q.queue == [q.queue[0]] + q.queue[1..];
    }
  }

  lemma {:induction false} PutConserves(p: Peer, bytes: seq<byte>, gaps: seq<nat>)
    requires FLAG_NULL !in p.queue && FLAG_NULL !in bytes
    ensures Passed(PutAll(p, bytes, gaps)) == Passed(p) + bytes && FLAG_NULL !in PutAll(p, bytes, gaps).queue
  {
    if bytes != [] {
      var n := |bytes| - 1;
      PutConserves(p, bytes[..n], gaps);
      var q := PutAll(p, bytes[..n], gaps);
      ReadConserves(q, GapAt(gaps, n));
      var r := ReadMany(q, GapAt(gaps, n));
      assert Strip(r.seen) + (r.queue + [bytes[n]]) == Passed(r) + [bytes[n]];
      assert bytes == bytes[..n] + [bytes[n]];
    } else {
      assert Passed(p) + [] == Passed(p);
    }
  }

  lemma {:induction false} StepConserves(q: Peer, t: Timed)
    requires FLAG_NULL !in q.queue && FLAG_NULL !in EnteredBy(t)
    ensures Passed(PlayStep(q, t)) == Passed(q) + EnteredBy(t)
    ensures FLAG_NULL !in PlayStep(q, t).queue
  {
    ReadConserves(q, t.moment.before);
    PutConserves(ReadMany(q, t.moment.before), EnteredBy(t), GapsOf(t));
  }

  /**
   * Whatever the schedule: bytes read (NULLs aside) and bytes in the FIFO are together the bytes that entered, in
   * order.
   */
  lemma {:induction false} Conservation(p: Peer, run: seq<Timed>)
    requires FLAG_NULL !in p.queue && FLAG_NULL !in Entered(run)
    ensures Passed(Play(p, run)) == Passed(p) + Entered(run)
    ensures FLAG_NULL !in Play(p, run).queue
  {
    if run == [] {
      assert Passed(p) + [] == Passed(p);
    } else {
      var n := |run| - 1;
      Conservation(p, run[..n]);
      StepConserves(Play(p, run[..n]), run[n]);
    }
  }

  lemma {:induction false} EnteredPrefix(run: seq<Timed>, i: nat)
    requires i <= |run|
    ensures Entered(run[..i]) <= Entered(run)
  {
    assert run == run[..i] + run[i..];
    EnteredConcat(run[..i], run[i..]);
  }

  const IDLE_PEER := Peer([], [])

  /** One transmission laid against a schedule of peer reads, starting from an empty link. */
  ghost predicate Transmission(w: World, m: seq<byte>, block: bool, run: seq<Timed>, depth: nat) {
    var w1 := Transmit(w, true, m, block).1;
    && |Frame(m)| < INDEX_RANGE
    && w.log.steps <= w1.log.steps
    && Times(run, NewSteps(w.log, w1.log))
    && HonestRun(IDLE_PEER, run, depth)
    && PlausibleRun(run)
  }

  /** The whole transmission: what enters is a prefix of the frame, all of it on success. */
  lemma {:induction false} TransmissionEnters(w: World, m: seq<byte>, block: bool, run: seq<Timed>, depth: nat)
    requires Transmission(w, m, block, run, depth)
    ensures Entered(run) <= Frame(m)
    ensures Transmit(w, true, m, block).0 == Success ==> Entered(run) == Frame(m)
    ensures Disciplined(NewSteps(w.log, Transmit(w, true, m, block).1.log), 0)
  {
    PreparedIsFrame(m);
    SendBlockDisciplined(w, Frame(m), block);
    DisciplinedSuffix(w.log.steps, Transmit(w, true, m, block).1.log.steps);
    SendBlockEnters(w, Frame(m), block, run);
  }

  /**
   * The link at any moment of a run: the accesses before `i` are over, and of access `i`, if there is one, the reads
   * before it have happened and `n` of its words have entered, after which the peer has read `r` more times.
   */
  function Midway(p: Peer, run: seq<Timed>, i: nat, n: nat, r: nat): Peer
    requires i <= |run| && (i < |run| ==> n <= |EnteredBy(run[i])|)
  {
    if i == |run| then ReadMany(Play(p, run), r)
    else
      ReadMany(PutAll(ReadMany(Play(p, run[..i]), run[i].moment.before), EnteredBy(run[i])[..n], GapsOf(run[i])), r)
  }

  /** The bytes that have entered by then. */
  function EnteredMidway(run: seq<Timed>, i: nat, n: nat): seq<byte>
    requires i <= |run| && (i < |run| ==> n <= |EnteredBy(run[i])|)
  {
    Entered(run[..i]) + if i < |run| then EnteredBy(run[i])[..n] else []
  }

  lemma {:induction false} EnteredMidwayPrefix(run: seq<Timed>, i: nat, n: nat)
    requires i <= |run| && (i < |run| ==> n <= |EnteredBy(run[i])|)
    ensures EnteredMidway(run, i, n) <= Entered(run)
  {
    if i < |run| {
      EnteredPrefix(run, i + 1);
      assert run[..i + 1][..i] == run[..i];
      assert Entered(run[..i + 1]) == Entered(run[..i]) + EnteredBy(run[i]);
    } else {
      assert run[..i] == run;
    }
  }

  /** At every moment, also inside a write, what was read and what is queued is what has entered. */
  lemma {:induction false} MidwayConserves(run: seq<Timed>, i: nat, n: nat, r: nat)
    requires i <= |run| && (i < |run| ==> n <= |EnteredBy(run[i])|)
    requires FLAG_NULL !in EnteredMidway(run, i, n)
    ensures var p := Midway(IDLE_PEER, run, i, n, r); Passed(p) == EnteredMidway(run, i, n) && FLAG_NULL !in p.queue
  {
    var got := Entered(run[..i]);
    Conservation(IDLE_PEER, run[..i]);
    var p := Play(IDLE_PEER, run[..i]);
    assert Passed(p) == got by { assert Passed(IDLE_PEER) + got == got; }
    if i < |run| {
      var bytes := EnteredBy(run[i])[..n];
      ReadConserves(p, run[i].moment.before);
      var q := ReadMany(p, run[i].moment.before);
      PutConserves(q, bytes, GapsOf(run[i]));
      ReadConserves(PutAll(q, bytes, GapsOf(run[i])), r);
    } else {
      assert run[..i] == run;
      ReadConserves(p, r);
    }
  }

  /** Nor does the FIFO overflow inside a write. */
  lemma {:induction false} MidwayFits(run: seq<Timed>, steps: seq<Step>, depth: nat, i: nat, n: nat, r: nat)
    requires Times(run, steps) && HonestRun(IDLE_PEER, run, depth) && Disciplined(steps, 0)
    requires i <= |run| && (i < |run| ==> n <= |EnteredBy(run[i])|)
    ensures |Midway(IDLE_PEER, run, i, n, r).queue| <= depth
  {
    NoOverflow(IDLE_PEER, run, steps, depth, i);
    if i < |run| {
      var p, t := Play(IDLE_PEER, run[..i]), run[i];
      assert Honest(p, t, depth);
      if WritesDR(steps[i].call) { SpaceBefore(IDLE_PEER, run, steps, i, depth); }
      WriteFits(p, t, depth, n);
      ReadsShrink(PutAll(ReadMany(p, t.moment.before), EnteredBy(t)[..n], GapsOf(t)), r);
    } else {
      assert run[..i] == run;
      ReadsShrink(Play(IDLE_PEER, run), r);
    }
  }

  lemma {:induction false} WriteFits(p: Peer, t: Timed, depth: nat, n: nat)
    requires |p.queue| <= depth && Honest(p, t, depth) && n <= |EnteredBy(t)|
    requires WritesDR(t.step.call) ==> |t.step.call.words| == 1 && |p.queue| < depth
    ensures |PutAll(ReadMany(p, t.moment.before), EnteredBy(t)[..n], GapsOf(t)).queue| <= depth
  {
    if n == |EnteredBy(t)| {
      assert EnteredBy(t)[..n] == EnteredBy(t);
      OccupancyStep(p, t, depth);
    } else {
      var q := ReadMany(p, t.moment.before);
      ReadsShrink(p, t.moment.before);
      RoomyPrefix(q, EnteredBy(t), GapsOf(t), depth, n);
    }
  }

  lemma {:induction false} RoomyPrefix(q: Peer, bytes: seq<byte>, gaps: seq<nat>, depth: nat, n: nat)
    requires |q.queue| <= depth && n <= |bytes| && (n > 0 ==> Roomy(q, bytes, gaps, depth))
    ensures |PutAll(q, bytes[..n], gaps).queue| <= depth
  {
    if n > 0 {
      assert bytes[..n][..n - 1] == bytes[..n - 1];
      assert |ReadMany(PutAll(q, bytes[..n - 1], gaps), GapAt(gaps, n - 1)).queue| < depth;
    }
  }

  /**
   * Polled or blocking, under every schedule and at every moment, between the words of a blocking write too: the FIFO
   * never holds more than its depth, and what the peer has read together with what is in the FIFO is exactly what has
   * entered, a prefix of the frame; when the transmission is over and has succeeded it is the whole frame.
   */
  lemma {:induction false} PrefixExact(w: World, m: seq<byte>, block: bool, run: seq<Timed>, depth: nat,
                                       i: nat, n: nat, r: nat)
    requires Transmission(w, m, block, run, depth)
    requires i <= |run| && (i < |run| ==> n <= |EnteredBy(run[i])|)
    ensures var p := Midway(IDLE_PEER, run, i, n, r);
            && |p.queue| <= depth && FLAG_NULL !in p.queue
            && Passed(p) == EnteredMidway(run, i, n) <= Frame(m)
            && (i == |run| && Transmit(w, true, m, block).0 == Success ==> Passed(p) == Frame(m))
  {
    var steps := NewSteps(w.log, Transmit(w, true, m, block).1.log);
    TransmissionEnters(w, m, block, run, depth);
    MidwayFits(run, steps, depth, i, n, r);
    EnteredMidwayPrefix(run, i, n);
    FrameHasNoNull(m);
    var got := EnteredMidway(run, i, n);
    assert forall k :: 0 <= k < |got| ==> got[k] == Entered(run)[k] == Frame(m)[k];
    MidwayConserves(run, i, n, r);
    if i == |run| { assert run[..i] == run; }
  }

  // ---- what the peer makes of it ----

  /** When an END has come through, the stream up to it is the whole frame. */
  lemma {:induction false} StripEnds(s: seq<byte>, f: seq<byte>) returns (e: nat)
    requires Strip(s) <= f && f != [] && f[|f| - 1] == FLAG_END && FLAG_END !in f[..|f| - 1] && FLAG_END in s
    ensures e < |s| && s[e] == FLAG_END && Strip(s[..e + 1]) == f
  {
    e := FirstEnd(s);
    StripPrefix(s, e + 1);
    assert s[..e + 1] == s[..e] + [FLAG_END];
    StripSnoc(s[..e], FLAG_END);
    var k := |Strip(s[..e])|;
    assert f[k] == FLAG_END;
    assert forall j :: 0 <= j < |f| - 1 ==> f[..|f| - 1][j] == f[j];
  }

  lemma {:induction false} FirstEnd(s: seq<byte>) returns (e: nat)
    requires FLAG_END in s
    ensures e < |s| && s[e] == FLAG_END
    decreases |s|
  {
    if s[0] == FLAG_END {
      e := 0;
    } else {
      assert s == [s[0]] + s[1..];
      e := FirstEnd(s[1..]);
      e := e + 1;
    }
  }

  /**
   * A receiver fed any part of a frame, NULLs in between: as long as no more than 10000 NULLs come first, it is
   * either still waiting or has succeeded with exactly the message; it has succeeded as soon as the END has come
   * through.
   */
  lemma {:induction false} ReceiverNeverWrong(seen: seq<byte>, m: seq<byte>, len: nat, buf: seq<byte>, actual: nat)
    requires 0 < |m| <= len <= |buf| && len < INDEX_RANGE
    requires Strip(seen) <= Frame(m) && LeadingNulls(seen, FLAG_START) <= MAX_PRE_NULL_FLAGS
    ensures var d := Decode(seen, FLAG_START, len, Fresh(buf, actual));
            && (d.code.Some? <==> Strip(seen) == Frame(m))
            && (d.code.Some? ==> d.code == Some(Success) && d.st.actual == |m| && d.st.buf[..|m|] == m)
  {
    FrameShape(FLAG_START, m);
    if FLAG_END in seen {
      ArrivedWhole(seen, m, len, buf, actual);
    } else {
      StripMembers(seen, FLAG_END);
      assert Frame(m)[|Frame(m)| - 1] == FLAG_END;
      WaitingOnPart(seen, m, len, buf, actual);
    }
  }

  lemma {:induction false} ArrivedWhole(seen: seq<byte>, m: seq<byte>, len: nat, buf: seq<byte>, actual: nat)
    requires 0 < |m| <= len <= |buf| && len < INDEX_RANGE
    requires Strip(seen) <= Frame(m) && FLAG_END in seen
    requires LeadingNulls(seen, FLAG_START) <= MAX_PRE_NULL_FLAGS
    ensures Strip(seen) == Frame(m)
    ensures var d := Decode(seen, FLAG_START, len, Fresh(buf, actual));
            d.code == Some(Success) && d.st.actual == |m| && d.st.buf[..|m|] == m
  {
    var f := Frame(m);
    FrameShape(FLAG_START, m);
    assert FLAG_END !in f[..|f| - 1];
    var e := StripEnds(seen, f);
    assert seen == seen[..e + 1] + seen[e + 1..];
    StripPrefix(seen, e + 1);
    FirstFrameDecodes(seen[..e + 1], seen[e + 1..], m, len, buf, actual);
  }

  lemma {:induction false} FirstFrameDecodes(z: seq<byte>, tail: seq<byte>, m: seq<byte>, len: nat,
                                             buf: seq<byte>, actual: nat)
    requires 0 < |m| <= len <= |buf| && len < INDEX_RANGE
    requires Strip(z) == Frame(m) && z[|z| - 1] == FLAG_END
    requires LeadingNulls(z + tail, FLAG_START) <= MAX_PRE_NULL_FLAGS
    ensures var d := Decode(z + tail, FLAG_START, len, Fresh(buf, actual));
            d.code == Some(Success) && d.st.actual == |m| && d.st.buf[..|m|] == m
  {
    NullsMonotone(z, tail, FLAG_START);
    DecodeNoisyFrame(z, tail, FLAG_START, m, len, buf, actual);
  }

  lemma {:induction false} PrefixWithout(a: seq<byte>, b: seq<byte>, x: byte)
    requires a <= b + [x] && x !in a
    ensures a <= b
  {
    assert (b + [x])[|b|] == x;
    assert |a| == |b| + 1 ==> a == b + [x];
  }

  lemma {:induction false} WaitingOnPart(seen: seq<byte>, m: seq<byte>, len: nat, buf: seq<byte>, actual: nat)
    requires 0 < |m| <= len <= |buf| && len < INDEX_RANGE
    requires Strip(seen) <= Frame(m) && FLAG_END !in seen
    requires LeadingNulls(seen, FLAG_START) <= MAX_PRE_NULL_FLAGS
    ensures Decode(seen, FLAG_START, len, Fresh(buf, actual)).code == None
  {
    StripMembers(seen, FLAG_END);
    var body := [FLAG_START] + Stuff(m);
    assert Frame(m) == body + [FLAG_END];
    PrefixWithout(Strip(seen), body, FLAG_END);
    forall i | 0 <= i <= |seen| ensures |Payload(seen[..i], FLAG_START)| <= len {
      StripPrefix(seen, i);
      StripKeepsMeaning(seen[..i], FLAG_START);
      var q := Strip(seen[..i]);
      if q != [] {
        PrefixOfFrame([], q, FLAG_START, m);
        assert [] + q == q;
      }
    }
    FreshTracks(buf, actual, FLAG_START, len);
    assert [] + seen == seen;
    DecodeTracks(Fresh(buf, actual), buf, actual, [], seen, FLAG_START, len);
  }

  /**
   * The two-party run: a sender executes `EComPort_Tx`, polled or blocking, and a peer running the receive code
   * reads the FIFO at any times, NULL when it is empty. When the environment serves the frame (polled: for each byte
   * a poll within the budget shows space, no error before it, and the write completes) and the peer goes on reading
   * until the FIFO is empty, the sender succeeds and the peer's `EComPort_Rx` returns Success with exactly the
   * message sent.
   */
  lemma {:induction false} MessageArrives(w: World, m: seq<byte>, block: bool, run: seq<Timed>, depth: nat, more: nat,
                                          peer: World, len: nat, buf: seq<byte>, actual: nat)
    requires 0 < |m| <= len <= |buf| && len < INDEX_RANGE
    requires Transmission(w, m, block, run, depth) && ServesMessage(w, m, block)
    requires ReadMany(Play(IDLE_PEER, run), more).queue == []
    requires Inbound(peer.tape) == ReadMany(Play(IDLE_PEER, run), more).seen
    requires LeadingNulls(Inbound(peer.tape), FLAG_START) <= MAX_PRE_NULL_FLAGS
    ensures Transmit(w, true, m, block).0 == Success
    ensures var (code, peer1, st) := Receive(peer, FLAG_START, len, Fresh(buf, actual));
            code == Success && st.actual == |m| && st.buf[..st.actual] == m
  {
    TransmitServedExactly(w, m, block);
    PrefixExact(w, m, block, run, depth, |run|, 0, more);
    var seen := Inbound(peer.tape);
    assert Strip(seen) + [] == Strip(seen);
    ReceiverNeverWrong(seen, m, len, buf, actual);
    ReceiveDecodes(peer, FLAG_START, len, Fresh(buf, actual));
  }

  // ---- the hypotheses are met ----

  /** A peer that reads once before each word of a blocking write stays one byte behind. */
  lemma {:induction false} EagerReads(bytes: seq<byte>, gaps: seq<nat>)
    requires |bytes| <= |gaps| && forall i :: 0 <= i < |gaps| ==> gaps[i] == 1
    ensures PutAll(IDLE_PEER, bytes, gaps) ==
            if bytes == [] then IDLE_PEER else Peer([bytes[|bytes| - 1]], [FLAG_NULL] + bytes[..|bytes| - 1])
    ensures ReadMany(PutAll(IDLE_PEER, bytes, gaps), 1) == Peer([], [FLAG_NULL] + bytes)
  {
    if bytes == [] {
      assert [] + [FLAG_NULL] == [FLAG_NULL] + bytes;
    } else {
      var n := |bytes| - 1;
      EagerReads(bytes[..n], gaps);
      assert [FLAG_NULL] + bytes[..n] + [bytes[n]] == [FLAG_NULL] + bytes;
    }
    assert ReadMany(PutAll(IDLE_PEER, bytes, gaps), 0) == PutAll(IDLE_PEER, bytes, gaps);
  }

  lemma {:induction false} FrameAfterNull(m: seq<byte>)
    ensures LeadingNulls([FLAG_NULL] + Frame(m), FLAG_START) == 1
  {
    var s := [FLAG_NULL, FLAG_START];
    assert [FLAG_NULL] + Frame(m) == s + (Stuff(m) + [FLAG_END]);
    NullsAfterStart(s, Stuff(m) + [FLAG_END], FLAG_START);
    assert s == [FLAG_NULL] + [FLAG_START] && s[..|s| - 1] == [FLAG_NULL];
    assert LeadingNulls([FLAG_NULL], FLAG_START) == 1 by {
      assert [FLAG_NULL][..0] == [] && LeadingNulls([], FLAG_START) == 0;
    }
  }

  /** A whole blocking write of `f`, reported complete, with the peer reading before each word. */
  function EagerWrite(f: seq<byte>): Timed {
    Timed(Step(TxCall(true, f), Reply(Success, |f|, [])), Moment(0, |f|, seq(|f|, _ => 1)))
  }

  lemma {:induction false} EagerPlays(f: seq<byte>, depth: nat)
    requires depth > 0
    ensures Honest(IDLE_PEER, EagerWrite(f), depth)
    ensures ReadMany(PlayStep(IDLE_PEER, EagerWrite(f)), 1) == Peer([], [FLAG_NULL] + f)
  {
    var t := EagerWrite(f);
    WordsRoundTrip(f);
    assert EnteredBy(t) == f && ReadMany(IDLE_PEER, 0) == IDLE_PEER;
    forall n | 0 <= n < |f|
      ensures |ReadMany(PutAll(IDLE_PEER, f[..n], GapsOf(t)), GapAt(GapsOf(t), n)).queue| < depth
    {
      EagerReads(f[..n], GapsOf(t));
    }
    EagerReads(f, GapsOf(t));
  }

  lemma {:induction false} EagerTransmission(w: World, m: seq<byte>, depth: nat)
    requires |Frame(m)| < INDEX_RANGE && depth > 0 && w.tape == [Reply(Success, |Frame(m)|, [])]
    ensures Transmission(w, m, true, [EagerWrite(Frame(m))], depth)
    ensures ReadMany(Play(IDLE_PEER, [EagerWrite(Frame(m))]), 1) == Peer([], [FLAG_NULL] + Frame(m))
  {
    var run := [EagerWrite(Frame(m))];
    PreparedIsFrame(m);
    TxRawLog(w, true, Frame(m));
    EagerPlays(Frame(m), depth);
    assert run[..0] == [];
    PlayOne(IDLE_PEER, EagerWrite(Frame(m)));
  }

  lemma {:induction false} PlayOne(p: Peer, t: Timed)
    ensures Play(p, [t]) == PlayStep(p, t)
  {
    assert [t][..0] == [] && Play(p, []) == p;
  }

  /** Polled, a byte at a time: a status that shows the FIFO empty, the peer having read just before, and the write. */
  function GoReply(depth: nat): Reply {
    Reply(Success, 1, if depth < 0x100 then [depth] else [])
  }

  const WRITTEN := Reply(Success, 1, [])

  function PollAndWrite(depth: nat): byte -> seq<Timed> {
    (b: byte) => [
      Timed(Step(ReadSR, GoReply(depth)), Moment(1, 0, [])),
      Timed(Step(TxCall(false, [b]), WRITTEN), Moment(0, 1, []))]
  }

  function PolledRun(bytes: seq<byte>, depth: nat): seq<Timed> {
    Gather(bytes, PollAndWrite(depth))
  }

  function PolledTape(bytes: seq<byte>, depth: nat): seq<Reply> {
    if bytes == [] then [] else [GoReply(depth), WRITTEN] + PolledTape(bytes[1..], depth)
  }

  function StepsIn(run: seq<Timed>): (steps: seq<Step>)
    ensures |steps| == |run|
  {
    seq(|run|, i requires 0 <= i < |run| => run[i].step)
  }

  lemma {:induction false} PolledRunCons(bytes: seq<byte>, depth: nat)
    requires bytes != []
    ensures PolledRun(bytes, depth) == PollAndWrite(depth)(bytes[0]) + PolledRun(bytes[1..], depth)
  {
    assert bytes == [bytes[0]] + bytes[1..];
    GatherConcat([bytes[0]], bytes[1..], PollAndWrite(depth));
    GatherOne(bytes[0], PollAndWrite(depth));
  }

  /** A byte for which the first status shows space. */
  lemma {:induction false} SendByteAtOnce(w: World, b: byte, a: Reply, d: Reply, rest: seq<Reply>)
    requires w.tape == [a] + ([d] + rest) && Open(a, ForTx) && Complete(d, 1)
    ensures var (code, w1) := SendByte(w, b);
            && code == Success && w1.tape == rest
            && w1.log.steps == w.log.steps + [Step(ReadSR, a), Step(TxCall(false, [b]), d)]
  {
    var polled := After(w, ReadSR);
    assert polled.tape == [d] + rest;
    assert Poll(w, ForTx, 0) == (Success, polled);
    TxRawLog(polled, false, [b]);
  }

  lemma {:induction false} GoIsOpen(depth: nat)
    requires 0 < depth < 0x100
    ensures Open(GoReply(depth), ForTx) && Complete(WRITTEN, 1)
  {}

  lemma {:induction false} SendByteGoes(w: World, b: byte, depth: nat, rest: seq<Reply>)
    requires 0 < depth < 0x100 && w.tape == [GoReply(depth), WRITTEN] + rest
    ensures var (code, w1) := SendByte(w, b);
            && code == Success && w1.tape == rest
            && w1.log.steps == w.log.steps + StepsIn(PollAndWrite(depth)(b))
  {
    GoIsOpen(depth);
    SendByteAtOnce(w, b, GoReply(depth), WRITTEN, rest);
    assert StepsIn(PollAndWrite(depth)(b)) == [Step(ReadSR, GoReply(depth)), Step(TxCall(false, [b]), WRITTEN)];
  }

  lemma {:induction false} SendAllGoes(w: World, bytes: seq<byte>, depth: nat)
    requires 0 < depth < 0x100 && w.tape == PolledTape(bytes, depth)
    ensures var (code, w1) := SendAll(w, bytes);
            code == Success && w1.log.steps == w.log.steps + StepsIn(PolledRun(bytes, depth))
    decreases |bytes|
  {
    if bytes == [] {
      assert w.log.steps + [] == w.log.steps;
    } else {
      SendByteGoes(w, bytes[0], depth, PolledTape(bytes[1..], depth));
      var w1 := SendByte(w, bytes[0]).1;
      SendAllGoes(w1, bytes[1..], depth);
      PolledRunCons(bytes, depth);
      var one, more := PollAndWrite(depth)(bytes[0]), PolledRun(bytes[1..], depth);
      assert StepsIn(one + more) == StepsIn(one) + StepsIn(more);
      Associates(w.log.steps, StepsIn(one), StepsIn(more));
    }
  }

  lemma {:induction false} HonestSnoc(run: seq<Timed>, t: Timed, depth: nat)
    requires HonestRun(IDLE_PEER, run, depth) && PlausibleRun(run)
    requires Honest(Play(IDLE_PEER, run), t, depth) && Plausible(t)
    ensures HonestRun(IDLE_PEER, run + [t], depth) && PlausibleRun(run + [t])
    ensures Play(IDLE_PEER, run + [t]) == PlayStep(Play(IDLE_PEER, run), t)
  {
    var longer := run + [t];
    assert longer[..|run|] == run;
    forall i | 0 <= i < |longer|
      ensures Honest(Play(IDLE_PEER, longer[..i]), longer[i], depth) && Plausible(longer[i])
    {
      if i < |run| {
        assert longer[..i] == run[..i] && longer[i] == run[i];
      } else {
        assert longer[..i] == run;
      }
    }
  }

  /** What the peer has seen after the polled transmission of some bytes: it stays one byte behind. */
  function OneBehind(bytes: seq<byte>): Peer {
    if bytes == [] then IDLE_PEER else Peer([bytes[|bytes| - 1]], [FLAG_NULL] + bytes[..|bytes| - 1])
  }

  lemma {:induction false} OneBehindReads(bytes: seq<byte>)
    ensures ReadMany(OneBehind(bytes), 1) == Peer([], [FLAG_NULL] + bytes)
  {
    var p := OneBehind(bytes);
    assert ReadMany(p, 0) == p;
    if bytes == [] {
      assert [] + [FLAG_NULL] == [FLAG_NULL] + bytes;
    } else {
      assert [FLAG_NULL] + bytes[..|bytes| - 1] + [bytes[|bytes| - 1]] == [FLAG_NULL] + bytes;
    }
  }

  lemma {:induction false} PollThenWrite(bytes: seq<byte>, b: byte, depth: nat)
    requires 0 < depth < 0x100
    ensures var t, u := PollAndWrite(depth)(b)[0], PollAndWrite(depth)(b)[1];
            var p := PlayStep(OneBehind(bytes), t);
            && Honest(OneBehind(bytes), t, depth) && Plausible(t) && Honest(p, u, depth) && Plausible(u)
            && PlayStep(p, u) == OneBehind(bytes + [b])
  {
    var t, u := PollAndWrite(depth)(b)[0], PollAndWrite(depth)(b)[1];
    OneBehindReads(bytes);
    var p := PlayStep(OneBehind(bytes), t);
    assert p == Peer([], [FLAG_NULL] + bytes);
    WordsRoundTrip([b]);
    assert EnteredBy(u) == [b] && [b][..0] == [] && ReadMany(p, 0) == p;
    assert (bytes + [b])[..|bytes|] == bytes;
  }

  /** `run` is a fair timing after which the link is as `bytes` leave it. */
  ghost predicate LeavesBehind(run: seq<Timed>, bytes: seq<byte>, depth: nat) {
    HonestRun(IDLE_PEER, run, depth) && PlausibleRun(run) && Play(IDLE_PEER, run) == OneBehind(bytes)
  }

  lemma {:induction false} LeavesNext(run: seq<Timed>, bytes: seq<byte>, t: Timed, u: Timed, b: byte, depth: nat)
    requires 0 < depth < 0x100 && LeavesBehind(run, bytes, depth) && PollAndWrite(depth)(b) == [t, u]
    ensures LeavesBehind(run + [t] + [u], bytes + [b], depth)
  {
    PollThenWrite(bytes, b, depth);
    HonestSnoc(run, t, depth);
    HonestSnoc(run + [t], u, depth);
  }

  lemma {:induction false} PolledRunHonest(bytes: seq<byte>, depth: nat)
    requires 0 < depth < 0x100
    ensures LeavesBehind(PolledRun(bytes, depth), bytes, depth)
  {
    if bytes != [] {
      var n := |bytes| - 1;
      PolledRunHonest(bytes[..n], depth);
      var two := PollAndWrite(depth)(bytes[n]);
      LeavesNext(PolledRun(bytes[..n], depth), bytes[..n], two[0], two[1], bytes[n], depth);
      PolledRunSnoc(bytes, n, depth, two);
    }
  }

  lemma {:induction false} PolledRunSnoc(bytes: seq<byte>, n: nat, depth: nat, two: seq<Timed>)
    requires |bytes| == n + 1 && two == PollAndWrite(depth)(bytes[n])
    ensures PolledRun(bytes, depth) == PolledRun(bytes[..n], depth) + [two[0]] + [two[1]]
    ensures bytes == bytes[..n] + [bytes[n]]
  {
    assert two == [two[0]] + [two[1]];
    Associates(PolledRun(bytes[..n], depth), [two[0]], [two[1]]);
  }

  lemma {:induction false} TimesItself(run: seq<Timed>, s: Log, t: Log)
    requires t.steps == s.steps + StepsIn(run)
    ensures s.steps <= t.steps && Times(run, NewSteps(s, t))
  {}

  lemma {:induction false} PolledIs(w: World, m: seq<byte>)
    requires Prepared(m) == Frame(m)
    ensures Transmit(w, true, m, false).0 == SendAll(w, Frame(m)).0
    ensures Transmit(w, true, m, false).1 == SendAll(w, Frame(m)).1
  {}

  lemma {:induction false} PolledTransmission(w: World, m: seq<byte>, depth: nat)
    requires |Frame(m)| < INDEX_RANGE && 0 < depth < 0x100 && w.tape == PolledTape(Frame(m), depth)
    ensures Transmission(w, m, false, PolledRun(Frame(m), depth), depth)
    ensures Transmit(w, true, m, false).0 == Success
    ensures ReadMany(Play(IDLE_PEER, PolledRun(Frame(m), depth)), 1) == Peer([], [FLAG_NULL] + Frame(m))
  {
    PreparedIsFrame(m);
    PolledIs(w, m);
    SendAllGoes(w, Frame(m), depth);
    TimesItself(PolledRun(Frame(m), depth), w.log, SendAll(w, Frame(m)).1.log);
    PolledRunHonest(Frame(m), depth);
    OneBehindReads(Frame(m));
  }

  /**
   * For every message whose frame the encoder can express, in both modes and for every depth (polled: that the status
   * register can show) there is such a run, with the peer reading in between: what `MessageArrives` supposes can be
   * met.
   */
  lemma {:induction false} MessageCanArrive(m: seq<byte>, block: bool, depth: nat)
    returns (w: World, run: seq<Timed>, peer: World)
    requires |Frame(m)| < INDEX_RANGE && depth > 0 && (block || depth < 0x100)
    ensures Transmission(w, m, block, run, depth) && ServesMessage(w, m, block)
    ensures ReadMany(Play(IDLE_PEER, run), 1).queue == []
    ensures Inbound(peer.tape) == ReadMany(Play(IDLE_PEER, run), 1).seen
    ensures LeadingNulls(Inbound(peer.tape), FLAG_START) <= MAX_PRE_NULL_FLAGS
  {
    var f := Frame(m);
    peer := World(Arriving([FLAG_NULL] + f), EMPTY_LOG);
    ArrivingDelivers([FLAG_NULL] + f);
    FrameAfterNull(m);
    if block {
      w, run := World([Reply(Success, |f|, [])], EMPTY_LOG), [EagerWrite(f)];
      EagerTransmission(w, m, depth);
    } else {
      w, run := World(PolledTape(f, depth), EMPTY_LOG), PolledRun(f, depth);
      PolledTransmission(w, m, depth);
      TransmitServedExactly(w, m, false);
    }
  }
}
