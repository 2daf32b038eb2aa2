/** Which peers the handshake succeeds with: it completes against every cooperating one, and only against those. */
module HandshakePeer {
  import opened Types
  import opened Framing
  import opened Decoder
  import opened RoundTrip
  import opened Hosts
  import opened Transport
  import opened Messages
  import opened Handshake

  // ---- cooperation suffices ----

  /** One byte handed over: the status reads that find nothing before it, and the byte. */
  datatype Delivery = Delivery(polls: nat, b: byte)

  /** The byte at the head of the tape, delivered within the budget. */
  predicate Heads(tape: seq<Reply>, d: Delivery) {
    && d.polls < MAX_POLLS && d.polls + 2 <= |tape|
    && FirstOpen(tape, ForRx, d.polls)
    && Complete(tape[d.polls + 1], 1) && WordAt(tape[d.polls + 1], 0) % 0x100 == d.b
  }

  /** A segment of the tape that makes these deliveries, each within the polling budget. */
  predicate Delivers(seg: seq<Reply>, ds: seq<Delivery>)
    decreases |ds|
  {
    if ds == [] then seg == []
    else
      Heads(seg, ds[0]) && Delivers(seg[ds[0].polls + 2..], ds[1..])
  }

  /** The last byte delivered is the flag, and the first to be. */
  predicate EndsAtFlag(ds: seq<Delivery>, flag: byte) {
    ds != [] && ds[|ds| - 1].b == flag && forall i :: 0 <= i < |ds| - 1 ==> ds[i].b != flag
  }

  /** A segment of the tape with which the peer (and the debugger) answers one phase. */
  ghost predicate Serves(seg: seq<Reply>, ph: Phase) {
    match ph
    case Send(b) =>
      exists p: nat ::
        p < MAX_POLLS && |seg| == p + 2 && FirstOpen(seg, ForTx, p) && Complete(seg[p + 1], 1)
    case Await(b) =>
      exists ds: seq<Delivery> :: EndsAtFlag(ds, b) && Delivers(seg, ds)
    case Listen => seg == []
    case _ => |seg| == 1 && seg[0].code == Success
  }

  lemma {:induction false} FirstOpenPrefix(seg: seq<Reply>, rest: seq<Reply>, side: Side, p: nat)
    requires FirstOpen(seg, side, p)
    ensures FirstOpen(seg + rest, side, p)
  {
    forall i | 0 <= i < p ensures Idle((seg + rest)[i], side) { assert (seg + rest)[i] == seg[i]; }
  }

  /** The wait after one delivered byte: over if that was the flag. */
  lemma {:induction false} DeliveredByte(w: World, seg: seq<Reply>, rest: seq<Reply>, d: Delivery, flag: byte)
    returns (w2: World)
    requires w.tape == seg + rest && Heads(seg, d)
    ensures w2.tape == seg[d.polls + 2..] + rest
    ensures WaitFlag(w, flag) == if d.b == flag then (Success, w2) else WaitFlag(w2, flag)
  {
    var p := d.polls;
    FirstOpenPrefix(seg, rest, ForRx, p);
    PollStopsAt(w, ForRx, 0, p);
    var w1 := Poll(w, ForRx, 0).1;
    assert w1.tape[0] == seg[p + 1];
    assert w1.tape[1..] == seg[p + 2..] + rest;
    w2 := ReadByte(w).1;
  }

  /** The first of several deliveries. */
  lemma {:induction false} FirstDelivery(seg: seq<Reply>, ds: seq<Delivery>, flag: byte)
    requires Delivers(seg, ds) && EndsAtFlag(ds, flag)
    ensures Heads(seg, ds[0]) && Delivers(seg[ds[0].polls + 2..], ds[1..])
    ensures if |ds| == 1 then ds[0].b == flag && seg[ds[0].polls + 2..] == []
            else ds[0].b != flag && EndsAtFlag(ds[1..], flag)
  {
    if |ds| > 1 { EndsAtFlagLater(ds, flag); }
  }

  lemma {:induction false} EndsAtFlagLater(ds: seq<Delivery>, flag: byte)
    requires EndsAtFlag(ds, flag) && |ds| > 1
    ensures ds[0].b != flag && EndsAtFlag(ds[1..], flag)
  {
    assert forall i :: 0 <= i < |ds| - 1 ==> ds[1..][i] == ds[i + 1];
  }

  lemma {:induction false} DeliveredFlag(w: World, seg: seq<Reply>, rest: seq<Reply>, ds: seq<Delivery>, flag: byte)
    requires w.tape == seg + rest && Delivers(seg, ds) && EndsAtFlag(ds, flag)
    ensures WaitFlag(w, flag).0 == Success && WaitFlag(w, flag).1.tape == rest
    decreases |ds|
  {
    FirstDelivery(seg, ds, flag);
    var seg2 := seg[ds[0].polls + 2..];
    var w2 := DeliveredByte(w, seg, rest, ds[0], flag);
    if |ds| == 1 {
      assert seg2 + rest == rest;
    } else {
      DeliveredFlag(w2, seg2, rest, ds[1..], flag);
    }
  }

  lemma {:induction false} ServedPhase(w: World, seg: seq<Reply>, rest: seq<Reply>, ph: Phase)
    requires w.tape == seg + rest && Serves(seg, ph)
    ensures RunPhase(w, ph).0 == Success && RunPhase(w, ph).1.tape == rest
  {
    match ph {
      case Send(b) =>
        var p: nat :| p < MAX_POLLS && |seg| == p + 2 && FirstOpen(seg, ForTx, p)
                      && Complete(seg[p + 1], 1);
        FirstOpenPrefix(seg, rest, ForTx, p);
        PollStopsAt(w, ForTx, 0, p);
        var w1 := Poll(w, ForTx, 0).1;
        assert w1.tape[0] == seg[p + 1];
        assert w1.tape[1..] == rest;
      case Await(b) =>
        var ds: seq<Delivery> :| EndsAtFlag(ds, b) && Delivers(seg, ds);
        DeliveredFlag(w, seg, rest, ds, b);
      case _ =>
    }
  }

  lemma {:induction false} ServedScript(w: World, segs: seq<seq<Reply>>, rest: seq<Reply>, script: seq<Phase>)
    requires |segs| == |script| && w.tape == Concat(segs) + rest
    requires forall i :: 0 <= i < |script| ==> Serves(segs[i], script[i])
    ensures RunScript(w, script).0 == Success && RunScript(w, script).1.tape == rest
    decreases |script|
  {
    if script == [] {
      assert w.tape == rest;
    } else {
      assert w.tape == segs[0] + (Concat(segs[1..]) + rest);
      ServedPhase(w, segs[0], Concat(segs[1..]) + rest, script[0]);
      ServedScript(RunPhase(w, script[0]).1, segs[1..], rest, script[1..]);
    }
  }

  // ---- and only then ----

  lemma {:induction false} FirstOpenOfPrefix(tape: seq<Reply>, n: nat, side: Side, p: nat)
    requires FirstOpen(tape, side, p) && p < n <= |tape|
    ensures FirstOpen(tape[..n], side, p)
  {}

  /** The first byte of a successful wait had been delivered within the budget. */
  lemma {:induction false} WaitStep(w: World, flag: byte, end: World) returns (d: Delivery, w1: World)
    requires WaitFlag(w, flag) == (Success, end)
    ensures Heads(w.tape, d) && w1.tape == w.tape[d.polls + 2..]
    ensures if d.b == flag then w1 == end else WaitFlag(w1, flag) == (Success, end)
  {
    PollSuccess(w, ForRx, 0);
    var p: nat :| p < MAX_POLLS && FirstOpen(w.tape, ForRx, p);
    PollStopsAt(w, ForRx, 0, p);
    var polled := Poll(w, ForRx, 0).1;
    assert polled.tape == w.tape[p + 1..];
    var bytes := BytesOf(Answer(polled), 1).value;
    assert bytes == [bytes[0]];
    d, w1 := Delivery(p, bytes[0]), ReadByte(w).1;
  }

  /** The deliveries of a wait that ended well, and where they stop. */
  ghost predicate Waited(tape: seq<Reply>, n: nat, ds: seq<Delivery>, flag: byte) {
    n <= |tape| && Delivers(tape[..n], ds) && EndsAtFlag(ds, flag)
  }

  lemma {:induction false} WaitedNow(tape: seq<Reply>, d: Delivery, n: nat, ds: seq<Delivery>)
    requires Heads(tape, d) && n == d.polls + 2 && ds == [d]
    ensures Waited(tape, n, ds, d.b)
  {
    assert tape[d.polls + 2..][..0] == [];
    DeliversCons(tape, 0, d, []);
    assert [d] + [] == [d];
  }

  lemma {:induction false} WaitedLater(tape: seq<Reply>, rest: seq<Reply>, d: Delivery, m: nat, more: seq<Delivery>,
                                       flag: byte, n: nat, ds: seq<Delivery>)
    requires Heads(tape, d) && rest == tape[d.polls + 2..] && d.b != flag && Waited(rest, m, more, flag)
    requires n == d.polls + 2 + m && ds == [d] + more
    ensures Waited(tape, n, ds, flag)
    ensures tape[n..] == rest[m..]
  {
    DeliversCons(tape, m, d, more);
  }

  lemma {:induction false} WaitWasServed(w: World, flag: byte, end: World) returns (n: nat, ds: seq<Delivery>)
    requires WaitFlag(w, flag) == (Success, end)
    ensures Waited(w.tape, n, ds, flag) && end.tape == w.tape[n..]
    decreases |w.tape|
  {
    var d, w1 := WaitStep(w, flag, end);
    if d.b == flag {
      n, ds := d.polls + 2, [d];
      WaitedNow(w.tape, d, n, ds);
    } else {
      var m, more := WaitWasServed(w1, flag, end);
      n, ds := d.polls + 2 + m, [d] + more;
      WaitedLater(w.tape, w1.tape, d, m, more, flag, n, ds);
    }
  }

  lemma {:induction false} DeliversCons(tape: seq<Reply>, m: nat, d: Delivery, more: seq<Delivery>)
    requires Heads(tape, d) && d.polls + 2 + m <= |tape|
    requires Delivers(tape[d.polls + 2..][..m], more)
    ensures Delivers(tape[..d.polls + 2 + m], [d] + more)
    ensures tape[d.polls + 2 + m..] == tape[d.polls + 2..][m..]
  {
    var seg := tape[..d.polls + 2 + m];
    FirstOpenOfPrefix(tape, d.polls + 2 + m, ForRx, d.polls);
    assert seg[d.polls + 2..] == tape[d.polls + 2..][..m] && ([d] + more)[1..] == more;
    assert seg[d.polls + 1] == tape[d.polls + 1];
  }

  lemma {:induction false} SendWasServed(w: World, b: byte) returns (n: nat)
    requires SendByte(w, b).0 == Success
    ensures n <= |w.tape| && SendByte(w, b).1.tape == w.tape[n..] && Serves(w.tape[..n], Send(b))
  {
    PollSuccess(w, ForTx, 0);
    var p: nat :| p < MAX_POLLS && FirstOpen(w.tape, ForTx, p);
    PollStopsAt(w, ForTx, 0, p);
    var polled := Poll(w, ForTx, 0).1;
    assert polled.tape == w.tape[p + 1..];
    n := p + 2;
    FirstOpenOfPrefix(w.tape, n, ForTx, p);
    assert w.tape[..n][p + 1] == w.tape[p + 1];
  }

  lemma {:induction false} PhaseWasServed(w: World, ph: Phase) returns (n: nat)
    requires RunPhase(w, ph).0 == Success
    ensures n <= |w.tape| && RunPhase(w, ph).1.tape == w.tape[n..] && Serves(w.tape[..n], ph)
  {
    match ph {
      case Send(b) => n := SendWasServed(w, b);
      case Await(b) =>
        var ds;
        n, ds := WaitWasServed(w, b, WaitFlag(w, b).1);
      case Listen => n := 0;
      case _ => n := 1;
    }
  }

  /** A script succeeds exactly against an environment that serves its phases one after another. */
  lemma {:induction false} ScriptServedExactly(w: World, script: seq<Phase>)
    ensures RunScript(w, script).0 == Success <==>
            exists segs: seq<seq<Reply>>, rest: seq<Reply> {:trigger Concat(segs) + rest} ::
              && |segs| == |script| && w.tape == Concat(segs) + rest
              && forall i :: 0 <= i < |script| ==> Serves(segs[i], script[i])
  {
    if RunScript(w, script).0 == Success {
      var segs := ScriptWasServed(w, script);
      assert w.tape == Concat(segs) + RunScript(w, script).1.tape;
    }
    forall segs: seq<seq<Reply>>, rest: seq<Reply> {:trigger Concat(segs) + rest} |
      && |segs| == |script| && w.tape == Concat(segs) + rest
      && forall i :: 0 <= i < |script| ==> Serves(segs[i], script[i])
      ensures RunScript(w, script).0 == Success
    {
      ServedScript(w, segs, rest, script);
    }
  }

  /** Polled transmission of some bytes is the script that sends them one by one. */
  function Sends(bytes: seq<byte>): (script: seq<Phase>)
    ensures |script| == |bytes|
  {
    seq(|bytes|, i requires 0 <= i < |bytes| => Send(bytes[i]))
  }

  lemma {:induction false} SendAllIsScript(w: World, bytes: seq<byte>)
    ensures SendAll(w, bytes) == RunScript(w, Sends(bytes))
    decreases |bytes|
  {
    if bytes != [] {
      assert Sends(bytes)[1..] == Sends(bytes[1..]);
      var (code, w1) := SendByte(w, bytes[0]);
      if code == Success { SendAllIsScript(w1, bytes[1..]); }
    }
  }

  /** The tape serves every byte of the data in turn, each with space shown within the budget and a good write. */
  ghost predicate ServesBytes(tape: seq<Reply>, bytes: seq<byte>) {
    exists segs: seq<seq<Reply>>, rest: seq<Reply> {:trigger Concat(segs) + rest} ::
      && |segs| == |bytes| && tape == Concat(segs) + rest
      && forall i :: 0 <= i < |bytes| ==> Serves(segs[i], Send(bytes[i]))
  }

  lemma {:induction false} SendAllExactly(w: World, bytes: seq<byte>)
    ensures SendAll(w, bytes).0 == Success <==> ServesBytes(w.tape, bytes)
  {
    SendAllIsScript(w, bytes);
    if SendAll(w, bytes).0 == Success {
      var segs := ScriptWasServed(w, Sends(bytes));
      assert forall i :: 0 <= i < |bytes| ==> Sends(bytes)[i] == Send(bytes[i]);
      assert w.tape == Concat(segs) + RunScript(w, Sends(bytes)).1.tape;
    }
    if ServesBytes(w.tape, bytes) {
      var segs: seq<seq<Reply>>, rest: seq<Reply> {:trigger Concat(segs) + rest} :|
        && |segs| == |bytes| && w.tape == Concat(segs) + rest
        && forall i :: 0 <= i < |bytes| ==> Serves(segs[i], Send(bytes[i]));
      ServedScript(w, segs, rest, Sends(bytes));
    }
  }

  lemma {:induction false} PolledIsSendAll(w: World, data: seq<byte>)
    requires Prepared(data) == Frame(data)
    ensures Transmit(w, true, data, false).0 == SendAll(w, Frame(data)).0
  {}

  /** Polled, every byte of the frame is served in turn; blocking, the one write is reported complete. */
  ghost predicate ServesMessage(w: World, data: seq<byte>, block: bool) {
    if block then Complete(Answer(w), |Frame(data)|) else ServesBytes(w.tape, Frame(data))
  }

  /** A message goes out exactly when the environment serves its frame. */
  lemma {:induction false} TransmitServedExactly(w: World, data: seq<byte>, block: bool)
    requires |Frame(data)| < INDEX_RANGE
    ensures Transmit(w, true, data, block).0 == Success <==> ServesMessage(w, data, block)
  {
    PreparedIsFrame(data);
    if !block {
      PolledIsSendAll(w, data);
      SendAllExactly(w, Frame(data));
    }
  }

  lemma {:induction false} ServedCons(tape: seq<Reply>, n: nat, more: seq<seq<Reply>>, t1: seq<Reply>, t2: seq<Reply>)
    requires n <= |tape| && t1 == tape[n..] == Concat(more) + t2
    ensures tape == Concat([tape[..n]] + more) + t2
  {
    assert ([tape[..n]] + more)[1..] == more;
    assert tape == tape[..n] + tape[n..];
  }

  lemma {:induction false} ScriptWasServed(w: World, script: seq<Phase>) returns (segs: seq<seq<Reply>>)
    requires RunScript(w, script).0 == Success
    ensures |segs| == |script| && w.tape == Concat(segs) + RunScript(w, script).1.tape
    ensures forall i :: 0 <= i < |script| ==> Serves(segs[i], script[i])
    decreases |script|
  {
    if script == [] {
      segs := [];
    } else {
      var n := PhaseWasServed(w, script[0]);
      var w1 := RunPhase(w, script[0]).1;
      var more := ScriptWasServed(w1, script[1..]);
      segs := [w.tape[..n]] + more;
      ServedCons(w.tape, n, more, w1.tape, RunScript(w, script).1.tape);
      forall i | 0 <= i < |script| ensures Serves(segs[i], script[i]) {
        if i > 0 { assert segs[i] == more[i - 1] && script[i] == script[1..][i - 1]; }
      }
    }
  }

  /**
   * Against a peer that serves every phase within the polling budgets, reading any stale bytes first, and then
   * answers with a stuffed identification frame (NULLs and closed leftovers around it), `EComPort_Init` succeeds
   * with exactly the peer's identification, whichever reset is used, and takes nothing beyond that frame.
   */
  lemma {:induction false} InitCompletes(w: World, hooks: Hooks, inited: bool, reset: ResetType,
                                         buf: seq<byte>, len: nat, segs: seq<seq<Reply>>, answer: seq<Reply>,
                                         g: seq<byte>, z: seq<byte>, tail: seq<byte>, id: seq<byte>)
    requires len <= |buf| && len < INDEX_RANGE
    requires reset == ResetSystem ==> hooks.start && hooks.finish
    requires |segs| == |InitScript(reset)| && w.tape == Concat(segs) + answer
    requires forall i :: 0 <= i < |segs| ==> Serves(segs[i], InitScript(reset)[i])
    requires Inbound(answer) == g + z + tail && 0 < |id| <= len
    requires FLAG_END !in g && RunsFit(g, FLAG_IDA, len) && !EscPending(g, FLAG_IDA)
    requires LeadingNulls(g + z, FLAG_IDA) <= MAX_PRE_NULL_FLAGS
    requires Strip(z) == FrameWith(FLAG_IDA, id) && z[|z| - 1] == FLAG_END
    ensures var r := Init(w, hooks, inited, reset, buf, len);
            && r.code == Success && r.inited && r.buf[..|id|] == id && r.buf[len..] == buf[len..]
            && |g| + |z| <= |answer| && r.w.tape == answer[|g| + |z|..]
  {
    ServedScript(w, segs, answer, InitScript(reset));
    IdentificationArrives(RunScript(w, InitScript(reset)).1, buf, len, g, z, tail, id);
  }

  lemma {:induction false} IdentificationArrives(w: World, buf: seq<byte>, len: nat, g: seq<byte>, z: seq<byte>,
                                                 tail: seq<byte>, id: seq<byte>)
    requires len <= |buf| && len < INDEX_RANGE
    requires Inbound(w.tape) == g + z + tail && 0 < |id| <= len
    requires FLAG_END !in g && RunsFit(g, FLAG_IDA, len) && !EscPending(g, FLAG_IDA)
    requires LeadingNulls(g + z, FLAG_IDA) <= MAX_PRE_NULL_FLAGS
    requires Strip(z) == FrameWith(FLAG_IDA, id) && z[|z| - 1] == FLAG_END
    ensures var (code, w1, st) := Receive(w, FLAG_IDA, len, Fresh(buf, 0));
            && code == Success && st.actual == |id| && st.buf[..|id|] == id && st.buf[len..] == buf[len..]
            && |g| + |z| <= |w.tape| && w1.tape == w.tape[|g| + |z|..]
  {
    ReceiveDecodes(w, FLAG_IDA, len, Fresh(buf, 0));
    DecodeAfterLeftovers(g, z, tail, FLAG_IDA, id, len, buf, 0);
    assert Carried(false, id) == id;
  }

  // ---- exactly when Init succeeds ----

  /** `p` makes the identification read succeed: an IDA flag, no overflow, few NULLs first, and some data byte. */
  ghost predicate Identifies(p: seq<byte>, len: nat) {
    && FLAG_IDA in p && RunsFit(p, FLAG_IDA, len) && LeadingNulls(p, FLAG_IDA) <= MAX_PRE_NULL_FLAGS
    && HasData(p, FLAG_IDA)
  }

  /** The identification in `p` is at the front of the buffer, and nothing beyond the given length has changed. */
  ghost predicate Holds(buf: seq<byte>, before: seq<byte>, len: nat, p: seq<byte>)
    requires len <= |before|
  {
    && |buf| == |before| && |Payload(p, FLAG_IDA)| <= len
    && buf[..|Payload(p, FLAG_IDA)|] == Payload(p, FLAG_IDA) && buf[len..] == before[len..]
  }

  /** The part of `Init` after the script, on bytes that end at some point. */
  lemma {:induction false} IdentificationExactly(w: World, buf: seq<byte>, len: nat, p: seq<byte>, tail: seq<byte>)
    requires len <= |buf| && len < INDEX_RANGE
    requires Inbound(w.tape) == p + [FLAG_END] + tail && FLAG_END !in p
    ensures var (code, w1, st) := Receive(w, FLAG_IDA, len, Fresh(buf, 0));
            && (code == Success && st.actual != 0 <==> Identifies(p, len))
            && (code == Success ==>
                  |p| + 1 <= |w.tape| && w1.tape == w.tape[|p| + 1..] && Holds(st.buf, buf, len, p))
  {
    ReceiveDecodes(w, FLAG_IDA, len, Fresh(buf, 0));
    DecodeMeaning(p, tail, FLAG_IDA, len, buf, 0);
    LengthExactly(p, tail, FLAG_IDA, len, buf, 0);
  }

  /** Without END the identification read fails. */
  lemma {:induction false} IdentificationNeverEnds(w: World, buf: seq<byte>, len: nat)
    requires len <= |buf| && len < INDEX_RANGE && FLAG_END !in Inbound(w.tape)
    ensures Receive(w, FLAG_IDA, len, Fresh(buf, 0)).0 != Success
  {
    var s := Inbound(w.tape);
    ReceiveDecodes(w, FLAG_IDA, len, Fresh(buf, 0));
    FreshTracks(buf, 0, FLAG_IDA, len);
    DecodeTracks(Fresh(buf, 0), buf, 0, [], s, FLAG_IDA, len);
    assert [] + s == s;
  }

  /** Where the first END of a stream is. */
  lemma {:induction false} SplitAtEnd(s: seq<byte>) returns (p: seq<byte>, tail: seq<byte>)
    requires FLAG_END in s
    ensures s == p + [FLAG_END] + tail && FLAG_END !in p
    decreases |s|
  {
    if s[0] == FLAG_END {
      p, tail := [], s[1..];
    } else {
      assert s == [s[0]] + s[1..];
      p, tail := SplitAtEnd(s[1..]);
      p := [s[0]] + p;
    }
  }

  /** A tape that serves the script and then delivers an identification the driver takes. */
  ghost predicate Introduces(tape: seq<Reply>, script: seq<Phase>, len: nat, segs: seq<seq<Reply>>, answer: seq<Reply>,
                             p: seq<byte>, tail: seq<byte>)
  {
    && |segs| == |script| && tape == Concat(segs) + answer
    && (forall i :: 0 <= i < |script| ==> Serves(segs[i], script[i]))
    && Inbound(answer) == p + [FLAG_END] + tail && FLAG_END !in p && Identifies(p, len)
  }

  /**
   * `EComPort_Init` succeeds exactly when the needed reset callbacks are there and the environment serves the handshake
   * and then delivers, up to the first END, a start flag, no overflowing run, at most 10000 NULLs before it, and at
   * least one data byte anywhere, be it before the start flag; the buffer then holds the data after the last start
   * flag.
   */
  lemma {:induction false} InitExactly(w: World, hooks: Hooks, inited: bool, reset: ResetType, buf: seq<byte>, len: nat)
    requires len <= |buf| && len < INDEX_RANGE
    ensures var r := Init(w, hooks, inited, reset, buf, len);
            r.code == Success <==>
              && (reset == ResetSystem ==> hooks.start && hooks.finish)
              && exists segs: seq<seq<Reply>>, answer: seq<Reply>, p: seq<byte>, tail: seq<byte> ::
                   Introduces(w.tape, InitScript(reset), len, segs, answer, p, tail) && Holds(r.buf, buf, len, p)
  {
    var script := InitScript(reset);
    var (code, w1) := RunScript(w, script);
    if Init(w, hooks, inited, reset, buf, len).code == Success {
      var segs := ScriptWasServed(w, script);
      if FLAG_END !in Inbound(w1.tape) { IdentificationNeverEnds(w1, buf, len); }
      var p, tail := SplitAtEnd(Inbound(w1.tape));
      IdentificationExactly(w1, buf, len, p, tail);
      assert Introduces(w.tape, script, len, segs, w1.tape, p, tail);
    }
    forall segs: seq<seq<Reply>>, answer: seq<Reply>, p: seq<byte>, tail: seq<byte> |
      && Introduces(w.tape, script, len, segs, answer, p, tail)
      && (reset == ResetSystem ==> hooks.start && hooks.finish)
      ensures Init(w, hooks, inited, reset, buf, len).code == Success
    {
      ServedScript(w, segs, answer, script);
      IdentificationExactly(w1, buf, len, p, tail);
    }
  }

  /**
   * An identification frame that is empty is turned down, with a transfer error and without initialising the driver,
   * exactly when no data byte came before it either; otherwise `EComPort_Init` succeeds and the driver is initialised
   * although nothing was identified.
   */
  lemma {:induction false} EmptyIdentification(w: World, hooks: Hooks, reset: ResetType, buf: seq<byte>, len: nat,
                                               segs: seq<seq<Reply>>, answer: seq<Reply>, g: seq<byte>, z: seq<byte>,
                                               tail: seq<byte>)
    requires len <= |buf| && len < INDEX_RANGE
    requires reset == ResetSystem ==> hooks.start && hooks.finish
    requires |segs| == |InitScript(reset)| && w.tape == Concat(segs) + answer
    requires forall i :: 0 <= i < |segs| ==> Serves(segs[i], InitScript(reset)[i])
    requires Inbound(answer) == g + z + tail && Strip(z) == FrameWith(FLAG_IDA, []) && z[|z| - 1] == FLAG_END
    requires FLAG_END !in g && RunsFit(g, FLAG_IDA, len) && LeadingNulls(g + z, FLAG_IDA) <= MAX_PRE_NULL_FLAGS
    ensures var r := Init(w, hooks, false, reset, buf, len);
            && r.code == (if HasData(g, FLAG_IDA) then Success else TransferError)
            && (r.inited <==> HasData(g, FLAG_IDA)) && r.buf[len..] == buf[len..]
  {
    ServedScript(w, segs, answer, InitScript(reset));
    var w1 := RunScript(w, InitScript(reset)).1;
    ReceiveDecodes(w1, FLAG_IDA, len, Fresh(buf, 0));
    DecodeAfterLeftovers(g, z, tail, FLAG_IDA, [], len, buf, 0);
    LengthMeaning(g, FLAG_IDA, 0);
    if HasData(g, FLAG_IDA) {
      var j: nat :| LastDataAt(g, FLAG_IDA, j);
      assert LengthReported(g, FLAG_IDA, 0) > 0;
    }
  }

  /** For example: one stray data byte before an empty identification frame, and the driver is initialised. */
  lemma {:induction false} StrayByteInitialises(w: World, hooks: Hooks, reset: ResetType, buf: seq<byte>, len: nat,
                                                segs: seq<seq<Reply>>, answer: seq<Reply>, b: byte)
    requires 0 < len <= |buf| && len < INDEX_RANGE
    requires reset == ResetSystem ==> hooks.start && hooks.finish
    requires |segs| == |InitScript(reset)| && w.tape == Concat(segs) + answer
    requires forall i :: 0 <= i < |segs| ==> Serves(segs[i], InitScript(reset)[i])
    requires Inbound(answer) == [b, 0xA1, 0xAD] && IsData(b, FLAG_IDA)
    ensures var r := Init(w, hooks, false, reset, buf, len); r.code == Success && r.inited
  {
    var z := FrameWith(FLAG_IDA, []);
    StrayByte(b, z);
    OneByteFits(b, len);
    EmptyIdentification(w, hooks, reset, buf, len, segs, answer, [b], z, []);
  }

  lemma {:induction false} StrayByte(b: byte, z: seq<byte>)
    requires IsData(b, FLAG_IDA) && z == FrameWith(FLAG_IDA, [])
    ensures [b, FLAG_IDA, FLAG_END] == [b] + z + [] && Strip(z) == z && z[|z| - 1] == FLAG_END
    ensures LeadingNulls([b] + z, FLAG_IDA) == 0 && HasData([b], FLAG_IDA) && FLAG_END !in [b]
  {
    assert z == [FLAG_IDA, FLAG_END];
    StripNothing(z);
    RawNulls([b] + z, FLAG_IDA);
    assert [b][0] == b;
  }

  lemma {:induction false} OneByteFits(b: byte, len: nat)
    requires len > 0
    ensures RunsFit([b], FLAG_IDA, len)
  {
    forall i | 0 <= i <= 1 ensures |Payload([b][..i], FLAG_IDA)| <= len {
      if i == 1 { assert [b][..1] == [] + [b]; PayloadSnoc([], b, FLAG_IDA); }
    }
  }

  // ---- such peers exist ----

  /** A status register showing room in TX and data in RX, and no error. */
  const GO := Reply(Success, 1, [0x1_0001])

  function PromptSegment(ph: Phase): seq<Reply> {
    match ph
    case Send(_) => [GO, Reply(Success, 1, [])]
    case Await(b) => [GO, Reply(Success, 1, [b])]
    case Listen => []
    case _ => [Reply(Success, 0, [])]
  }

  lemma {:induction false} PromptSegmentServes(ph: Phase)
    ensures Serves(PromptSegment(ph), ph)
  {
    var seg := PromptSegment(ph);
    match ph {
      case Send(b) =>
        assert FirstOpen(seg, ForTx, 0);
        assert |seg| == 0 + 2 && Complete(seg[0 + 1], 1);
      case Await(b) =>
        assert FirstOpen(seg, ForRx, 0);
        assert BytesOf(seg[1], 1).value == [b];
        var d := Delivery(0, b);
        assert Heads(seg, d);
        assert [d][1..] == [] && seg[2..] == [];
        assert EndsAtFlag([d], b) && Delivers(seg, [d]);
      case _ =>
    }
  }

  /** Every script is served by some environment. */
  lemma {:induction false} ScriptCanBeServed(script: seq<Phase>) returns (segs: seq<seq<Reply>>)
    ensures |segs| == |script| && forall i :: 0 <= i < |script| ==> Serves(segs[i], script[i])
  {
    segs := seq(|script|, i requires 0 <= i < |script| => PromptSegment(script[i]));
    forall i | 0 <= i < |script| ensures Serves(segs[i], script[i]) { PromptSegmentServes(script[i]); }
  }
}
