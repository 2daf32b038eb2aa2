/** Whole messages over the transport: `EComPort_Tx` and the receive loop on a world. */
module Messages {
  import opened Types
  import opened Framing
  import opened Decoder
  import opened Hosts
  import opened Transport

  // ---- receiving ----

  /** The receive loop: one raw byte at a time, no status polling, until the decoder halts or a read fails. */
  function Receive(w: World, flag: byte, len: nat, st: RxState): (r: (ReturnCode, World, RxState))
    requires len <= |st.buf|
    ensures |r.2.buf| == |st.buf|
    decreases |w.tape|
  {
    match RxRaw(w, 1)
    case (Err(code), w1) => (code, w1, st)
    case (Ok(bytes), w1) =>
      match Feed(st, bytes[0], flag, len)
      case Halt(code, st1) => (code, w1, st1)
      case More(st1) => Receive(w1, flag, len, st1)
  }

  /** The bytes the environment will deliver before its first failing reply. */
  function Inbound(tape: seq<Reply>): seq<byte> {
    if tape == [] then []
    else if !Complete(tape[0], 1) then []
    else [WordAt(tape[0], 0) % 0x100] + Inbound(tape[1..])
  }

  function Reading(b: byte): seq<Reply> {
    [Reply(Success, 1, [b])]
  }

  /** Bytes arriving one read at a time. */
  function Arriving(bytes: seq<byte>): (rs: seq<Reply>)
    ensures |rs| == |bytes|
  {
    if bytes == [] then [] else Reading(bytes[0]) + Arriving(bytes[1..])
  }

  lemma {:induction false} ArrivingDelivers(bytes: seq<byte>)
    ensures Inbound(Arriving(bytes)) == bytes
  {
    if bytes != [] {
      assert Arriving(bytes)[1..] == Arriving(bytes[1..]);
      ArrivingDelivers(bytes[1..]);
    }
  }

  lemma {:induction false} InboundThen(a: seq<Reply>, b: seq<Reply>)
    requires |Inbound(a)| == |a|
    ensures Inbound(a + b) == Inbound(a) + Inbound(b)
  {
    if a == [] {
      assert a + b == b;
    } else {
      assert (a + b)[1..] == a[1..] + b;
      InboundLength(a[1..]);
      InboundThen(a[1..], b);
    }
  }

  lemma {:induction false} InboundLength(a: seq<Reply>)
    ensures |Inbound(a)| <= |a|
  {
    if a != [] { InboundLength(a[1..]); }
  }

  /** What the next reply brings, if it brings a byte. */
  lemma {:induction false} NextByte(w: World)
    ensures var r := Answer(w);
            if Complete(r, 1) then
              && w.tape != [] && BytesOf(r, 1) == Ok([WordAt(r, 0) % 0x100])
              && Inbound(w.tape) == [WordAt(r, 0) % 0x100] + Inbound(w.tape[1..])
              && Hears(w.log, After(w, ReadDR(1)).log, [WordAt(r, 0) % 0x100])
            else
              && BytesOf(r, 1) == Err(if r.code != Success then r.code else RequestFailed)
              && Inbound(w.tape) == [] && Hears(w.log, After(w, ReadDR(1)).log, [])
  {
    if Complete(Answer(w), 1) {
      assert BytesOf(Answer(w), 1).value == [WordAt(Answer(w), 0) % 0x100];
    } else {
      assert w.log.notes + [] == w.log.notes;
    }
  }

  /** How the receive loop ends, against decoding what the environment delivers. */
  ghost predicate Decodes(w: World, flag: byte, len: nat, st: RxState)
    requires len <= |st.buf|
  {
    var d := Decode(Inbound(w.tape), flag, len, st);
    var (code, w1, st1) := Receive(w, flag, len, st);
    && (d.code.Some? ==> code == d.code.value && d.used <= |w.tape| && w1.tape == w.tape[d.used..])
    && (d.code.None? ==>
          var r := ReplyAt(w.tape, |Inbound(w.tape)|);
          code == if r.code != Success then r.code else RequestFailed)
    && st1 == d.st
    && Hears(w.log, w1.log, Inbound(w.tape)[..d.used])
    && w1.log.polls == w.log.polls
  }

  lemma {:induction false} DecodesAfterMore(w: World, flag: byte, len: nat, st: RxState, b: byte, st1: RxState)
    requires len <= |st.buf| && w.tape != [] && Inbound(w.tape) == [b] + Inbound(w.tape[1..])
    requires RxRaw(w, 1) == (Ok([b]), After(w, ReadDR(1))) && Hears(w.log, After(w, ReadDR(1)).log, [b])
    requires Feed(st, b, flag, len) == More(st1) && Decodes(After(w, ReadDR(1)), flag, len, st1)
    ensures Decodes(w, flag, len, st)
  {
    var w1 := After(w, ReadDR(1));
    var s, later := Inbound(w.tape), Inbound(w1.tape);
    assert s[0] == b && s[1..] == later;
    var d := Decode(later, flag, len, st1);
    HearsThen(w.log, w1.log, Receive(w1, flag, len, st1).1.log, [b], later[..d.used]);
    assert s[..d.used + 1] == [b] + later[..d.used];
    if d.code.Some? { assert w1.tape[d.used..] == w.tape[d.used + 1..]; }
    assert ReplyAt(w.tape, |s|) == ReplyAt(w1.tape, |later|);
  }

  /**
   * Receiving from a world is decoding what the environment delivers, and takes exactly the bytes the decoder used;
   * when the bytes run out it fails with the code of the reply that brought none.
   */
  lemma {:induction false} ReceiveDecodes(w: World, flag: byte, len: nat, st: RxState)
    requires len <= |st.buf|
    ensures Decodes(w, flag, len, st)
    decreases |w.tape|
  {
    NextByte(w);
    if Complete(Answer(w), 1) {
      var b := WordAt(Answer(w), 0) % 0x100;
      var s := Inbound(w.tape);
      assert s[0] == b && s[1..] == Inbound(w.tape[1..]) && s[..1] == [b];
      var v := Feed(st, b, flag, len);
      if v.More? {
        ReceiveDecodes(After(w, ReadDR(1)), flag, len, v.st);
        DecodesAfterMore(w, flag, len, st, b, v.st);
      }
    }
  }

  // ---- sending ----

  /** `EComPort_Tx`: the return code, the world, and `*actualLength` when it was written (the encoded length). */
  function Transmit(w: World, inited: bool, data: seq<byte>, block: bool): (ReturnCode, World, Option<nat>) {
    if !inited then (RequestFailed, w, None)
    else
      var (code, w1) := SendBlock(w, Prepared(data), block);
      (code, w1, Some(|Prepared(data)|))
  }

  /** What a transmission puts on the wire is a prefix of the message's frame, the whole of it on success. */
  lemma {:induction false} TransmitLog(w: World, inited: bool, data: seq<byte>, block: bool)
    requires |Frame(data)| < INDEX_RANGE
    ensures var (code, w1, actual) := Transmit(w, inited, data, block);
            && w.log.steps <= w1.log.steps
            && Adds(w.log.offered, w1.log.offered, Frame(data), code == Success)
            && (inited ==> actual == Some(2 + |data| + FlagBytes(data)))
            && (!inited ==> code == RequestFailed && w1 == w && actual == None)
  {
    PreparedIsFrame(data);
    FrameLength(data);
    if inited {
      if block { TxRawLog(w, true, Frame(data)); } else { SendAllLog(w, Frame(data)); }
    }
  }

  /**
   * Blocking and polled transmission agree: whenever both succeed they have written the same words, one per byte of
   * the frame, and a raw read of those words gives the frame back.
   */
  lemma {:induction false} ModesAgree(w: World, v: World, u: World, data: seq<byte>)
    requires |Frame(data)| < INDEX_RANGE
    requires Transmit(w, true, data, true).0 == Success && Transmit(v, true, data, false).0 == Success
    requires Answer(u) == Reply(Success, |Frame(data)|, ToWords(Frame(data)))
    ensures Transmit(w, true, data, true).1.log.words == w.log.words + ToWords(Frame(data))
    ensures Transmit(v, true, data, false).1.log.words == v.log.words + ToWords(Frame(data))
    ensures RxRaw(u, |Frame(data)|).0 == Ok(Frame(data))
  {
    PreparedIsFrame(data);
    TxRawLog(w, true, Frame(data));
    SendAllWords(v, Frame(data));
    RxRawOfWords(u, Frame(data));
  }

  /**
   * A successful polled transmission makes one write per byte of the frame and at most 5000 status reads for each.
   */
  lemma {:induction false} PolledTransmitBudget(w: World, data: seq<byte>)
    requires |Frame(data)| < INDEX_RANGE
    ensures var (code, w1, _) := Transmit(w, true, data, false);
            code == Success ==>
              && w1.log.puts == w.log.puts + |Frame(data)|
              && w1.log.polls <= w.log.polls + MAX_POLLS * |Frame(data)|
  {
    PreparedIsFrame(data);
    SendAllLog(w, Frame(data));
  }

  /** For example: 65534 zero bytes sent in polled mode count as sent although nothing was; blocking, they fail. */
  lemma {:induction false} LongMessageLost(w: World)
    ensures Transmit(w, true, Zeros(INDEX_RANGE - 2), false) == (Success, w, Some(0))
    ensures Transmit(w, true, Zeros(INDEX_RANGE - 2), true) == (InternalError, w, Some(0))
  {
    LongMessageVanishes();
  }
}
