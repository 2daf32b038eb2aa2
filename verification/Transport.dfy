/**
 * The polled and blocking register transport: status polling with a budget, raw DR and DBR accesses, single bytes,
 * blocks, and waiting for a flag. Each operation is a function of the world; the lemmas say what it leaves in the
 * log.
 */
module Transport {
  import opened Types
  import opened Hosts

  /** `MAX_NUM_OF_RETRIES` and `MAX_ATTEMPTS`. */
  const MAX_POLLS := 5000

  datatype Side = ForTx | ForRx

  predicate Ready(side: Side, st: Status) {
    if side.ForTx? then st.txFree != 0 else st.rxData != 0
  }

  predicate Faulty(st: Status) {
    st.linkErrs != 0 || st.txOverflow
  }

  /** The polling loop with `tries` retries already counted; readiness seen on poll 5001 is still a timeout. */
  function Poll(w: World, side: Side, tries: nat): (r: (ReturnCode, World))
    requires tries <= MAX_POLLS
    ensures |r.1.tape| <= |w.tape|
    ensures r.0 == Success ==> |r.1.tape| < |w.tape|
    decreases MAX_POLLS - tries, |w.tape|
  {
    var w1 := After(w, ReadSR);
    match StatusOf(Answer(w))
    case Err(code) => (code, w1)
    case Ok(st) =>
      if Faulty(st) then (IOError, w1)
      else if !Ready(side, st) && tries < MAX_POLLS then Poll(w1, side, tries + 1)
      else if tries >= MAX_POLLS then (TimeoutError, w1)
      else (Success, w1)
  }

  function TxCall(block: bool, bytes: seq<byte>): Call {
    Write(if block then DBR else DR, ToWords(bytes))
  }

  function TxRaw(w: World, block: bool, bytes: seq<byte>): (ReturnCode, World) {
    if bytes == [] then (InternalError, w)
    else (WriteCode(Answer(w), |bytes|), After(w, TxCall(block, bytes)))
  }

  function RxRaw(w: World, n: nat): (Result<seq<byte>>, World) {
    if n == 0 then (Err(InternalError), w)
    else (BytesOf(Answer(w), n), After(w, ReadDR(n)))
  }

  function SendByte(w: World, b: byte): (ReturnCode, World) {
    var (code, w1) := Poll(w, ForTx, 0);
    if code != Success then (code, w1) else TxRaw(w1, false, [b])
  }

  function SendAll(w: World, bytes: seq<byte>): (ReturnCode, World)
    decreases |bytes|
  {
    if bytes == [] then (Success, w)
    else
      var (code, w1) := SendByte(w, bytes[0]);
      if code != Success then (code, w1) else SendAll(w1, bytes[1..])
  }

  function SendBlock(w: World, bytes: seq<byte>, block: bool): (ReturnCode, World) {
    if block then TxRaw(w, true, bytes) else SendAll(w, bytes)
  }

  function ReadByte(w: World): (r: (Result<byte>, World))
    ensures |r.1.tape| <= |w.tape|
    ensures r.0.Ok? ==> |r.1.tape| < |w.tape|
  {
    var (code, w1) := Poll(w, ForRx, 0);
    if code != Success then (Err(code), w1)
    else
      match RxRaw(w1, 1)
      case (Err(c), w2) => (Err(c), w2)
      case (Ok(bytes), w2) => (Ok(bytes[0]), w2)
  }

  /** Bytes other than the flag are read and dropped. */
  function WaitFlag(w: World, flag: byte): (ReturnCode, World)
    decreases |w.tape|
  {
    match ReadByte(w)
    case (Err(code), w1) => (code, w1)
    case (Ok(b), w1) => if b == flag then (Success, w1) else WaitFlag(w1, flag)
  }

  /** The words of a frame, answered to a raw read of that many bytes, give the frame back. */
  lemma {:induction false} RxRawOfWords(w: World, bytes: seq<byte>)
    requires bytes != [] && Answer(w) == Reply(Success, |bytes|, ToWords(bytes))
    ensures RxRaw(w, |bytes|).0 == Ok(bytes)
  {
    var got := RxRaw(w, |bytes|).0.value;
    forall i | 0 <= i < |bytes| ensures got[i] == bytes[i] {
      assert ToWords(bytes)[i] == ToWord(bytes[i]);
    }
    assert got == bytes;
  }

  // ---- what the status register shows ----

  /** Bits 13, 14 and 30 of the status register. */
  predicate ErrorBits(sr: word) {
    sr / 0x2000 % 2 == 1 || sr / 0x4000 % 2 == 1 || sr / 0x4000_0000 % 2 == 1
  }

  /** Bits 7:0 of the status register. */
  function TxSpace(sr: word): nat {
    sr % 0x100
  }

  /** Bits 23:16 of the status register. */
  function RxLevel(sr: word): nat {
    sr / 0x1_0000 % 0x100
  }

  /** The reply to a status read shows a byte waiting, and no error. */
  predicate ShowsData(r: Reply) {
    Complete(r, 1) && !ErrorBits(WordAt(r, 0)) && RxLevel(WordAt(r, 0)) > 0
  }

  /** The reply to a status read shows space in the TX FIFO, and no error. */
  predicate ShowsSpace(r: Reply) {
    Complete(r, 1) && !ErrorBits(WordAt(r, 0)) && TxSpace(WordAt(r, 0)) > 0
  }

  // ---- polling ----

  predicate Idle(r: Reply, side: Side) {
    StatusOf(r).Ok? && !Faulty(StatusOf(r).value) && !Ready(side, StatusOf(r).value)
  }

  predicate Open(r: Reply, side: Side) {
    StatusOf(r).Ok? && !Faulty(StatusOf(r).value) && Ready(side, StatusOf(r).value)
  }

  /** The first `p` answers are clean but not ready, the next one is clean and ready. */
  predicate FirstOpen(tape: seq<Reply>, side: Side, p: nat) {
    p < |tape| && Open(tape[p], side) && forall i :: 0 <= i < p ==> Idle(tape[i], side)
  }

  /** Receiving waits for the RX level and sending for TX space, each whatever the other; any error bit stops both. */
  lemma {:induction false} OpenMeans(r: Reply)
    ensures Open(r, ForRx) <==> ShowsData(r)
    ensures Open(r, ForTx) <==> ShowsSpace(r)
    ensures Idle(r, ForRx) <==> Complete(r, 1) && !ErrorBits(WordAt(r, 0)) && RxLevel(WordAt(r, 0)) == 0
    ensures Idle(r, ForTx) <==> Complete(r, 1) && !ErrorBits(WordAt(r, 0)) && TxSpace(WordAt(r, 0)) == 0
  {}

  /** The reply number `i` of a tape, and the tape after `n` of them. */
  function ReplyAt(tape: seq<Reply>, i: nat): Reply {
    if i < |tape| then tape[i] else GONE
  }

  function Rest(tape: seq<Reply>, n: nat): seq<Reply> {
    if n <= |tape| then tape[n..] else []
  }

  /** What the answer `r` ends polling with; it is number `p`, counting from 0, and the first that is not idle. */
  function PollVerdict(r: Reply, p: nat): ReturnCode {
    match StatusOf(r)
    case Err(code) => code
    case Ok(st) => if Faulty(st) then IOError else if p == 5000 then TimeoutError else Success
  }

  /** In terms of the reply itself. */
  lemma {:induction false} PollVerdictMeans(r: Reply, p: nat)
    ensures PollVerdict(r, p) ==
            if r.code != Success then r.code
            else if r.completed != 1 then RequestFailed
            else if ErrorBits(WordAt(r, 0)) then IOError
            else if p == 5000 then TimeoutError
            else Success
  {}

  /** Polling with `tries` retries counted ends at answer `p`: the first that is not idle, or the loop's answer 5001. */
  predicate StopsAt(tape: seq<Reply>, side: Side, tries: nat, p: nat) {
    && tries + p <= 5000 && (forall i :: 0 <= i < p ==> Idle(ReplyAt(tape, i), side))
    && (tries + p < 5000 ==> !Idle(ReplyAt(tape, p), side))
  }

  lemma {:induction false} StopsLater(tape: seq<Reply>, later: seq<Reply>, side: Side, tries: nat, q: nat)
    requires tape != [] && later == tape[1..] && Idle(tape[0], side) && tries < 5000
    requires StopsAt(later, side, tries + 1, q)
    ensures StopsAt(tape, side, tries, q + 1)
  {
    forall i | 0 <= i < q + 1 ensures Idle(ReplyAt(tape, i), side) {
      if i > 0 { assert ReplyAt(tape, i) == ReplyAt(later, i - 1); }
    }
    assert ReplyAt(tape, q + 1) == ReplyAt(later, q);
  }

  /** A poll result that comes from stopping at answer `p`. */
  predicate EndsAtAnswer(r: (ReturnCode, World), tape: seq<Reply>, tries: nat, p: nat) {
    r.0 == PollVerdict(ReplyAt(tape, p), tries + p) && r.1.tape == Rest(tape, p + 1)
  }

  lemma {:induction false} PollGoesOn(w: World, side: Side, tries: nat)
    requires tries < MAX_POLLS && Idle(Answer(w), side)
    ensures w.tape != [] && Poll(w, side, tries) == Poll(After(w, ReadSR), side, tries + 1)
  {}

  lemma {:induction false} PollStopsHere(w: World, side: Side, tries: nat)
    requires tries <= MAX_POLLS && !(Idle(Answer(w), side) && tries < MAX_POLLS)
    ensures EndsAtAnswer(Poll(w, side, tries), w.tape, tries, 0) && StopsAt(w.tape, side, tries, 0)
  {}

  lemma {:induction false} EndsLaterBy(r: (ReturnCode, World), tape: seq<Reply>, later: seq<Reply>, tries: nat, q: nat)
    requires tape != [] && later == tape[1..] && EndsAtAnswer(r, later, tries + 1, q)
    ensures EndsAtAnswer(r, tape, tries, q + 1)
  {
    assert ReplyAt(tape, q + 1) == ReplyAt(later, q) && Rest(tape, q + 2) == Rest(later, q + 1);
  }

  /** The polling loop on every tape: where it stops, its return code, and the answers it takes. */
  lemma {:induction false} PollOutcome(w: World, side: Side, tries: nat) returns (p: nat)
    requires tries <= MAX_POLLS
    ensures StopsAt(w.tape, side, tries, p) && EndsAtAnswer(Poll(w, side, tries), w.tape, tries, p)
    decreases MAX_POLLS - tries
  {
    if Idle(Answer(w), side) && tries < MAX_POLLS {
      PollGoesOn(w, side, tries);
      var q := PollOutcome(After(w, ReadSR), side, tries + 1);
      StopsLater(w.tape, w.tape[1..], side, tries, q);
      EndsLaterBy(Poll(After(w, ReadSR), side, tries + 1), w.tape, w.tape[1..], tries, q);
      p := q + 1;
    } else {
      PollStopsHere(w, side, tries);
      p := 0;
    }
  }

  /** Sending a byte on every tape: polling as above, then one write whose short completion hides its return code. */
  lemma {:induction false} SendByteOutcome(w: World, b: byte) returns (p: nat)
    ensures StopsAt(w.tape, ForTx, 0, p)
    ensures var verdict, done := PollVerdict(ReplyAt(w.tape, p), p), ReplyAt(w.tape, p + 1);
            SendByte(w, b).0 ==
            if verdict != Success then verdict else if done.completed != 1 then RequestFailed else done.code
  {
    p := PollOutcome(w, ForTx, 0);
  }

  /** Reading a byte on every tape: polling as above, then one read whose return code hides a short completion. */
  lemma {:induction false} ReadByteOutcome(w: World) returns (p: nat)
    ensures StopsAt(w.tape, ForRx, 0, p)
    ensures var verdict, got := PollVerdict(ReplyAt(w.tape, p), p), ReplyAt(w.tape, p + 1);
            ReadByte(w).0 ==
            if verdict != Success then Err(verdict)
            else if got.code != Success then Err(got.code)
            else if got.completed != 1 then Err(RequestFailed)
            else Ok(WordAt(got, 0) % 0x100)
  {
    p := PollOutcome(w, ForRx, 0);
  }

  /**
   * In the register's own fields: with a byte waiting and no error bit the next data word is read at once, whatever
   * the TX space.
   */
  lemma {:induction false} ReadByteAtOnce(w: World, txFree: byte, level: byte, bits8: nat, bit15: bool, bits24: nat,
                                          bit31: bool, v: word)
    requires bits8 < 0x20 && bits24 < 0x40 && level > 0 && |w.tape| >= 2
    requires var sr := StatusWord(txFree, false, false, level, false, bits8, bit15, bits24, bit31);
             sr < 0x1_0000_0000 ==> w.tape[0] == Reply(Success, 1, [sr])
    requires w.tape[1] == Reply(Success, 1, [v])
    ensures ReadByte(w).0 == Ok(v % 0x100)
  {
    StatusFields(txFree, false, false, level, false, bits8, bit15, bits24, bit31);
    var p := ReadByteOutcome(w);
    OpenMeans(w.tape[0]);
  }

  /** And with none waiting the answer does not end the polling, whatever the TX space. */
  lemma {:induction false} ReadBytePollsOn(w: World, txFree: byte, bits8: nat, bit15: bool, bits24: nat, bit31: bool)
    requires bits8 < 0x20 && bits24 < 0x40 && w.tape != []
    requires var sr := StatusWord(txFree, false, false, 0, false, bits8, bit15, bits24, bit31);
             sr < 0x1_0000_0000 ==> w.tape[0] == Reply(Success, 1, [sr])
    ensures Poll(w, ForRx, 0) == Poll(After(w, ReadSR), ForRx, 1)
  {
    StatusFields(txFree, false, false, 0, false, bits8, bit15, bits24, bit31);
  }

  /** The last thing asked was the status, and it was clean and ready. */
  predicate EndsOpen(steps: seq<Step>, side: Side) {
    steps != [] && steps[|steps| - 1].call == ReadSR && Open(steps[|steps| - 1].reply, side)
  }

  /** From `s` to `t` the status register was read, and nothing else happened. */
  predicate OnlyPolls(s: Log, t: Log) {
    && s.steps <= t.steps
    && (forall i :: |s.steps| <= i < |t.steps| ==> t.steps[i].call == ReadSR)
    && t == s.(steps := t.steps, polls := s.polls + |t.steps| - |s.steps|)
  }

  /** Polling only reads the status register: at most 5001 times, and at most 5000 when it succeeds. */
  lemma {:induction false} PollQuiet(w: World, side: Side, tries: nat)
    requires tries <= MAX_POLLS
    ensures var (code, w1) := Poll(w, side, tries);
            && OnlyPolls(w.log, w1.log)
            && w1.log.polls <= w.log.polls + MAX_POLLS + 1 - tries
            && (code == Success ==>
                  && EndsOpen(w1.log.steps, side)
                  && w.log.polls < w1.log.polls <= w.log.polls + MAX_POLLS - tries)
    decreases MAX_POLLS - tries
  {
    if Idle(Answer(w), side) && tries < MAX_POLLS {
      PollQuiet(After(w, ReadSR), side, tries + 1);
    }
  }

  /** When the first ready answer comes within the budget, polling stops right there. */
  lemma {:induction false} PollStopsAt(w: World, side: Side, tries: nat, p: nat)
    requires tries + p < MAX_POLLS && FirstOpen(w.tape, side, p)
    ensures var (code, w1) := Poll(w, side, tries);
            && code == Success && w1.tape == w.tape[p + 1..]
            && w1.log.polls == w.log.polls + p + 1
    decreases p
  {
    if p > 0 {
      assert Idle(w.tape[0], side);
      var w1 := After(w, ReadSR);
      assert FirstOpen(w1.tape, side, p - 1) by {
        assert w1.tape[p - 1] == w.tape[p];
        forall i | 0 <= i < p - 1 ensures Idle(w1.tape[i], side) { assert w1.tape[i] == w.tape[i + 1]; }
      }
      PollStopsAt(w1, side, tries + 1, p - 1);
      assert w1.tape[p..] == w.tape[p + 1..];
    }
  }

  /** Polling succeeds only that way. */
  lemma {:induction false} PollSuccess(w: World, side: Side, tries: nat)
    requires tries <= MAX_POLLS
    ensures Poll(w, side, tries).0 == Success <==> exists p: nat :: tries + p < MAX_POLLS && FirstOpen(w.tape, side, p)
    decreases MAX_POLLS - tries
  {
    forall p: nat | tries + p < MAX_POLLS && FirstOpen(w.tape, side, p)
      ensures Poll(w, side, tries).0 == Success
    {
      PollStopsAt(w, side, tries, p);
    }
    if Poll(w, side, tries).0 == Success {
      if Open(Answer(w), side) {
        assert FirstOpen(w.tape, side, 0);
      } else {
        var w1 := After(w, ReadSR);
        PollSuccess(w1, side, tries + 1);
        var p: nat :| tries + 1 + p < MAX_POLLS && FirstOpen(w1.tape, side, p);
        assert FirstOpen(w.tape, side, p + 1) by {
          forall i | 0 <= i < p + 1 ensures Idle(w.tape[i], side) {
            if i > 0 { assert Idle(w1.tape[i - 1], side); }
          }
        }
      }
    }
  }

  // ---- sending ----

  lemma {:induction false} TxRawLog(w: World, block: bool, bytes: seq<byte>)
    requires bytes != []
    ensures var w1 := TxRaw(w, block, bytes).1;
            && w1.log.steps == w.log.steps + [Step(TxCall(block, bytes), Answer(w))]
            && w1.log.offered == w.log.offered + bytes
            && w1.log.notes == w.log.notes + Sents(bytes)
            && w1.log.words == w.log.words + ToWords(bytes)
            && w1.log.polls == w.log.polls && w1.log.puts == w.log.puts + 1
            && w1.log.progress == w.log.progress
  {
    WordsRoundTrip(bytes);
  }

  /**
   * A byte is written iff some poll within the first 5000 is the first to show space, with no error up to it; then
   * there is exactly one write, right after that poll, and the send succeeds iff the write does. Never more than
   * 5001 polls.
   */
  lemma {:induction false} SendByteBudget(w: World, b: byte)
    ensures var (code, w1) := SendByte(w, b);
            var space := exists p: nat :: p < MAX_POLLS && FirstOpen(w.tape, ForTx, p);
            && w.log.steps <= w1.log.steps
            && w1.log.offered == w.log.offered + (if space then [b] else [])
            && w1.log.notes == w.log.notes + (if space then [Sent(b)] else [])
            && w1.log.puts == w.log.puts + (if space then 1 else 0)
            && w1.log.polls <= w.log.polls + MAX_POLLS + (if space then 0 else 1)
            && (space ==> w1.log.steps != []
                          && EndsOpen(w1.log.steps[..|w1.log.steps| - 1], ForTx)
                          && w1.log.steps[|w1.log.steps| - 1].call == Write(DR, [0xAFAF_AF00 + b]))
            && (code == Success <==> space && Complete(Answer(Poll(w, ForTx, 0).1), 1))
  {
    PollQuiet(w, ForTx, 0);
    PollSuccess(w, ForTx, 0);
    var (code, w1) := Poll(w, ForTx, 0);
    if code == Success {
      TxRawLog(w1, false, [b]);
      assert Sents([b]) == [Sent(b)];
      assert ToWords([b]) == [0xAFAF_AF00 + b];
      assert TxRaw(w1, false, [b]).1.log.steps[..|w1.log.steps|] == w1.log.steps;
    }
  }

  /** `o1` is `o` with some prefix of `data` added, all of it when `done`. */
  predicate Adds(o: seq<byte>, o1: seq<byte>, data: seq<byte>, done: bool) {
    o <= o1 <= o + data && (done ==> o1 == o + data)
  }

  lemma {:induction false} AddsThen(o: seq<byte>, o1: seq<byte>, o2: seq<byte>, x: seq<byte>, y: seq<byte>,
                                    done: bool)
    requires Adds(o, o1, x, true) && Adds(o1, o2, y, done)
    ensures Adds(o, o2, x + y, done)
  {
    assert o + (x + y) == (o + x) + y;
  }

  lemma {:induction false} AddsLess(o: seq<byte>, o1: seq<byte>, x: seq<byte>, y: seq<byte>)
    requires Adds(o, o1, x, false)
    ensures Adds(o, o1, x + y, false)
  {
    assert o + (x + y) == (o + x) + y;
  }

  /**
   * Polled transmission offers a prefix of the data; on success all of it, in one write and at most 5000 polls a
   * byte.
   */
  lemma {:induction false} SendAllLog(w: World, bytes: seq<byte>)
    ensures var (code, w1) := SendAll(w, bytes);
            && w.log.steps <= w1.log.steps
            && Adds(w.log.offered, w1.log.offered, bytes, code == Success)
            && (code == Success ==>
                  && w1.log.puts == w.log.puts + |bytes|
                  && w1.log.polls <= w.log.polls + MAX_POLLS * |bytes|)
    decreases |bytes|
  {
    if bytes != [] {
      SendByteBudget(w, bytes[0]);
      var (code, w1) := SendByte(w, bytes[0]);
      assert [bytes[0]] + bytes[1..] == bytes;
      if code == Success {
        SendAllLog(w1, bytes[1..]);
        var (done, w2) := SendAll(w1, bytes[1..]);
        AddsThen(w.log.offered, w1.log.offered, w2.log.offered, [bytes[0]], bytes[1..], done == Success);
      } else {
        AddsLess(w.log.offered, w1.log.offered, [bytes[0]], bytes[1..]);
      }
    }
  }

  lemma {:induction false} SendByteWords(w: World, b: byte)
    requires SendByte(w, b).0 == Success
    ensures SendByte(w, b).1.log.words == w.log.words + [ToWord(b)]
  {
    PollQuiet(w, ForTx, 0);
    assert ToWords([b]) == [ToWord(b)];
  }

  lemma {:induction false} WordsThen(w0: seq<word>, w1: seq<word>, w2: seq<word>, bytes: seq<byte>)
    requires bytes != [] && w1 == w0 + [ToWord(bytes[0])] && w2 == w1 + ToWords(bytes[1..])
    ensures w2 == w0 + ToWords(bytes)
  {
    assert ToWords(bytes) == [ToWord(bytes[0])] + ToWords(bytes[1..]);
  }

  /** Polled or not, a byte goes out as one word holding it above three NULLs. */
  lemma {:induction false} SendAllWords(w: World, bytes: seq<byte>)
    requires SendAll(w, bytes).0 == Success
    ensures SendAll(w, bytes).1.log.words == w.log.words + ToWords(bytes)
    decreases |bytes|
  {
    if bytes != [] {
      var (code, w1) := SendByte(w, bytes[0]);
      SendByteWords(w, bytes[0]);
      SendAllWords(w1, bytes[1..]);
      WordsThen(w.log.words, w1.log.words, SendAll(w1, bytes[1..]).1.log.words, bytes);
    }
  }

  // ---- waiting for a flag ----

  /** Data is read only right after a clean status that showed some. */
  predicate ReadsGuarded(steps: seq<Step>, from: nat) {
    forall i :: from <= i < |steps| && steps[i].call.ReadDR? ==>
      i > from && steps[i - 1].call == ReadSR && Open(steps[i - 1].reply, ForRx)
  }

  /** Between `s` and `t` exactly `got` was received, and nothing was offered. */
  predicate Hears(s: Log, t: Log, got: seq<byte>) {
    && s.steps <= t.steps
    && t.offered == s.offered
    && t.progress == s.progress
    && t.notes == s.notes + Gots(got)
  }

  lemma {:induction false} HearsThen(s: Log, t: Log, u: Log, x: seq<byte>, y: seq<byte>)
    requires Hears(s, t, x) && Hears(t, u, y)
    ensures Hears(s, u, x + y)
  {
    assert Gots(x + y) == Gots(x) + Gots(y);
  }

  function Heard(r: Result<byte>): seq<byte> {
    if r.Ok? then [r.value] else []
  }

  lemma {:induction false} ReadByteLog(w: World)
    ensures var (r, w1) := ReadByte(w);
            && Hears(w.log, w1.log, Heard(r))
            && w1.log.polls <= w.log.polls + MAX_POLLS + 1
            && w.log.gets <= w1.log.gets
            && (r.Ok? ==> w1.log.gets == w.log.gets + 1)
            && ReadsGuarded(w1.log.steps, |w.log.steps|)
  {
    PollQuiet(w, ForRx, 0);
    var (code, w1) := Poll(w, ForRx, 0);
    assert w.log.notes + [] == w.log.notes;
    if code == Success && BytesOf(Answer(w1), 1).Ok? {
      var bytes := BytesOf(Answer(w1), 1).value;
      assert bytes == [bytes[0]];
    }
  }

  /** `got` ends at its first `flag`, or, when not `done`, holds none. */
  predicate EndsAt(got: seq<byte>, flag: byte, done: bool) {
    if done then got != [] && got[|got| - 1] == flag && flag !in got[..|got| - 1] else flag !in got
  }

  lemma {:induction false} EndsLater(b: byte, more: seq<byte>, flag: byte, done: bool)
    requires b != flag && EndsAt(more, flag, done)
    ensures EndsAt([b] + more, flag, done)
  {
    if more != [] { assert ([b] + more)[..|more|] == [b] + more[..|more| - 1]; }
  }

  /** Status reads enough for `n` bytes, and for one more that never came. */
  function WaitBudget(n: nat, done: bool): nat {
    (MAX_POLLS + 1) * (n + if done then 0 else 1)
  }

  lemma {:induction false} WaitFlagHears(w: World, flag: byte) returns (got: seq<byte>)
    ensures var (code, w1) := WaitFlag(w, flag);
            && Hears(w.log, w1.log, got)
            && EndsAt(got, flag, code == Success)
            && w1.log.polls - w.log.polls <= WaitBudget(|got|, code == Success)
    decreases |w.tape|
  {
    ReadByteLog(w);
    var (r, w1) := ReadByte(w);
    if r.Ok? && r.value != flag {
      var more := WaitFlagHears(w1, flag);
      got := [r.value] + more;
      HearsThen(w.log, w1.log, WaitFlag(w1, flag).1.log, [r.value], more);
      EndsLater(r.value, more, flag, WaitFlag(w1, flag).0 == Success);
    } else {
      got := Heard(r);
    }
  }

  lemma {:induction false} WaitFlagGuarded(w: World, flag: byte)
    ensures var w1 := WaitFlag(w, flag).1;
            w.log.steps <= w1.log.steps && ReadsGuarded(w1.log.steps, |w.log.steps|)
    decreases |w.tape|
  {
    ReadByteLog(w);
    var (r, w1) := ReadByte(w);
    if r.Ok? && r.value != flag {
      WaitFlagGuarded(w1, flag);
    }
  }

  /** Every data read comes right after a status read that showed a byte waiting and no error. */
  predicate ReadsSeeData(steps: seq<Step>, from: nat) {
    forall i :: from <= i < |steps| && steps[i].call.ReadDR? ==>
      i > from && steps[i - 1].call == ReadSR && ShowsData(steps[i - 1].reply)
  }

  /**
   * Waiting for a flag: at most 5001 polls for each byte delivered, plus 5001 for the one that did not come when the
   * wait fails; data is read only when the status showed some; and on success exactly the shortest run of bytes
   * ending in the flag is gone.
   */
  lemma {:induction false} WaitFlagMeaning(w: World, flag: byte)
    ensures var (code, w1) := WaitFlag(w, flag);
            && ReadsSeeData(w1.log.steps, |w.log.steps|)
            && exists got: seq<byte> ::
                 && Hears(w.log, w1.log, got) && EndsAt(got, flag, code == Success)
                 && w1.log.polls - w.log.polls <= WaitBudget(|got|, code == Success)
  {
    var got := WaitFlagHears(w, flag);
    WaitFlagGuarded(w, flag);
    var steps := WaitFlag(w, flag).1.log.steps;
    forall i | |w.log.steps| <= i < |steps| && steps[i].call.ReadDR?
      ensures i > |w.log.steps| && steps[i - 1].call == ReadSR && ShowsData(steps[i - 1].reply)
    {
      OpenMeans(steps[i - 1].reply);
    }
  }

  /** A wait that fails gives the code of the read that failed, after reading on past bytes that were not the flag. */
  lemma {:induction false} WaitFlagFails(w: World, flag: byte) returns (got: seq<byte>, v: World)
    requires WaitFlag(w, flag).0 != Success
    ensures Hears(w.log, v.log, got) && flag !in got
    ensures ReadByte(v) == (Err(WaitFlag(w, flag).0), WaitFlag(w, flag).1)
    decreases |w.tape|
  {
    ReadByteLog(w);
    var (r, w1) := ReadByte(w);
    if r.Err? {
      got, v := [], w;
      assert w.log.notes + Gots([]) == w.log.notes;
    } else {
      var more;
      more, v := WaitFlagFails(w1, flag);
      got := [r.value] + more;
      HearsThen(w.log, w1.log, v.log, [r.value], more);
    }
  }
}
