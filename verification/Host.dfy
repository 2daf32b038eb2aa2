/**
 * The debugger that hosts the library, seen through the callbacks it passes in: 32-bit register accesses on the
 * COM port, target reset start and finish, and progress updates. What the callbacks answer is an arbitrary finite
 * tape of replies; once it is used up every access fails. Everything the library asked, with the answers, is logged.
 */
module Hosts {
  import opened Types

  /** The data register (one write per call from software) and the blocking data register (hardware flow control). */
  datatype Reg = DR | DBR

  datatype Call =
    | ReadSR
    | ReadDR(count: nat)
    | Write(reg: Reg, words: seq<word>)
    | ResetStart
    | ResetFinish
    | Progress(percent: nat)

  /** A callback's return code, `accessesCompleted`, and the words stored through the access list. */
  datatype Reply = Reply(code: ReturnCode, completed: nat, words: seq<word>)

  datatype Step = Step(call: Call, reply: Reply)

  const GONE := Reply(RequestFailed, 0, [])

  // ---- reading a reply ----

  datatype Status = Status(txFree: byte, txOverflow: bool, rxData: byte, linkErrs: byte)

  /** A value the callback did not store stays zero. */
  function WordAt(r: Reply, i: nat): word {
    if i < |r.words| then r.words[i] else 0
  }

  /** SR[7:0] TX space, SR[13] TX overflow, SR[23:16] RX level, SR[14] and SR[30] link errors. */
  function StatusBits(sr: word): Status {
    Status(
      sr % 0x100,
      sr / 0x2000 % 2 == 1,
      sr / 0x1_0000 % 0x100,
      (sr / 0x4000 % 2) + 2 * (sr / 0x4000_0000 % 2))
  }

  function Bit(b: bool): nat {
    if b then 1 else 0
  }

  /** A status register value put together from its fields; the `bits` are the ones the driver ignores. */
  function StatusWord(txFree: byte, txOverflow: bool, txError: bool, rxData: byte, rxError: bool,
                      bits8: nat, bit15: bool, bits24: nat, bit31: bool): nat
  {
    txFree + 0x100 * bits8 + 0x2000 * Bit(txOverflow) + 0x4000 * Bit(txError) + 0x8000 * Bit(bit15)
    + 0x1_0000 * rxData + 0x100_0000 * bits24 + 0x4000_0000 * Bit(rxError) + 0x8000_0000 * Bit(bit31)
  }

  /** Whatever the other bits are, the four fields are read from where the register holds them. */
  lemma {:induction false} StatusFields(txFree: byte, txOverflow: bool, txError: bool, rxData: byte, rxError: bool,
                                        bits8: nat, bit15: bool, bits24: nat, bit31: bool)
    requires bits8 < 0x20 && bits24 < 0x40
    ensures var sr := StatusWord(txFree, txOverflow, txError, rxData, rxError, bits8, bit15, bits24, bit31);
            && sr < 0x1_0000_0000
            && StatusBits(sr) == Status(txFree, txOverflow, rxData, Bit(txError) + 2 * Bit(rxError))
  {
    var sr := StatusWord(txFree, txOverflow, txError, rxData, rxError, bits8, bit15, bits24, bit31);
    var high16 := rxData + 0x100 * (bits24 + 0x40 * Bit(rxError) + 0x80 * Bit(bit31));
    var high14 := Bit(txError) + 2 * Bit(bit15) + 4 * high16;
    LowFields(sr, txFree, bits8, txOverflow, high14);
    TopField(high14, txError, Bit(bit15) + 2 * high16);
    Split(sr, 0x4000, high14, txFree + 0x100 * bits8 + 0x2000 * Bit(txOverflow));
    Split(sr, 0x1_0000, high16,
          txFree + 0x100 * bits8 + 0x2000 * Bit(txOverflow) + 0x4000 * Bit(txError) + 0x8000 * Bit(bit15));
    Split(high16, 0x100, bits24 + 0x40 * Bit(rxError) + 0x80 * Bit(bit31), rxData);
    Split(sr, 0x4000_0000, Bit(rxError) + 2 * Bit(bit31), sr - 0x4000_0000 * (Bit(rxError) + 2 * Bit(bit31)));
    TopField(Bit(rxError) + 2 * Bit(bit31), rxError, Bit(bit31));
  }

  lemma {:induction false} LowFields(sr: nat, txFree: byte, bits8: nat, txOverflow: bool, high14: nat)
    requires bits8 < 0x20 && sr == txFree + 0x100 * bits8 + 0x2000 * Bit(txOverflow) + 0x4000 * high14
    ensures sr % 0x100 == txFree && sr / 0x2000 % 2 == Bit(txOverflow)
  {
    var high13 := Bit(txOverflow) + 2 * high14;
    Split(sr, 0x100, bits8 + 0x20 * high13, txFree);
    Split(sr, 0x2000, high13, txFree + 0x100 * bits8);
    Split(high13, 2, high14, Bit(txOverflow));
  }

  lemma {:induction false} TopField(v: nat, low: bool, high: nat)
    requires v == Bit(low) + 2 * high
    ensures v % 2 == Bit(low)
  {
    Split(v, 2, high, Bit(low));
  }

  /** A quotient and remainder are the only ones. */
  lemma {:induction false} Split(v: int, m: int, q: int, r: int)
    requires m > 0 && v == q * m + r && 0 <= r < m
    ensures v / m == q && v % m == r
  {
    var d := v / m - q;
    assert m * (v / m) + v % m == v;
    Multiple(m, d, r - v % m);
  }

  lemma {:induction false} Multiple(m: int, d: int, x: int)
    requires m > 0 && m * d == x && -m < x < m
    ensures d == 0
  {
    AtLeastOnce(m, d);
  }

  lemma {:induction false} AtLeastOnce(m: int, d: int)
    requires m > 0
    ensures d > 0 ==> m * d >= m
    ensures d < 0 ==> m * d <= -m
  {
    if d > 0 {
      assert m * (d - 1) >= 0;
    } else if d < 0 {
      assert m * (-d - 1) >= 0;
    }
  }

  /** A reply that reports `n` accesses done and nothing wrong. */
  predicate Complete(r: Reply, n: nat) {
    r.code == Success && r.completed == n
  }

  function StatusOf(r: Reply): Result<Status> {
    if r.code != Success then Err(r.code)
    else if r.completed != 1 then Err(RequestFailed)
    else Ok(StatusBits(WordAt(r, 0)))
  }

  /** `n` bytes read from DR: a failed call is reported before a short one. */
  function BytesOf(r: Reply, n: nat): Result<seq<byte>> {
    if r.code != Success then Err(r.code)
    else if r.completed != n then Err(RequestFailed)
    else Ok(seq(n, i requires i >= 0 => WordAt(r, i) % 0x100))
  }

  /** `n` words written: the completed count is looked at before the return code. */
  function WriteCode(r: Reply, n: nat): ReturnCode {
    if r.completed != n then RequestFailed else r.code
  }

  /** Only the low byte carries data; the rest of the word is NULL bytes. */
  function ToWord(b: byte): word {
    0xAFAF_AF00 + b
  }

  function ToWords(bytes: seq<byte>): (ws: seq<word>)
    ensures |ws| == |bytes|
  {
    seq(|bytes|, i requires 0 <= i < |bytes| => ToWord(bytes[i]))
  }

  function LowBytes(ws: seq<word>): (bytes: seq<byte>)
    ensures |bytes| == |ws|
  {
    seq(|ws|, i requires 0 <= i < |ws| => ws[i] % 0x100)
  }

  lemma {:induction false} WordsRoundTrip(bytes: seq<byte>)
    ensures LowBytes(ToWords(bytes)) == bytes
  {
    forall i | 0 <= i < |bytes| ensures LowBytes(ToWords(bytes))[i] == bytes[i] {
      assert ToWords(bytes)[i] == ToWord(bytes[i]);
    }
  }

  // ---- the log ----

  /** The externally meaningful events: bytes offered to TX, bytes received, and resets. */
  datatype Note = Sent(b: byte) | Got(b: byte) | ResetBegun | ResetEnded

  function Sents(bytes: seq<byte>): (ns: seq<Note>)
    ensures |ns| == |bytes|
  {
    seq(|bytes|, i requires 0 <= i < |bytes| => Sent(bytes[i]))
  }

  function Gots(bytes: seq<byte>): (ns: seq<Note>)
    ensures |ns| == |bytes|
  {
    seq(|bytes|, i requires 0 <= i < |bytes| => Got(bytes[i]))
  }

  function NotesOf(s: Step): seq<Note> {
    match s.call
    case Write(_, words) => Sents(LowBytes(words))
    case ReadDR(n) => (match BytesOf(s.reply, n) case Ok(bytes) => Gots(bytes) case Err(_) => [])
    case ResetStart => [ResetBegun]
    case ResetFinish => [ResetEnded]
    case _ => []
  }

  /** Every byte handed to a TX register, whatever the callback answered. */
  function OfferedBy(s: Step): seq<byte> {
    if s.call.Write? then LowBytes(s.call.words) else []
  }

  /**
   * The steps taken, with running views of them: the notes, the bytes offered to TX and the words that carried them,
   * the progress values, and how many status reads, data reads and data writes there were.
   */
  datatype Log = Log(steps: seq<Step>, notes: seq<Note>, offered: seq<byte>, words: seq<word>,
                     progress: seq<nat>, polls: nat, gets: nat, puts: nat)

  const EMPTY_LOG := Log([], [], [], [], [], 0, 0, 0)

  function Record(log: Log, s: Step): Log {
    Log(
      log.steps + [s],
      log.notes + NotesOf(s),
      log.offered + OfferedBy(s),
      if s.call.Write? then log.words + s.call.words else log.words,
      if s.call.Progress? then log.progress + [s.call.percent] else log.progress,
      log.polls + (if s.call.ReadSR? then 1 else 0),
      log.gets + (if s.call.ReadDR? then 1 else 0),
      log.puts + (if s.call.Write? then 1 else 0))
  }

  /** The log of a list of steps; every log grown by `Record` from the empty one is of this form. */
  function LogOf(steps: seq<Step>): Log {
    if steps == [] then EMPTY_LOG else Record(LogOf(steps[..|steps| - 1]), steps[|steps| - 1])
  }

  predicate Faithful(log: Log) {
    log == LogOf(log.steps)
  }

  lemma {:induction false} RecordFaithful(log: Log, s: Step)
    requires Faithful(log)
    ensures Faithful(Record(log, s))
  {
    assert (log.steps + [s])[..|log.steps|] == log.steps;
  }

  function WordsOf(s: Step): seq<word> {
    if s.call.Write? then s.call.words else []
  }

  function PercentOf(s: Step): seq<nat> {
    if s.call.Progress? then [s.call.percent] else []
  }

  /** How many of the steps make a call of this kind. */
  function Count(steps: seq<Step>, kind: Call -> bool): nat {
    if steps == [] then 0
    else Count(steps[..|steps| - 1], kind) + if kind(steps[|steps| - 1].call) then 1 else 0
  }

  /** The views of a faithful log say what its steps say. */
  lemma {:induction false} FaithfulViews(steps: seq<Step>)
    ensures var log := LogOf(steps);
            && log.steps == steps
            && log.notes == Gather(steps, NotesOf)
            && log.offered == Gather(steps, OfferedBy)
            && log.words == Gather(steps, WordsOf)
            && log.progress == Gather(steps, PercentOf)
            && log.polls == Count(steps, (c: Call) => c.ReadSR?)
            && log.gets == Count(steps, (c: Call) => c.ReadDR?)
            && log.puts == Count(steps, (c: Call) => c.Write?)
  {
    if steps != [] {
      FaithfulViews(steps[..|steps| - 1]);
    }
  }

  // ---- the world ----

  datatype World = World(tape: seq<Reply>, log: Log)

  function Answer(w: World): Reply {
    if w.tape == [] then GONE else w.tape[0]
  }

  function After(w: World, c: Call): World {
    World(if w.tape == [] then [] else w.tape[1..], Record(w.log, Step(c, Answer(w))))
  }

  /** A progress update has no answer. */
  function Told(w: World, percent: nat): World {
    World(w.tape, Record(w.log, Step(Progress(percent), Reply(Success, 0, []))))
  }

  class Host {
    var tape: seq<Reply>
    ghost var log: Log

    ghost function State(): World
      reads this
    {
      World(tape, log)
    }

    constructor (tape: seq<Reply>)
      ensures State() == World(tape, EMPTY_LOG) && Faithful(log)
    {
      this.tape := tape;
      this.log := EMPTY_LOG;
    }

    /** Every callback that answers. */
    method Invoke(c: Call) returns (r: Reply)
      modifies this
      ensures r == Answer(old(State())) && State() == After(old(State()), c)
      ensures old(Faithful(log)) ==> Faithful(log)
    {
      r := GONE;
      if tape != [] {
        r := tape[0];
        tape := tape[1..];
      }
      if Faithful(log) { RecordFaithful(log, Step(c, r)); }
      log := Record(log, Step(c, r));
    }

    method UpdateProgress(percent: nat)
      modifies this
      ensures State() == Told(old(State()), percent)
      ensures old(Faithful(log)) ==> Faithful(log)
    {
      if Faithful(log) { RecordFaithful(log, Step(Progress(percent), Reply(Success, 0, []))); }
      log := Record(log, Step(Progress(percent), Reply(Success, 0, [])));
    }
  }
}
