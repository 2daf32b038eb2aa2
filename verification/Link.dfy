/**
 * The physical link: a bounded TX FIFO that a peer drains while the driver runs, one read at a time, getting NULL
 * when it is empty. A run of the driver is laid against any schedule of peer reads; the status register tells the
 * truth about the space left, and a blocking write waits in hardware for room.
 */
module Link {
  import opened Types
  import opened Hosts
  import opened Transport

  /** What is in the FIFO, and every byte the peer's reads have returned so far. */
  datatype Peer = Peer(queue: seq<byte>, seen: seq<byte>)

  /** Peer reads before one access; how many of its words entered the FIFO, and the reads that made room for each. */
  datatype Moment = Moment(before: nat, taken: nat, gaps: seq<nat>)

  /** One access of the driver with what went on around it. */
  datatype Timed = Timed(step: Step, moment: Moment)

  function Read(p: Peer): Peer {
    if p.queue == [] then p.(seen := p.seen + [FLAG_NULL])
    else Peer(p.queue[1..], p.seen + [p.queue[0]])
  }

  function ReadMany(p: Peer, n: nat): Peer {
    if n == 0 then p else Read(ReadMany(p, n - 1))
  }

  function GapAt(gaps: seq<nat>, i: nat): nat {
    if i < |gaps| then gaps[i] else 0
  }

  /** The bytes enter one by one, each after the peer's reads in its gap. */
  function PutAll(p: Peer, bytes: seq<byte>, gaps: seq<nat>): Peer {
    if bytes == [] then p
    else
      var n := |bytes| - 1;
      var q := ReadMany(PutAll(p, bytes[..n], gaps), GapAt(gaps, n));
      q.(queue := q.queue + [bytes[n]])
  }

  /** The hardware lets a word of a blocking write in only when there is room. */
  ghost predicate Roomy(p: Peer, bytes: seq<byte>, gaps: seq<nat>, depth: nat) {
    forall n :: 0 <= n < |bytes| ==> |ReadMany(PutAll(p, bytes[..n], gaps), GapAt(gaps, n)).queue| < depth
  }

  function EnteredBy(t: Timed): seq<byte> {
    var call := t.step.call;
    if call.Write? && t.moment.taken <= |call.words| then LowBytes(call.words)[..t.moment.taken] else []
  }

  /** Only a blocking write lets the peer read between the words. */
  function GapsOf(t: Timed): seq<nat> {
    if t.step.call.Write? && t.step.call.reg.DBR? then t.moment.gaps else []
  }

  function PlayStep(p: Peer, t: Timed): Peer {
    PutAll(ReadMany(p, t.moment.before), EnteredBy(t), GapsOf(t))
  }

  function Play(p: Peer, run: seq<Timed>): Peer {
    if run == [] then p else PlayStep(Play(p, run[..|run| - 1]), run[|run| - 1])
  }

  function Entered(run: seq<Timed>): seq<byte> {
    Gather(run, EnteredBy)
  }

  /** `run` is a timing of `steps`. */
  predicate Times(run: seq<Timed>, steps: seq<Step>) {
    |run| == |steps| && forall i :: 0 <= i < |run| ==> run[i].step == steps[i]
  }

  /** How much of a write of frame bytes entered, as far as its reply tells: all of it when it is reported complete. */
  predicate Plausible(t: Timed) {
    t.step.call.Write? ==>
      && t.moment.taken <= |t.step.call.words|
      && (Complete(t.step.reply, |t.step.call.words|) ==> t.moment.taken == |t.step.call.words|)
  }

  predicate PlausibleRun(run: seq<Timed>) {
    forall i :: 0 <= i < |run| ==> Plausible(run[i])
  }

  /**
   * What the hardware guarantees about one access: a good status reading shows the space actually left; no more enters
   * than was written, and perhaps less, since the port takes the link flags for itself and a failed write may enter in
   * part; a blocking write waits for room.
   */
  ghost predicate Honest(p: Peer, t: Timed, depth: nat) {
    && (t.step.call.ReadSR? && StatusOf(t.step.reply).Ok? ==>
          StatusOf(t.step.reply).value.txFree == depth - |ReadMany(p, t.moment.before).queue|)
    && (t.step.call.Write? ==> t.moment.taken <= |t.step.call.words|)
    && (t.step.call.Write? && t.step.call.reg.DBR? ==>
          Roomy(ReadMany(p, t.moment.before), EnteredBy(t), GapsOf(t), depth))
  }

  ghost predicate HonestRun(p: Peer, run: seq<Timed>, depth: nat) {
    forall i :: 0 <= i < |run| ==> Honest(Play(p, run[..i]), run[i], depth)
  }

  predicate WritesDR(c: Call) {
    c.Write? && c.reg.DR?
  }

  /** Every write to DR is of one word and comes right after a clean status that showed space. */
  predicate Disciplined(steps: seq<Step>, from: nat) {
    forall i :: from <= i < |steps| && WritesDR(steps[i].call) ==>
      |steps[i].call.words| == 1 && i > from && steps[i - 1].call == ReadSR && Open(steps[i - 1].reply, ForTx)
  }

  function NewSteps(s: Log, t: Log): seq<Step>
    requires s.steps <= t.steps
  {
    t.steps[|s.steps|..]
  }

  // ---- occupancy ----

  lemma {:induction false} ReadsShrink(p: Peer, n: nat)
    ensures |ReadMany(p, n).queue| <= |p.queue|
    decreases n
  {
    if n > 0 { ReadsShrink(p, n - 1); }
  }

  lemma {:induction false} RoomyFits(p: Peer, bytes: seq<byte>, gaps: seq<nat>, depth: nat)
    requires |p.queue| <= depth && Roomy(p, bytes, gaps, depth)
    ensures |PutAll(p, bytes, gaps).queue| <= depth
  {}

  /** One access keeps the FIFO within its depth; a DR write because the status just before it showed space. */
  lemma {:induction false} OccupancyStep(p: Peer, t: Timed, depth: nat)
    requires |p.queue| <= depth && Honest(p, t, depth)
    requires WritesDR(t.step.call) ==> |t.step.call.words| == 1 && |p.queue| < depth
    ensures |PlayStep(p, t).queue| <= depth
  {
    var q := ReadMany(p, t.moment.before);
    ReadsShrink(p, t.moment.before);
    if t.step.call.Write? && t.step.call.reg.DBR? {
      RoomyFits(q, EnteredBy(t), GapsOf(t), depth);
    } else if EnteredBy(t) != [] {
      assert EnteredBy(t)[..0] == [];
      assert PutAll(q, EnteredBy(t), []).queue == q.queue + [EnteredBy(t)[0]];
    }
  }

  /** A status access that showed space leaves space: after it the peer only reads. */
  lemma {:induction false} SpaceRemains(p: Peer, t: Timed, depth: nat)
    requires t.step.call == ReadSR && Open(t.step.reply, ForTx) && Honest(p, t, depth)
    ensures |PlayStep(p, t).queue| < depth
  {}

  lemma {:induction false} PlayNext(p: Peer, run: seq<Timed>, n: nat)
    requires n < |run|
    ensures Play(p, run[..n + 1]) == PlayStep(Play(p, run[..n]), run[n])
  {
    assert run[..n + 1][..n] == run[..n];
  }

  /** A DR write finds room. */
  lemma {:induction false} SpaceBefore(p: Peer, run: seq<Timed>, steps: seq<Step>, n: nat, depth: nat)
    requires Times(run, steps) && n < |run| && HonestRun(p, run, depth)
    requires Disciplined(steps, 0) && WritesDR(steps[n].call)
    ensures |Play(p, run[..n]).queue| < depth
  {
    SpaceRemains(Play(p, run[..n - 1]), run[n - 1], depth);
    PlayNext(p, run, n - 1);
  }

  /** No schedule overflows the FIFO: its occupancy stays within the depth after every access. */
  lemma {:induction false} NoOverflow(p: Peer, run: seq<Timed>, steps: seq<Step>, depth: nat, n: nat)
    requires Times(run, steps) && HonestRun(p, run, depth) && n <= |run|
    requires |p.queue| <= depth && Disciplined(steps, 0)
    ensures |Play(p, run[..n]).queue| <= depth
    decreases n
  {
    if n > 0 {
      NoOverflow(p, run, steps, depth, n - 1);
      if WritesDR(steps[n - 1].call) { SpaceBefore(p, run, steps, n - 1, depth); }
      OccupancyStep(Play(p, run[..n - 1]), run[n - 1], depth);
      PlayNext(p, run, n - 1);
    }
  }

  // ---- the driver is disciplined ----

  lemma {:induction false} SendByteDisciplined(w: World, b: byte)
    ensures var w1 := SendByte(w, b).1;
            w.log.steps <= w1.log.steps && Disciplined(w1.log.steps, |w.log.steps|)
  {
    PollQuiet(w, ForTx, 0);
    var (code, w1) := Poll(w, ForTx, 0);
    if code == Success {
      TxRawLog(w1, false, [b]);
    }
  }

  lemma {:induction false} DisciplineChains(s: seq<Step>, t: seq<Step>, u: seq<Step>)
    requires s <= t <= u && Disciplined(t, |s|) && Disciplined(u, |t|)
    ensures Disciplined(u, |s|)
  {
    forall i | |s| <= i < |u| && WritesDR(u[i].call)
      ensures |u[i].call.words| == 1 && i > |s| && u[i - 1].call == ReadSR && Open(u[i - 1].reply, ForTx)
    {
      if i < |t| { assert t[i] == u[i]; }
    }
  }

  lemma {:induction false} SendAllDisciplined(w: World, bytes: seq<byte>)
    ensures var w1 := SendAll(w, bytes).1;
            w.log.steps <= w1.log.steps && Disciplined(w1.log.steps, |w.log.steps|)
    decreases |bytes|
  {
    if bytes != [] {
      SendByteDisciplined(w, bytes[0]);
      var (code, w1) := SendByte(w, bytes[0]);
      if code == Success {
        SendAllDisciplined(w1, bytes[1..]);
        DisciplineChains(w.log.steps, w1.log.steps, SendAll(w1, bytes[1..]).1.log.steps);
      }
    }
  }

  /** One word to DR: a byte, with NULLs above it. */
  predicate IsByteWrite(c: Call) {
    c.Write? && c.reg == DR && |c.words| == 1 && 0xAFAF_AF00 <= c.words[0] <= 0xAFAF_AFFF
  }

  /** Every write is of one byte to DR, right after a status that showed space and no error. */
  predicate WritesByBytes(steps: seq<Step>, from: nat) {
    forall i :: from <= i < |steps| && steps[i].call.Write? ==>
      && IsByteWrite(steps[i].call) && i > from && steps[i - 1].call == ReadSR && ShowsSpace(steps[i - 1].reply)
  }

  lemma {:induction false} SendByteWrites(w: World, b: byte)
    ensures var w1 := SendByte(w, b).1;
            w.log.steps <= w1.log.steps && WritesByBytes(w1.log.steps, |w.log.steps|)
  {
    PollQuiet(w, ForTx, 0);
    var (code, w1) := Poll(w, ForTx, 0);
    if code == Success {
      TxRawLog(w1, false, [b]);
      assert ToWords([b]) == [0xAFAF_AF00 + b];
      WriteAfterPolls(w.log.steps, w1.log.steps, Step(TxCall(false, [b]), Answer(w1)));
    }
  }

  lemma {:induction false} WriteAfterPolls(s: seq<Step>, t: seq<Step>, write: Step)
    requires s < t && (forall i :: |s| <= i < |t| ==> t[i].call == ReadSR) && EndsOpen(t, ForTx)
    requires IsByteWrite(write.call)
    ensures WritesByBytes(t + [write], |s|)
  {
    OpenMeans(t[|t| - 1].reply);
  }

  lemma {:induction false} ByBytesChains(s: seq<Step>, t: seq<Step>, u: seq<Step>)
    requires s <= t <= u && WritesByBytes(t, |s|) && WritesByBytes(u, |t|)
    ensures WritesByBytes(u, |s|)
  {
    forall i | |s| <= i < |u| && u[i].call.Write?
      ensures IsByteWrite(u[i].call) && i > |s| && u[i - 1].call == ReadSR && ShowsSpace(u[i - 1].reply)
    {
      if i < |t| { assert t[i] == u[i]; }
    }
  }

  lemma {:induction false} SendAllWrites(w: World, bytes: seq<byte>)
    ensures var w1 := SendAll(w, bytes).1;
            w.log.steps <= w1.log.steps && WritesByBytes(w1.log.steps, |w.log.steps|)
    decreases |bytes|
  {
    if bytes != [] {
      SendByteWrites(w, bytes[0]);
      var (code, w1) := SendByte(w, bytes[0]);
      if code == Success {
        SendAllWrites(w1, bytes[1..]);
        ByBytesChains(w.log.steps, w1.log.steps, SendAll(w1, bytes[1..]).1.log.steps);
      }
    }
  }

  /**
   * Where the bytes go: polled, every write is to DR, a byte at a time, each right after a status showing space;
   * blocking, there is one write, to DBR, of one word per byte.
   */
  lemma {:induction false} SendBlockWrites(w: World, bytes: seq<byte>, block: bool)
    ensures var w1 := SendBlock(w, bytes, block).1;
            && w.log.steps <= w1.log.steps
            && (!block ==> WritesByBytes(w1.log.steps, |w.log.steps|))
            && (block && bytes != [] ==>
                  var call := w1.log.steps[|w1.log.steps| - 1].call;
                  && |w1.log.steps| == |w.log.steps| + 1 && call.Write? && call.reg == DBR
                  && |call.words| == |bytes|
                  && forall i :: 0 <= i < |bytes| ==> call.words[i] == 0xAFAF_AF00 + (bytes[i] as int))
  {
    if block {
      if bytes != [] { TxRawLog(w, true, bytes); }
    } else {
      SendAllWrites(w, bytes);
    }
  }

  lemma {:induction false} SendBlockDisciplined(w: World, bytes: seq<byte>, block: bool)
    ensures var w1 := SendBlock(w, bytes, block).1;
            w.log.steps <= w1.log.steps && Disciplined(w1.log.steps, |w.log.steps|)
  {
    if block {
      if bytes != [] { TxRawLog(w, true, bytes); }
    } else {
      SendAllDisciplined(w, bytes);
    }
  }

  lemma {:induction false} DisciplinedSuffix(s: seq<Step>, t: seq<Step>)
    requires s <= t && Disciplined(t, |s|)
    ensures Disciplined(t[|s|..], 0)
  {
    var u := t[|s|..];
    forall i | 0 <= i < |u| && WritesDR(u[i].call)
      ensures |u[i].call.words| == 1 && i > 0 && u[i - 1].call == ReadSR && Open(u[i - 1].reply, ForTx)
    {
      assert t[|s| + i] == u[i];
      assert t[|s| + i - 1] == u[i - 1];
    }
  }

  // ---- what enters ----

  lemma {:induction false} EnteredConcat(r: seq<Timed>, s: seq<Timed>)
    ensures Entered(r + s) == Entered(r) + Entered(s)
  {
    GatherConcat(r, s, EnteredBy);
  }

  lemma {:induction false} EnteredOne(t: Timed)
    ensures Entered([t]) == EnteredBy(t)
  {
    GatherOne(t, EnteredBy);
  }

  lemma {:induction false} PollsEnterNothing(run: seq<Timed>)
    requires forall i :: 0 <= i < |run| ==> run[i].step.call == ReadSR
    ensures Entered(run) == []
  {
    if run != [] { PollsEnterNothing(run[..|run| - 1]); }
  }

  /** A timed write of `bytes`: a prefix enters, everything when it is reported complete. */
  lemma {:induction false} WriteEnters(t: Timed, block: bool, bytes: seq<byte>)
    requires t.step.call == TxCall(block, bytes) && Plausible(t)
    ensures EnteredBy(t) <= bytes
    ensures Complete(t.step.reply, |bytes|) ==> EnteredBy(t) == bytes
  {
    WordsRoundTrip(bytes);
    assert bytes[..|bytes|] == bytes;
  }

  lemma {:induction false} SendByteEnters(w: World, b: byte, run: seq<Timed>)
    requires w.log.steps <= SendByte(w, b).1.log.steps
    requires Times(run, NewSteps(w.log, SendByte(w, b).1.log)) && PlausibleRun(run)
    ensures Entered(run) <= [b]
    ensures SendByte(w, b).0 == Success ==> Entered(run) == [b]
  {
    PollQuiet(w, ForTx, 0);
    var (code, w1) := Poll(w, ForTx, 0);
    if code != Success {
      PollsEnterNothing(run);
    } else {
      TxRawLog(w1, false, [b]);
      var n := |run| - 1;
      assert run == run[..n] + [run[n]];
      PollsEnterNothing(run[..n]);
      EnteredConcat(run[..n], [run[n]]);
      EnteredOne(run[n]);
      WriteEnters(run[n], false, [b]);
    }
  }

  /** Polled: what enters is a prefix of the data in order, all of it on success. */
  lemma {:induction false} SendAllEnters(w: World, bytes: seq<byte>, run: seq<Timed>)
    requires w.log.steps <= SendAll(w, bytes).1.log.steps
    requires Times(run, NewSteps(w.log, SendAll(w, bytes).1.log)) && PlausibleRun(run)
    ensures Entered(run) <= bytes
    ensures SendAll(w, bytes).0 == Success ==> Entered(run) == bytes
    decreases |bytes|
  {
    if bytes != [] {
      SendByteDisciplined(w, bytes[0]);
      var (code, w1) := SendByte(w, bytes[0]);
      var n := |w1.log.steps| - |w.log.steps|;
      if code != Success {
        SendByteEnters(w, bytes[0], run);
      } else {
        SendAllDisciplined(w1, bytes[1..]);
        TimesSplit(w.log, w1.log, SendAll(w1, bytes[1..]).1.log, run);
        SendByteEnters(w, bytes[0], run[..n]);
        SendAllEnters(w1, bytes[1..], run[n..]);
        EntersThen(run, n, bytes);
      }
    }
  }

  lemma {:induction false} TimesSplit(s: Log, t: Log, u: Log, run: seq<Timed>)
    requires s.steps <= t.steps <= u.steps && Times(run, NewSteps(s, u))
    ensures var n := |t.steps| - |s.steps|; Times(run[..n], NewSteps(s, t)) && Times(run[n..], NewSteps(t, u))
  {
    var n := |t.steps| - |s.steps|;
    assert NewSteps(s, u) == NewSteps(s, t) + NewSteps(t, u);
    forall i | 0 <= i < |run| - n ensures run[n..][i].step == NewSteps(t, u)[i] {
      assert run[n + i].step == NewSteps(s, u)[n + i];
    }
  }

  lemma {:induction false} EntersThen(run: seq<Timed>, n: nat, bytes: seq<byte>)
    requires n <= |run| && bytes != []
    requires Entered(run[..n]) == [bytes[0]] && Entered(run[n..]) <= bytes[1..]
    ensures Entered(run) <= bytes
    ensures Entered(run[n..]) == bytes[1..] ==> Entered(run) == bytes
  {
    assert run == run[..n] + run[n..];
    EnteredConcat(run[..n], run[n..]);
    assert bytes == [bytes[0]] + bytes[1..];
  }

  lemma {:induction false} SendBlockEnters(w: World, bytes: seq<byte>, block: bool, run: seq<Timed>)
    requires bytes != []
    requires w.log.steps <= SendBlock(w, bytes, block).1.log.steps
    requires Times(run, NewSteps(w.log, SendBlock(w, bytes, block).1.log)) && PlausibleRun(run)
    ensures Entered(run) <= bytes
    ensures SendBlock(w, bytes, block).0 == Success ==> Entered(run) == bytes
  {
    if block {
      TxRawLog(w, true, bytes);
      assert run == [run[0]];
      EnteredOne(run[0]);
      WriteEnters(run[0], true, bytes);
    } else {
      SendAllEnters(w, bytes, run);
    }
  }
}
