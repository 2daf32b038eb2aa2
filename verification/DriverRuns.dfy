/** Whole runs: any sequence of public driver calls, in any environment. */
module DriverRuns {
  import opened Types
  import opened Framing
  import opened Decoder
  import opened Hosts
  import opened Transport
  import opened Messages
  import opened Handshake
  import opened HandshakeOrder
  import opened Driver
  import opened Link

  datatype DriverCall =
    | CallInit(reset: ResetType, idLength: nat)
    | CallPower(state: PowerState)
    | CallReboot
    | CallTx(data: seq<byte>, block: bool)
    | CallRx(length: nat)
    | CallFinalize

  datatype Device = Device(w: World, inited: bool)

  /** One public call of the driver, with a buffer of its own when it takes one. */
  function DoCall(d: Device, hooks: Hooks, c: DriverCall): (ReturnCode, Device) {
    match c
    case CallInit(reset, n) =>
      var r := Init(d.w, hooks, d.inited, reset, Zeros(n), n);
      (r.code, Device(r.w, r.inited))
    case CallPower(state) =>
      var (code, w1) := RunScript(d.w, PowerScript(state));
      (code, Device(w1, d.inited))
    case CallReboot =>
      var (code, w1) := RunScript(d.w, RebootScript());
      (code, Device(w1, d.inited))
    case CallTx(data, block) =>
      var (code, w1, _) := Transmit(d.w, d.inited, data, block);
      (code, Device(w1, d.inited))
    case CallRx(n) =>
      if !d.inited then (RequestFailed, d)
      else
        var (code, w1, _) := Receive(d.w, FLAG_START, n, Fresh(Zeros(n), 0));
        (code, Device(w1, d.inited))
    case CallFinalize =>
      var (code, w1) := RunScript(d.w, FinalizeScript());
      (code, Device(w1, d.inited))
  }

  /** The same call made on the driver itself. */
  method Perform(driver: ExternalComPortDriver, c: DriverCall) returns (code: ReturnCode)
    modifies driver, driver.host
    ensures (code, Device(driver.host.State(), driver.isComPortInited)) ==
            DoCall(old(Device(driver.host.State(), driver.isComPortInited)), driver.hooks, c)
  {
    match c {
      case CallInit(reset, n) =>
        var id := new byte[n](_ => 0);
        assert id[..] == Zeros(n);
        code := driver.EComPortInit(reset, id, n);
      case CallPower(state) => code := driver.EComPortPower(state);
      case CallReboot => code := driver.EComPortRReboot();
      case CallTx(data, block) =>
        var message := new byte[|data|](i requires 0 <= i < |data| => data[i]);
        assert message[..|data|] == data;
        var sent;
        code, sent := driver.EComPortTx(message, |data|, block);
      case CallRx(n) =>
        var buffer := new byte[n](_ => 0);
        assert buffer[..] == Zeros(n);
        var got;
        code, got := driver.EComPortRx(buffer, n, 0);
      case CallFinalize => code := driver.EComPortFinalize();
    }
  }

  /** A sequence of calls made on the driver itself. */
  method PerformAll(driver: ExternalComPortDriver, calls: seq<DriverCall>)
    modifies driver, driver.host
    ensures Device(driver.host.State(), driver.isComPortInited) ==
            RunCalls(old(Device(driver.host.State(), driver.isComPortInited)), driver.hooks, calls)
  {
    var i := 0;
    ghost var d := Device(driver.host.State(), driver.isComPortInited);
    while i < |calls|
      invariant i <= |calls|
      invariant Device(driver.host.State(), driver.isComPortInited) == RunCalls(d, driver.hooks, calls[..i])
    {
      RunStep(d, driver.hooks, calls, i);
      var code := Perform(driver, calls[i]);
      i := i + 1;
    }
    assert calls[..i] == calls;
  }

  function RunCalls(d: Device, hooks: Hooks, calls: seq<DriverCall>): Device {
    if calls == [] then d
    else DoCall(RunCalls(d, hooks, calls[..|calls| - 1]), hooks, calls[|calls| - 1]).1
  }

  /** What a call may put on the wire: the whole of this on success, a prefix of it otherwise. */
  function Wire(c: DriverCall): seq<byte> {
    match c
    case CallInit(reset, _) => InitFlags(reset)
    case CallPower(state) => if state == PowerOn then [0xA7, 0xA6] else [0xA7]
    case CallReboot => [0xAA]
    case CallTx(data, _) => Frame(data)
    case CallRx(_) => []
    case CallFinalize => [0xA9, 0xA7]
  }

  predicate Encodable(c: DriverCall) {
    c.CallTx? ==> |Frame(c.data)| < INDEX_RANGE
  }

  lemma {:induction false} TwoPhases(b: byte)
    ensures SendsOf([Send(b), Await(b)]) == [b]
  {
    assert [Send(b), Await(b)][1..] == [Await(b)];
    assert SendsOf([Await(b)]) == [];
  }

  lemma {:induction false} PowerSends(state: PowerState)
    ensures SendsOf(PowerScript(state)) ==
            if state.PowerOn? then [FLAG_LPH1RL, FLAG_LPH1RA] else [FLAG_LPH1RL]
  {
    TwoPhases(FLAG_LPH1RL);
    if state.PowerOn? {
      TwoPhases(FLAG_LPH1RA);
      SendsConcat([Send(FLAG_LPH1RL), Await(FLAG_LPH1RL)], [Send(FLAG_LPH1RA), Await(FLAG_LPH1RA)]);
    }
  }

  lemma {:induction false} FinalizeSends()
    ensures SendsOf(FinalizeScript()) == [FLAG_LPH2RL, FLAG_LPH1RL]
  {
    SendsConcat([Send(FLAG_LPH2RL), Await(FLAG_LPH2RL)], PowerScript(PowerOff));
    PowerSends(PowerOff);
    TwoPhases(FLAG_LPH2RL);
  }

  lemma {:induction false} RebootSends()
    ensures SendsOf(RebootScript()) == [FLAG_LPH2RR]
  {
    assert SendsOf([]) == [] && RebootScript()[1..] == [];
  }

  lemma {:induction false} CallOffers(d: Device, hooks: Hooks, c: DriverCall)
    requires Encodable(c)
    ensures var (code, d1) := DoCall(d, hooks, c);
            && Adds(d.w.log.offered, d1.w.log.offered, Wire(c), code == Success)
            && (c.CallTx? && !d.inited ==> d1.w == d.w)
            && d1.inited == (d.inited || (c.CallInit? && code == Success))
  {
    match c
    case CallInit(reset, n) => InitOffers(d.w, hooks, d.inited, reset, Zeros(n), n);
    case CallPower(state) =>
      RunScriptOffers(d.w, PowerScript(state));
      PowerSends(state);
    case CallReboot =>
      RunScriptOffers(d.w, RebootScript());
      RebootSends();
    case CallTx(data, block) => TransmitLog(d.w, d.inited, data, block);
    case CallRx(n) => ReceiveDecodes(d.w, FLAG_START, n, Fresh(Zeros(n), 0));
    case CallFinalize =>
      RunScriptOffers(d.w, FinalizeScript());
      FinalizeSends();
  }

  /** The bytes the k-th call of a run offered. */
  ghost function Chunk(d: Device, hooks: Hooks, calls: seq<DriverCall>, k: nat): seq<byte>
    requires k < |calls|
  {
    var before := RunCalls(d, hooks, calls[..k]).w.log.offered;
    var after := RunCalls(d, hooks, calls[..k + 1]).w.log.offered;
    if before <= after then after[|before|..] else []
  }

  lemma {:induction false} RunStep(d: Device, hooks: Hooks, calls: seq<DriverCall>, k: nat)
    requires k < |calls|
    ensures RunCalls(d, hooks, calls[..k + 1]) == DoCall(RunCalls(d, hooks, calls[..k]), hooks, calls[k]).1
  {
    assert calls[..k + 1][..k] == calls[..k];
  }

  ghost predicate InitSucceedsAt(d: Device, hooks: Hooks, calls: seq<DriverCall>, j: nat) {
    j < |calls| && calls[j].CallInit? && DoCall(RunCalls(d, hooks, calls[..j]), hooks, calls[j]).0 == Success
  }

  ghost predicate InitSucceededBefore(d: Device, hooks: Hooks, calls: seq<DriverCall>, k: nat) {
    exists j: nat :: j < k && InitSucceedsAt(d, hooks, calls, j)
  }

  lemma {:induction false} SucceededBeforeNext(d: Device, hooks: Hooks, calls: seq<DriverCall>, k: nat)
    ensures InitSucceededBefore(d, hooks, calls, k + 1) <==>
            InitSucceededBefore(d, hooks, calls, k) || InitSucceedsAt(d, hooks, calls, k)
  {}

  /** A call keeps the driver initialised, and only a successful Init makes it so. */
  lemma {:induction false} CallInits(d: Device, hooks: Hooks, c: DriverCall)
    ensures DoCall(d, hooks, c).1.inited <==> d.inited || (c.CallInit? && DoCall(d, hooks, c).0 == Success)
  {}

  /** The driver counts as initialised iff it did at the start or some Init has succeeded since. */
  lemma {:induction false} InitedMeans(d: Device, hooks: Hooks, calls: seq<DriverCall>, k: nat)
    requires k <= |calls|
    ensures RunCalls(d, hooks, calls[..k]).inited <==> d.inited || InitSucceededBefore(d, hooks, calls, k)
    decreases k
  {
    if k > 0 {
      InitedMeans(d, hooks, calls, k - 1);
      InitedAfter(d, hooks, calls, k - 1);
      SucceededBeforeNext(d, hooks, calls, k - 1);
    }
  }

  /** What a call adds to the wire is a prefix of what it may send. */
  lemma {:induction false} ChunkOnWire(d: Device, hooks: Hooks, calls: seq<DriverCall>, k: nat)
    requires k < |calls| && Encodable(calls[k])
    ensures var chunk := Chunk(d, hooks, calls, k);
            var before, after := RunCalls(d, hooks, calls[..k]), RunCalls(d, hooks, calls[..k + 1]);
            && after.w.log.offered == before.w.log.offered + chunk && chunk <= Wire(calls[k])
            && (calls[k].CallTx? && !before.inited ==> chunk == [])
  {
    RunStep(d, hooks, calls, k);
    CallOffers(RunCalls(d, hooks, calls[..k]), hooks, calls[k]);
  }

  lemma {:induction false} InitedAfter(d: Device, hooks: Hooks, calls: seq<DriverCall>, j: nat)
    requires j < |calls|
    ensures RunCalls(d, hooks, calls[..j + 1]).inited <==>
            RunCalls(d, hooks, calls[..j]).inited || InitSucceedsAt(d, hooks, calls, j)
  {
    RunStep(d, hooks, calls, j);
    CallInits(RunCalls(d, hooks, calls[..j]), hooks, calls[j]);
  }

  lemma {:induction false} WireShape(c: DriverCall, b: byte)
    ensures b in Wire(c) && IsLinkFlag(b) ==> !c.CallTx? && !c.CallRx?
    ensures b in Wire(c) && b == FLAG_START ==> c.CallTx?
  {
    if c.CallTx? { FrameShape(FLAG_START, c.data); }
  }

  /**
   * Transparency over whole runs: a link flag on the wire always comes from a handshake call, a START only from a
   * transmission made after some Init had succeeded, and inside a transmission a byte in 0xA0..0xBF is the opening
   * START, the closing END, or an ESC: payload bytes in that range never go out raw.
   */
  lemma {:induction false} WireTransparency(d: Device, hooks: Hooks, calls: seq<DriverCall>, k: nat, i: nat)
    requires k < |calls| && Encodable(calls[k])
    requires i < |Chunk(d, hooks, calls, k)|
    ensures var chunk := Chunk(d, hooks, calls, k);
            var before, after := RunCalls(d, hooks, calls[..k]).w.log, RunCalls(d, hooks, calls[..k + 1]).w.log;
            && after.offered == before.offered + chunk && chunk <= Wire(calls[k])
            && (IsLinkFlag(chunk[i]) ==> !calls[k].CallTx? && !calls[k].CallRx?)
            && (chunk[i] == FLAG_START ==> calls[k].CallTx? && (d.inited || InitSucceededBefore(d, hooks, calls, k)))
            && (calls[k].CallTx? && IsFlagByte(chunk[i]) ==>
                  || (i == 0 && chunk[i] == FLAG_START)
                  || (i == |Wire(calls[k])| - 1 && chunk[i] == FLAG_END)
                  || chunk[i] == FLAG_ESC)
  {
    ChunkOnWire(d, hooks, calls, k);
    InitedMeans(d, hooks, calls, k);
    var chunk := Chunk(d, hooks, calls, k);
    assert chunk[i] == Wire(calls[k])[i];
    WireShape(calls[k], chunk[i]);
    if calls[k].CallTx? { FrameShape(FLAG_START, calls[k].data); }
  }

  // ---- overflow freedom of whole runs ----

  predicate NoWrites(s: seq<Step>, t: seq<Step>) {
    s <= t && forall i :: |s| <= i < |t| ==> !t[i].call.Write?
  }

  lemma {:induction false} WaitFlagNoWrites(w: World, flag: byte)
    ensures NoWrites(w.log.steps, WaitFlag(w, flag).1.log.steps)
    decreases |w.tape|
  {
    PollQuiet(w, ForRx, 0);
    var (r, w1) := ReadByte(w);
    if r.Ok? && r.value != flag {
      WaitFlagNoWrites(w1, flag);
    }
  }

  lemma {:induction false} ReceiveNoWrites(w: World, flag: byte, len: nat, st: RxState)
    requires len <= |st.buf|
    ensures NoWrites(w.log.steps, Receive(w, flag, len, st).1.log.steps)
    decreases |w.tape|
  {
    var (r, w1) := RxRaw(w, 1);
    if r.Ok? {
      var v := Feed(st, r.value[0], flag, len);
      if v.More? { ReceiveNoWrites(w1, flag, len, v.st); }
    }
  }

  lemma {:induction false} RunScriptDisciplined(w: World, script: seq<Phase>)
    ensures var w1 := RunScript(w, script).1;
            w.log.steps <= w1.log.steps && Disciplined(w1.log.steps, |w.log.steps|)
    decreases |script|
  {
    if script != [] {
      var (code, w1) := RunPhase(w, script[0]);
      match script[0] {
        case Send(b) => SendByteDisciplined(w, b);
        case Await(b) => WaitFlagNoWrites(w, b);
        case _ =>
      }
      if code == Success {
        RunScriptDisciplined(w1, script[1..]);
        DisciplineChains(w.log.steps, w1.log.steps, RunScript(w1, script[1..]).1.log.steps);
      }
    }
  }

  lemma {:induction false} InitDisciplined(w: World, hooks: Hooks, inited: bool, reset: ResetType, n: nat)
    ensures var w2 := Init(w, hooks, inited, reset, Zeros(n), n).w;
            w.log.steps <= w2.log.steps && Disciplined(w2.log.steps, |w.log.steps|)
  {
    var (code, w1) := RunScript(w, InitScript(reset));
    RunScriptDisciplined(w, InitScript(reset));
    ReceiveNoWrites(w1, FLAG_IDA, n, Fresh(Zeros(n), 0));
    DisciplineChains(w.log.steps, w1.log.steps, Receive(w1, FLAG_IDA, n, Fresh(Zeros(n), 0)).1.log.steps);
  }

  lemma {:induction false} CallDisciplined(d: Device, hooks: Hooks, c: DriverCall)
    ensures var d1 := DoCall(d, hooks, c).1;
            d.w.log.steps <= d1.w.log.steps && Disciplined(d1.w.log.steps, |d.w.log.steps|)
  {
    match c
    case CallInit(reset, n) => InitDisciplined(d.w, hooks, d.inited, reset, n);
    case CallPower(state) => RunScriptDisciplined(d.w, PowerScript(state));
    case CallReboot => RunScriptDisciplined(d.w, RebootScript());
    case CallTx(data, block) => SendBlockDisciplined(d.w, Prepared(data), block);
    case CallRx(n) => ReceiveNoWrites(d.w, FLAG_START, n, Fresh(Zeros(n), 0));
    case CallFinalize => RunScriptDisciplined(d.w, FinalizeScript());
  }

  lemma {:induction false} RunDisciplined(d: Device, hooks: Hooks, calls: seq<DriverCall>)
    ensures var d1 := RunCalls(d, hooks, calls);
            d.w.log.steps <= d1.w.log.steps && Disciplined(d1.w.log.steps, |d.w.log.steps|)
  {
    if calls != [] {
      var n := |calls| - 1;
      RunDisciplined(d, hooks, calls[..n]);
      var d1 := RunCalls(d, hooks, calls[..n]);
      CallDisciplined(d1, hooks, calls[n]);
      DisciplineChains(d.w.log.steps, d1.w.log.steps, DoCall(d1, hooks, calls[n]).1.w.log.steps);
    }
  }

  /**
   * No sequence of public calls overflows the TX FIFO: against every schedule in which the peer only drains it, its
   * occupancy stays within its depth after every single access of the run.
   */
  lemma {:induction false} RunNeverOverflows(d: Device, hooks: Hooks, calls: seq<DriverCall>,
                                             p: Peer, run: seq<Timed>, depth: nat, i: nat)
    requires d.w.log.steps <= RunCalls(d, hooks, calls).w.log.steps
    requires Times(run, NewSteps(d.w.log, RunCalls(d, hooks, calls).w.log)) && i <= |run|
    requires |p.queue| <= depth && HonestRun(p, run, depth)
    ensures |Play(p, run[..i]).queue| <= depth
  {
    var d1 := RunCalls(d, hooks, calls);
    var steps := NewSteps(d.w.log, d1.w.log);
    RunDisciplined(d, hooks, calls);
    DisciplinedSuffix(d.w.log.steps, d1.w.log.steps);
    NoOverflow(p, run, steps, depth, i);
  }
}
