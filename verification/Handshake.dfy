/**
 * The link handshake: `EComPort_Power`, `EComPort_RReboot`, `EComPort_Init` and `EComPort_Finalize`. Each is a script
 * of sends, waits and resets, run until one of them fails.
 */
module Handshake {
  import opened Types
  import opened Decoder
  import opened Hosts
  import opened Transport
  import opened Messages

  datatype ResetType = ResetNone | ResetSystem | ResetCom

  datatype PowerState = PowerOff | PowerOn

  /** `Listen` stands for reading any further bytes, as the identification response is. */
  datatype Phase = Send(b: byte) | Await(b: byte) | StartReset | EndReset | Listen

  function PowerScript(state: PowerState): seq<Phase> {
    match state
    case PowerOn => [Send(FLAG_LPH1RL), Await(FLAG_LPH1RL), Send(FLAG_LPH1RA), Await(FLAG_LPH1RA)]
    case PowerOff => [Send(FLAG_LPH1RL), Await(FLAG_LPH1RL)]
  }

  function RebootScript(): seq<Phase> {
    [Send(FLAG_LPH2RR)]
  }

  function FinalizeScript(): seq<Phase> {
    [Send(FLAG_LPH2RL), Await(FLAG_LPH2RL)] + PowerScript(PowerOff)
  }

  function ResetBefore(reset: ResetType): seq<Phase> {
    if reset.ResetSystem? then [StartReset] else []
  }

  function ResetAfter(reset: ResetType): seq<Phase> {
    match reset
    case ResetNone => []
    case ResetSystem => [EndReset]
    case ResetCom => RebootScript()
  }

  /** Link phase 2 and the identification request. */
  function LinkScript(reset: ResetType): seq<Phase> {
    [Send(FLAG_LPH2RA)] + (ResetAfter(reset) + [Await(FLAG_LPH2RA), Send(FLAG_IDR)])
  }

  /** Everything `EComPort_Init` does before it reads the identification response. */
  function InitScript(reset: ResetType): seq<Phase> {
    ResetBefore(reset) + (PowerScript(PowerOn) + LinkScript(reset))
  }

  // ---- running a script ----

  function RunPhase(w: World, ph: Phase): (ReturnCode, World) {
    match ph
    case Send(b) => SendByte(w, b)
    case Await(b) => WaitFlag(w, b)
    case StartReset => (Answer(w).code, After(w, ResetStart))
    case EndReset => (Answer(w).code, After(w, ResetFinish))
    case Listen => (Success, w)
  }

  function RunScript(w: World, script: seq<Phase>): (ReturnCode, World)
    decreases |script|
  {
    if script == [] then (Success, w)
    else
      var (code, w1) := RunPhase(w, script[0]);
      if code != Success then (code, w1) else RunScript(w1, script[1..])
  }

  /** The first phase, then the rest. */
  lemma {:induction false} RunScriptStep(w: World, script: seq<Phase>, ph: Phase, rest: seq<Phase>)
    requires script == [ph] + rest
    ensures RunScript(w, script) ==
            var (code, w1) := RunPhase(w, ph);
            if code != Success then (code, w1) else RunScript(w1, rest)
  {
    assert script[1..] == rest;
  }

  lemma {:induction false} RunScriptThen(w: World, a: seq<Phase>, b: seq<Phase>)
    ensures RunScript(w, a + b) ==
            var (code, w1) := RunScript(w, a);
            if code != Success then (code, w1) else RunScript(w1, b)
    decreases |a|
  {
    if a == [] {
      assert a + b == b;
    } else {
      assert (a + b)[0] == a[0] && (a + b)[1..] == a[1..] + b;
      var (code, w1) := RunPhase(w, a[0]);
      if code == Success { RunScriptThen(w1, a[1..], b); }
    }
  }

  datatype InitResult = InitResult(code: ReturnCode, w: World, inited: bool, buf: seq<byte>)

  /** Which reset callbacks the debugger supplied. */
  datatype Hooks = Hooks(start: bool, finish: bool)

  /** `EComPort_Init` with the identification buffer `buf`, of which `len` bytes may be used. */
  function Init(w: World, hooks: Hooks, inited: bool, reset: ResetType, buf: seq<byte>, len: nat): InitResult
    requires len <= |buf|
  {
    if reset.ResetSystem? && !(hooks.start && hooks.finish) then InitResult(InternalError, w, inited, buf)
    else
      var (code, w1) := RunScript(w, InitScript(reset));
      if code != Success then InitResult(code, w1, inited, buf)
      else
        var (rx, w2, st) := Receive(w1, FLAG_IDA, len, Fresh(buf, 0));
        if rx != Success then InitResult(rx, w2, inited, st.buf)
        else if st.actual == 0 then InitResult(TransferError, w2, inited, st.buf)
        else InitResult(Success, w2, true, st.buf)
  }

  // ---- the order of events, whatever the environment does ----

  /** `d` is what a run of `script` up to some failure shows. */
  ghost predicate Conforms(d: seq<Note>, script: seq<Phase>)
    decreases |script|, |d|
  {
    d == [] ||
    (script != [] &&
     match script[0]
     case Send(b) => d[0] == Sent(b) && Conforms(d[1..], script[1..])
     case Await(b) => d[0].Got? && (if d[0].b == b then Conforms(d[1..], script[1..]) else Conforms(d[1..], script))
     case StartReset => d[0] == ResetBegun && Conforms(d[1..], script[1..])
     case EndReset => d[0] == ResetEnded && Conforms(d[1..], script[1..])
     case Listen => if d[0].Got? then Conforms(d[1..], script) else Conforms(d, script[1..]))
  }

  /** `d` is what a run of the whole of `script` shows. */
  ghost predicate Completes(d: seq<Note>, script: seq<Phase>)
    decreases |script|, |d|
  {
    if script == [] then d == []
    else
      match script[0]
      case Send(b) => d != [] && d[0] == Sent(b) && Completes(d[1..], script[1..])
      case Await(b) =>
        d != [] && d[0].Got? && (if d[0].b == b then Completes(d[1..], script[1..]) else Completes(d[1..], script))
      case StartReset => d != [] && d[0] == ResetBegun && Completes(d[1..], script[1..])
      case EndReset => d != [] && d[0] == ResetEnded && Completes(d[1..], script[1..])
      case Listen => if d != [] && d[0].Got? then Completes(d[1..], script) else Completes(d, script[1..])
  }

  lemma {:induction false} AwaitSees(got: seq<byte>, b: byte, rest: seq<Note>, script: seq<Phase>)
    requires EndsAt(got, b, true)
    requires script != [] && script[0] == Await(b)
    ensures Conforms(rest, script[1..]) ==> Conforms(Gots(got) + rest, script)
    ensures Completes(rest, script[1..]) ==> Completes(Gots(got) + rest, script)
  {
    var d := Gots(got) + rest;
    assert d[0] == Got(got[0]);
    if |got| == 1 {
      assert d[1..] == rest;
    } else {
      assert got[0] in got[..|got| - 1];
      assert got[1..][..|got| - 2] == got[..|got| - 1][1..];
      AwaitSees(got[1..], b, rest, script);
      assert d[1..] == Gots(got[1..]) + rest;
    }
  }

  lemma {:induction false} AwaitMisses(got: seq<byte>, b: byte, script: seq<Phase>)
    requires b !in got && script != [] && script[0] == Await(b)
    ensures Conforms(Gots(got), script)
  {
    if got != [] {
      AwaitMisses(got[1..], b, script);
      assert Gots(got)[1..] == Gots(got[1..]);
    }
  }

  /** What one phase shows when it succeeds (`done`) or fails. */
  ghost predicate Shows(ph: Phase, d: seq<Note>, done: bool) {
    match ph
    case Send(b) => d == [Sent(b)] || (!done && d == [])
    case Await(b) =>
      exists got: seq<byte> ::
        d == Gots(got) && EndsAt(got, b, done)
    case StartReset => d == [ResetBegun]
    case EndReset => d == [ResetEnded]
    case Listen => exists got: seq<byte> :: d == Gots(got)
  }

  lemma {:induction false} ConformsCons(ph: Phase, d: seq<Note>, rest: seq<Note>, script: seq<Phase>)
    requires script != [] && script[0] == ph && ph != Listen && Shows(ph, d, true)
    ensures Conforms(rest, script[1..]) ==> Conforms(d + rest, script)
    ensures Completes(rest, script[1..]) ==> Completes(d + rest, script)
  {
    if ph.Await? {
      var got: seq<byte> :| d == Gots(got) && EndsAt(got, ph.b, true);
      AwaitSees(got, ph.b, rest, script);
    } else {
      assert (d + rest)[1..] == rest;
    }
  }

  lemma {:induction false} ConformsStop(ph: Phase, d: seq<Note>, script: seq<Phase>)
    requires script != [] && script[0] == ph && ph != Listen && Shows(ph, d, false)
    ensures Conforms(d, script)
  {
    if ph.Await? {
      var got: seq<byte> :| d == Gots(got) && EndsAt(got, ph.b, false);
      AwaitMisses(got, ph.b, script);
    }
  }

  /** The notes a run added. */
  function NewNotes(s: Log, t: Log): seq<Note>
    requires s.notes <= t.notes
  {
    t.notes[|s.notes|..]
  }

  lemma {:induction false} NotesChain(s: Log, t: Log, u: Log)
    requires s.notes <= t.notes <= u.notes
    ensures NewNotes(s, u) == NewNotes(s, t) + NewNotes(t, u)
  {}

  predicate Extends(s: Log, t: Log) {
    s.steps <= t.steps && s.notes <= t.notes && t.progress == s.progress
  }

  lemma {:induction false} RunPhaseShows(w: World, ph: Phase)
    requires ph != Listen
    ensures var (code, w1) := RunPhase(w, ph);
            Extends(w.log, w1.log) && Shows(ph, NewNotes(w.log, w1.log), code == Success)
  {
    var (code, w1) := RunPhase(w, ph);
    match ph {
      case Send(b) =>
        SendByteBudget(w, b);
        PollQuiet(w, ForTx, 0);
      case Await(b) =>
        var got := WaitFlagHears(w, b);
        assert NewNotes(w.log, w1.log) == Gots(got);
      case _ =>
    }
  }

  /** Every run of a script, in every environment, shows a prefix of the script, and the whole of it on success. */
  lemma {:induction false} RunScriptConforms(w: World, script: seq<Phase>)
    requires Listen !in script
    ensures var (code, w1) := RunScript(w, script);
            && Extends(w.log, w1.log)
            && Conforms(NewNotes(w.log, w1.log), script)
            && (code == Success ==> Completes(NewNotes(w.log, w1.log), script))
    decreases |script|
  {
    if script != [] {
      RunPhaseShows(w, script[0]);
      var (code, w1) := RunPhase(w, script[0]);
      var d := NewNotes(w.log, w1.log);
      if code == Success {
        RunScriptConforms(w1, script[1..]);
        var w2 := RunScript(w1, script[1..]).1;
        NotesChain(w.log, w1.log, w2.log);
        ConformsCons(script[0], d, NewNotes(w1.log, w2.log), script);
      } else {
        ConformsStop(script[0], d, script);
      }
    }
  }
}
