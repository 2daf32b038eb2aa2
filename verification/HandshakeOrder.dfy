/** What the handshake does on the wire, and in which order, in every environment. */
module HandshakeOrder {
  import opened Types
  import opened Decoder
  import opened Hosts
  import opened Transport
  import opened Messages
  import opened Handshake

  // ---- reading a conforming dialogue ----

  /** The notes a phase marks the moment it starts acting. */
  predicate Marks(ph: Phase, n: Note) {
    match ph
    case Send(b) => n == Sent(b)
    case StartReset => n == ResetBegun
    case EndReset => n == ResetEnded
    case _ => false
  }

  /** Whatever was sent or reset at some moment, everything the script puts before it had completed by then. */
  lemma {:induction false} EarlierPhasesDone(d: seq<Note>, script: seq<Phase>, i: nat) returns (k: nat)
    requires Conforms(d, script) && i < |d| && !d[i].Got?
    ensures k < |script| && Marks(script[k], d[i]) && Completes(d[..i], script[..k])
    decreases |script|, |d|
  {
    var n := d[i];
    if (script[0].Await? && d[0].b != script[0].b) || (script[0].Listen? && d[0].Got?) {
      k := EarlierPhasesDone(d[1..], script, i - 1);
      assert d[1..][..i - 1] == d[..i][1..];
      assert script[..k][0] == script[0];
    } else if script[0].Listen? {
      k := EarlierPhasesDone(d, script[1..], i);
      k := k + 1;
      assert script[..k][1..] == script[1..][..k - 1];
    } else if i == 0 {
      k := 0;
    } else {
      k := EarlierPhasesDone(d[1..], script[1..], i - 1);
      k := k + 1;
      assert d[1..][..i - 1] == d[..i][1..];
      assert script[..k][1..] == script[1..][..k - 1];
    }
  }

  /**
   * A completed dialogue ends with what its last phase ends with, and starts with what its first phase starts
   * with.
   */
  lemma {:induction false} CompletedEnds(d: seq<Note>, script: seq<Phase>)
    requires script != [] && Listen !in script && Completes(d, script)
    ensures d != []
    ensures script[|script| - 1].Await? ==> d[|d| - 1] == Got(script[|script| - 1].b)
    ensures !script[|script| - 1].Await? ==> Marks(script[|script| - 1], d[|d| - 1])
    ensures !script[0].Await? ==> Marks(script[0], d[0])
    decreases |script|, |d|
  {
    assert script[0] in script;
    if script[0].Await? && d[0].b != script[0].b {
      CompletedEnds(d[1..], script);
    } else if |script| > 1 {
      assert script[1..][|script| - 2] == script[|script| - 1];
      forall ph | ph in script[1..] ensures ph in script {}
      CompletedEnds(d[1..], script[1..]);
    }
  }

  // ---- Init ----

  /** The flags `EComPort_Init` transmits, in order. */
  function InitFlags(reset: ResetType): seq<byte> {
    [0xA7, 0xA6, 0xA8] + (if reset.ResetCom? then [0xAA] else []) + [0xA0]
  }

  function SendsOf(script: seq<Phase>): seq<byte> {
    if script == [] then []
    else (if script[0].Send? then [script[0].b] else []) + SendsOf(script[1..])
  }

  lemma {:induction false} RunScriptOffers(w: World, script: seq<Phase>)
    ensures var (code, w1) := RunScript(w, script);
            Adds(w.log.offered, w1.log.offered, SendsOf(script), code == Success)
    decreases |script|
  {
    if script != [] {
      var (code, w1) := RunPhase(w, script[0]);
      var sent := if script[0].Send? then [script[0].b] else [];
      match script[0] {
        case Send(b) => SendByteBudget(w, b);
        case Await(b) => var got := WaitFlagHears(w, b);
        case _ =>
      }
      assert Adds(w.log.offered, w1.log.offered, sent, code == Success);
      if code == Success {
        RunScriptOffers(w1, script[1..]);
        var (done, w2) := RunScript(w1, script[1..]);
        AddsThen(w.log.offered, w1.log.offered, w2.log.offered, sent, SendsOf(script[1..]), done == Success);
      } else {
        AddsLess(w.log.offered, w1.log.offered, sent, SendsOf(script[1..]));
      }
    }
  }

  /** The script written out. */
  function InitSteps(reset: ResetType): seq<Phase> {
    match reset
    case ResetNone =>
      [Send(FLAG_LPH1RL), Await(FLAG_LPH1RL), Send(FLAG_LPH1RA), Await(FLAG_LPH1RA),
       Send(FLAG_LPH2RA), Await(FLAG_LPH2RA), Send(FLAG_IDR)]
    case ResetSystem =>
      [StartReset, Send(FLAG_LPH1RL), Await(FLAG_LPH1RL), Send(FLAG_LPH1RA), Await(FLAG_LPH1RA),
       Send(FLAG_LPH2RA), EndReset, Await(FLAG_LPH2RA), Send(FLAG_IDR)]
    case ResetCom =>
      [Send(FLAG_LPH1RL), Await(FLAG_LPH1RL), Send(FLAG_LPH1RA), Await(FLAG_LPH1RA),
       Send(FLAG_LPH2RA), Send(FLAG_LPH2RR), Await(FLAG_LPH2RA), Send(FLAG_IDR)]
  }

  lemma {:induction false} InitScriptSteps(reset: ResetType)
    ensures InitScript(reset) == InitSteps(reset)
  {}

  lemma {:induction false} SendsConcat(a: seq<Phase>, b: seq<Phase>)
    ensures SendsOf(a + b) == SendsOf(a) + SendsOf(b)
  {
    if a == [] {
      assert a + b == b;
    } else {
      assert (a + b)[0] == a[0] && (a + b)[1..] == a[1..] + b;
      SendsConcat(a[1..], b);
    }
  }

  lemma {:induction false} SendsOfInit(reset: ResetType)
    ensures SendsOf(InitScript(reset)) == InitFlags(reset)
  {
    var on, link, ask := PowerScript(PowerOn), [Send(FLAG_LPH2RA)], [Await(FLAG_LPH2RA), Send(FLAG_IDR)];
    SendsConcat(ResetBefore(reset), on + LinkScript(reset));
    SendsConcat(on, LinkScript(reset));
    SendsConcat(link, ResetAfter(reset) + ask);
    SendsConcat(ResetAfter(reset), ask);
    assert on[1..] == [Await(FLAG_LPH1RL), Send(FLAG_LPH1RA), Await(FLAG_LPH1RA)];
    assert SendsOf(on) == [FLAG_LPH1RL, FLAG_LPH1RA];
    assert ask[1..] == [Send(FLAG_IDR)];
    assert SendsOf([Send(FLAG_IDR)]) == [FLAG_IDR];
    assert SendsOf(ask) == [FLAG_IDR];
    assert SendsOf(link) == [FLAG_LPH2RA];
    assert SendsOf(ResetBefore(reset)) == [];
    assert SendsOf(ResetAfter(reset)) == if reset.ResetCom? then [FLAG_LPH2RR] else [];
  }

  /** What stands before each phase of interest. */
  lemma {:induction false} InitNeighbours(reset: ResetType, k: nat)
    requires k < |InitScript(reset)|
    ensures var s := InitScript(reset);
            && (s[k] == Send(FLAG_LPH1RA) ==> k > 0 && s[k - 1] == Await(FLAG_LPH1RL))
            && (s[k] == Send(FLAG_LPH2RA) ==> k > 0 && s[k - 1] == Await(FLAG_LPH1RA))
            && (s[k] == Send(FLAG_LPH2RR) ==> k > 0 && s[k - 1] == Send(FLAG_LPH2RA) && reset == ResetCom)
            && (s[k] == Send(FLAG_IDR) ==> k > 0 && s[k - 1] == Await(FLAG_LPH2RA))
            && (s[k] == EndReset ==> k > 0 && s[k - 1] == Send(FLAG_LPH2RA) && reset == ResetSystem)
            && (s[k] == StartReset ==> k == 0)
            && (reset == ResetSystem ==> s[0] == StartReset)
            && s[k] != Listen
  {
    InitScriptSteps(reset);
  }

  lemma {:induction false} ThenListen(d: seq<Note>, script: seq<Phase>, got: seq<byte>)
    requires Listen !in script
    ensures Conforms(d, script) ==> Conforms(d, script + [Listen])
    ensures Completes(d, script) ==> Completes(d + Gots(got), script + [Listen])
                                     && Conforms(d + Gots(got), script + [Listen])
    decreases |script|, |d|, |got|
  {
    var longer := script + [Listen];
    if script == [] {
      if d == [] {
        assert d + Gots(got) == Gots(got);
        if got != [] {
          ThenListen(d, script, got[1..]);
          assert Gots(got)[1..] == Gots(got[1..]) == d + Gots(got[1..]);
        }
      }
    } else {
      assert longer[0] == script[0] && longer[1..] == script[1..] + [Listen];
      assert script[0] in script;
      if d != [] {
        assert (d + Gots(got))[1..] == d[1..] + Gots(got);
        if script[0].Await? && d[0].Got? && d[0].b != script[0].b {
          ThenListen(d[1..], script, got);
        } else {
          ThenListen(d[1..], script[1..], got);
        }
      }
    }
  }

  lemma {:induction false} InitOffers(w: World, hooks: Hooks, inited: bool, reset: ResetType, buf: seq<byte>,
                                      len: nat)
    requires len <= |buf|
    ensures var r := Init(w, hooks, inited, reset, buf, len);
            && Adds(w.log.offered, r.w.log.offered, InitFlags(reset), r.code == Success)
            && r.inited == (inited || r.code == Success)
            && |r.buf| == |buf|
  {
    var script := InitScript(reset);
    RunScriptOffers(w, script);
    SendsOfInit(reset);
    var (code, w1) := RunScript(w, script);
    ReceiveDecodes(w1, FLAG_IDA, len, Fresh(buf, 0));
  }

  /** The script is followed by listening for the identification, whatever comes. */
  lemma {:induction false} ScriptThenReceive(w: World, script: seq<Phase>, len: nat, st: RxState)
    requires Listen !in script && len <= |st.buf| && RunScript(w, script).0 == Success
    ensures var w2 := Receive(RunScript(w, script).1, FLAG_IDA, len, st).1;
            && Extends(w.log, w2.log)
            && Conforms(NewNotes(w.log, w2.log), script + [Listen])
            && Completes(NewNotes(w.log, w2.log), script + [Listen])
  {
    var w1 := RunScript(w, script).1;
    RunScriptConforms(w, script);
    var got := ReceiveHears(w1, FLAG_IDA, len, st);
    ThenListen(NewNotes(w.log, w1.log), script, got);
    var w2 := Receive(w1, FLAG_IDA, len, st).1;
    NotesChain(w.log, w1.log, w2.log);
    assert NewNotes(w1.log, w2.log) == Gots(got);
  }

  lemma {:induction false} ReceiveHears(w: World, flag: byte, len: nat, st: RxState) returns (got: seq<byte>)
    requires len <= |st.buf|
    ensures Hears(w.log, Receive(w, flag, len, st).1.log, got)
  {
    ReceiveDecodes(w, flag, len, st);
    got := Inbound(w.tape)[..Decode(Inbound(w.tape), flag, len, st).used];
  }

  lemma {:induction false} NoListenInInit(reset: ResetType)
    ensures Listen !in InitScript(reset)
  {
    InitScriptSteps(reset);
  }

  /** In every environment the dialogue of `EComPort_Init` is a run of its script followed by listening. */
  lemma {:induction false} InitConforms(w: World, hooks: Hooks, inited: bool, reset: ResetType, buf: seq<byte>,
                                        len: nat)
    requires len <= |buf|
    ensures var r := Init(w, hooks, inited, reset, buf, len);
            && Extends(w.log, r.w.log)
            && Conforms(NewNotes(w.log, r.w.log), InitScript(reset) + [Listen])
            && (r.code == Success ==> Completes(NewNotes(w.log, r.w.log), InitScript(reset) + [Listen]))
  {
    var script := InitScript(reset);
    NoListenInInit(reset);
    if !reset.ResetSystem? || (hooks.start && hooks.finish) {
      var (code, w1) := RunScript(w, script);
      if code == Success {
        ScriptThenReceive(w, script, len, Fresh(buf, 0));
      } else {
        RunScriptConforms(w, script);
        ThenListen(NewNotes(w.log, w1.log), script, []);
      }
    }
  }

  /** What must have happened immediately before the `i`-th note of the handshake, and before everything. */
  predicate Ordered(d: seq<Note>, reset: ResetType, i: nat)
    requires i < |d|
  {
    && (d[i] == Sent(FLAG_LPH1RA) ==> i > 0 && d[i - 1] == Got(FLAG_LPH1RL))
    && (d[i] == Sent(FLAG_LPH2RA) ==> i > 0 && d[i - 1] == Got(FLAG_LPH1RA))
    && (d[i] == Sent(FLAG_LPH2RR) ==> i > 0 && d[i - 1] == Sent(FLAG_LPH2RA) && reset == ResetCom)
    && (d[i] == Sent(FLAG_IDR) ==> i > 0 && d[i - 1] == Got(FLAG_LPH2RA))
    && (d[i] == ResetEnded ==> i > 0 && d[i - 1] == Sent(FLAG_LPH2RA) && reset == ResetSystem)
    && (d[i] == ResetBegun ==> i == 0)
    && (d[i].Sent? && reset == ResetSystem ==> d[0] == ResetBegun)
  }

  lemma {:induction false} ConformingOrder(d: seq<Note>, reset: ResetType, i: nat)
    requires Conforms(d, InitScript(reset) + [Listen]) && i < |d|
    ensures Ordered(d, reset, i)
  {
    if !d[i].Got? {
      var script := InitScript(reset);
      var k := EarlierPhasesDone(d, script + [Listen], i);
      assert (script + [Listen])[..k] == script[..k];
      InitNeighbours(reset, k);
      if k > 0 {
        forall j | 0 <= j < k ensures script[j] != Listen { InitNeighbours(reset, j); }
        CompletedEnds(d[..i], script[..k]);
        assert d[..i][|d[..i]| - 1] == d[i - 1];
        assert script[..k][k - 1] == script[k - 1];
      }
    }
  }

  /**
   * The order of the handshake, in every environment: each acknowledged flag is sent right after the acknowledgement
   * before it was consumed; with a system reset, reset-start comes before anything is sent, and reset-end comes right
   * after LPH2RA is sent, so before its acknowledgement is waited for.
   */
  lemma {:induction false} InitOrder(w: World, hooks: Hooks, inited: bool, reset: ResetType, buf: seq<byte>, len: nat)
    requires len <= |buf|
    ensures var w1 := Init(w, hooks, inited, reset, buf, len).w;
            && w.log.notes <= w1.log.notes
            && forall i :: 0 <= i < |NewNotes(w.log, w1.log)| ==> Ordered(NewNotes(w.log, w1.log), reset, i)
  {
    InitConforms(w, hooks, inited, reset, buf, len);
    var d := NewNotes(w.log, Init(w, hooks, inited, reset, buf, len).w.log);
    forall i | 0 <= i < |d| ensures Ordered(d, reset, i) { ConformingOrder(d, reset, i); }
  }

  // ---- power and release ----

  /** What comes right before the `i`-th note of a conforming dialogue is what the phase before ends with. */
  lemma {:induction false} NoteAfterPhase(d: seq<Note>, script: seq<Phase>, i: nat) returns (k: nat)
    requires Conforms(d, script) && i < |d| && !d[i].Got? && Listen !in script
    ensures k < |script| && Marks(script[k], d[i])
    ensures k == 0 ==> i == 0
    ensures k > 0 ==> i > 0
    ensures k > 0 && script[k - 1].Await? ==> d[i - 1] == Got(script[k - 1].b)
    ensures k > 0 && !script[k - 1].Await? ==> Marks(script[k - 1], d[i - 1])
  {
    k := EarlierPhasesDone(d, script, i);
    if k > 0 {
      forall ph | ph in script[..k] ensures ph in script {}
      CompletedEnds(d[..i], script[..k]);
      assert script[..k][k - 1] == script[k - 1];
      assert d[..i][|d[..i]| - 1] == d[i - 1];
    }
  }

  /** A dialogue of the phase 1 exchanges. */
  predicate PowerOrdered(d: seq<Note>, state: PowerState) {
    forall i :: 0 <= i < |d| && !d[i].Got? ==>
      || (i == 0 && d[i] == Sent(0xA7))
      || (state == PowerOn && i > 0 && d[i] == Sent(0xA6) && d[i - 1] == Got(0xA7))
  }

  lemma {:induction false} ConformingPower(d: seq<Note>, state: PowerState)
    requires Conforms(d, PowerScript(state))
    ensures PowerOrdered(d, state)
    ensures Completes(d, PowerScript(state)) ==> d != [] && d[|d| - 1] == Got(if state == PowerOn then 0xA6 else 0xA7)
  {
    var script := PowerScript(state);
    forall i | 0 <= i < |d| && !d[i].Got?
      ensures || (i == 0 && d[i] == Sent(0xA7))
              || (state == PowerOn && i > 0 && d[i] == Sent(0xA6) && d[i - 1] == Got(0xA7))
    {
      var k := NoteAfterPhase(d, script, i);
    }
    if Completes(d, script) { CompletedEnds(d, script); }
  }

  /** The order of the phase 1 exchanges in every environment, and what has been heard last when they succeed. */
  lemma {:induction false} PowerOrder(w: World, state: PowerState)
    ensures var (code, w1) := RunScript(w, PowerScript(state));
            && w.log.notes <= w1.log.notes
            && var d := NewNotes(w.log, w1.log);
               && PowerOrdered(d, state)
               && (code == Success ==> d != [] && d[|d| - 1] == Got(if state == PowerOn then 0xA6 else 0xA7))
  {
    RunScriptConforms(w, PowerScript(state));
    ConformingPower(NewNotes(w.log, RunScript(w, PowerScript(state)).1.log), state);
  }

  /** A dialogue that drops link phase 2 and then phase 1. */
  predicate FinalizeOrdered(d: seq<Note>) {
    forall i :: 0 <= i < |d| && !d[i].Got? ==>
      (i == 0 && d[i] == Sent(0xA9)) || (i > 0 && d[i] == Sent(0xA7) && d[i - 1] == Got(0xA9))
  }

  lemma {:induction false} ConformingFinalize(d: seq<Note>, script: seq<Phase>)
    requires script == [Send(FLAG_LPH2RL), Await(FLAG_LPH2RL), Send(FLAG_LPH1RL), Await(FLAG_LPH1RL)]
    requires Conforms(d, script)
    ensures FinalizeOrdered(d)
    ensures Completes(d, script) ==> d != [] && d[|d| - 1] == Got(0xA7)
  {
    forall i | 0 <= i < |d| && !d[i].Got?
      ensures (i == 0 && d[i] == Sent(0xA9)) || (i > 0 && d[i] == Sent(0xA7) && d[i - 1] == Got(0xA9))
    {
      var k := NoteAfterPhase(d, script, i);
    }
    if Completes(d, script) { CompletedEnds(d, script); }
  }

  /** Finalize in every environment: LPH2RL, its echo, then LPH1RL, whose echo has been heard when it succeeds. */
  lemma {:induction false} FinalizeOrder(w: World)
    ensures var (code, w1) := RunScript(w, FinalizeScript());
            && w.log.notes <= w1.log.notes
            && var d := NewNotes(w.log, w1.log);
               && FinalizeOrdered(d)
               && (code == Success ==> d != [] && d[|d| - 1] == Got(0xA7))
  {
    RunScriptConforms(w, FinalizeScript());
    ConformingFinalize(NewNotes(w.log, RunScript(w, FinalizeScript()).1.log), FinalizeScript());
  }

  // ---- failures ----

  /** A script that fails has completed the phases before some phase, and gives that phase's code. */
  lemma {:induction false} ScriptFailsAt(w: World, script: seq<Phase>) returns (k: nat, v: World)
    requires RunScript(w, script).0 != Success
    ensures k < |script| && RunScript(w, script[..k]) == (Success, v)
    ensures RunPhase(v, script[k]) == RunScript(w, script)
    decreases |script|
  {
    var (code, w1) := RunPhase(w, script[0]);
    if code != Success {
      k, v := 0, w;
    } else {
      k, v := ScriptFailsAt(w1, script[1..]);
      k := k + 1;
      assert script[..k][1..] == script[1..][..k - 1];
    }
  }

  /** How Init fails: without the reset callbacks it needs, before anything happens; at a phase; or listening. */
  lemma {:induction false} InitFails(w: World, hooks: Hooks, inited: bool, reset: ResetType, buf: seq<byte>, len: nat)
    returns (k: nat, v: World)
    requires len <= |buf| && Init(w, hooks, inited, reset, buf, len).code != Success
    ensures var r := Init(w, hooks, inited, reset, buf, len);
            var rx := Receive(v, FLAG_IDA, len, Fresh(buf, 0));
            && r.inited == inited
            && if reset == ResetSystem && !(hooks.start && hooks.finish) then r.code == InternalError && r.w == w
               else
                 && k <= |InitSteps(reset)| && RunScript(w, InitSteps(reset)[..k]) == (Success, v)
                 && if k < |InitSteps(reset)| then RunPhase(v, InitSteps(reset)[k]) == (r.code, r.w)
                    else
                      r.w == rx.1 && if rx.0 != Success then r.code == rx.0 else r.code == TransferError
  {
    InitScriptSteps(reset);
    var script := InitSteps(reset);
    if RunScript(w, script).0 != Success {
      k, v := ScriptFailsAt(w, script);
    } else {
      k, v := |script|, RunScript(w, script).1;
      assert script[..k] == script;
    }
  }
}
