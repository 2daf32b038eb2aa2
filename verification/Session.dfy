/**
 * The manager's lifecycle as a function of its state: opening, authenticating, closing, and the singleton API over
 * it.
 */
module Session {
  import opened Types
  import opened Framing
  import opened Decoder
  import opened RoundTrip
  import opened Hosts
  import opened Messages
  import opened Handshake
  import opened HandshakeOrder
  import opened HandshakePeer
  import opened Conversation

  const PROTOCOL_ID: seq<byte> := [0x50, 0x53, 0x41, 0x44, 0x42, 0x47]
  const SD_RESPONSE_LENGTH := 6

  function CheckProtocol(id: seq<byte>): ReturnCode {
    if id == PROTOCOL_ID then Success else UnsupportedOperation
  }

  datatype OpenParams = OpenParams(hooks: Hooks, showsProgress: bool)

  /** Whether the crypto library starts, and what the identification buffer on the stack holds before it is filled. */
  datatype OpenEnv = OpenEnv(cryptoReady: bool, idStack: seq<byte>)
  {
    predicate Valid() {
      |idStack| == SD_RESPONSE_LENGTH
    }
  }

  /** `driver` is absent before the first open and otherwise says whether the driver is initialised. */
  datatype ImplState = ImplState(isOpen: bool, driver: Option<bool>, w: World, buf: seq<byte>, showsProgress: bool)

  function NewImpl(w: World): ImplState {
    ImplState(false, None, w, Zeros(BUFFER_SIZE), false)
  }

  function ImplOpen(s: ImplState, params: Option<OpenParams>, env: OpenEnv): (ReturnCode, ImplState)
    requires env.Valid()
  {
    if s.isOpen then (InternalError, s)
    else if params.None? then (InvalidArgument, s)
    else
      var s1 := s.(driver := Some(false));
      if !env.cryptoReady then (InternalError, s1)
      else
        var r := Init(s.w, params.value.hooks, false, ResetSystem, env.idStack, SD_RESPONSE_LENGTH);
        var s2 := s1.(showsProgress := params.value.showsProgress, driver := Some(r.inited), w := r.w);
        if r.code != Success then (r.code, s2)
        else (CheckProtocol(r.buf), s2.(isOpen := r.buf == PROTOCOL_ID))
  }

  function ConnOf(s: ImplState): Conn
    requires s.driver.Some?
  {
    Conn(s.w, s.driver.value, s.buf, s.showsProgress)
  }

  function ImplAuthenticate(p: Protocol, s: ImplState, o: Oracle): (ReturnCode, ImplState)
    requires p.Valid() && o.Valid(p) && |s.buf| == BUFFER_SIZE && (s.isOpen ==> s.driver.Some?)
  {
    if !s.isOpen then (InternalError, s)
    else
      var t := Authenticate(p, ConnOf(s), o);
      (t.code, s.(w := t.conn.w, buf := t.conn.buf))
  }

  function ImplClose(s: ImplState): (ReturnCode, ImplState) {
    if !s.isOpen then (InternalError, s) else (Success, s.(isOpen := false))
  }

  /**
   * Opening against a cooperating peer with a 6-byte identification passes the protocol check exactly when that
   * identification is the expected one, and fails as an unsupported operation otherwise.
   */
  lemma {:induction false} OpenChecksProtocol(s: ImplState, params: OpenParams, env: OpenEnv, segs: seq<seq<Reply>>,
                                              answer: seq<Reply>, g: seq<byte>, z: seq<byte>, tail: seq<byte>,
                                              id: seq<byte>)
    requires !s.isOpen && env.Valid() && env.cryptoReady && params.hooks == Hooks(true, true)
    requires |segs| == |InitScript(ResetSystem)| && s.w.tape == Concat(segs) + answer
    requires forall i :: 0 <= i < |segs| ==> Serves(segs[i], InitScript(ResetSystem)[i])
    requires Inbound(answer) == g + z + tail && |id| == SD_RESPONSE_LENGTH
    requires FLAG_END !in g && RunsFit(g, FLAG_IDA, SD_RESPONSE_LENGTH) && !EscPending(g, FLAG_IDA)
    requires LeadingNulls(g + z, FLAG_IDA) <= MAX_PRE_NULL_FLAGS
    requires Strip(z) == FrameWith(FLAG_IDA, id) && z[|z| - 1] == FLAG_END
    ensures var (code, s1) := ImplOpen(s, Some(params), env);
            && code == (if id == [0x50, 0x53, 0x41, 0x44, 0x42, 0x47] then Success else UnsupportedOperation)
            && (s1.isOpen <==> code == Success) && s1.driver == Some(true) && s1.buf == s.buf
            && s1.showsProgress == params.showsProgress
            && |g| + |z| <= |answer| && s1.w.tape == answer[|g| + |z|..]
  {
    InitCompletes(s.w, params.hooks, false, ResetSystem, env.idStack, SD_RESPONSE_LENGTH, segs, answer, g, z, tail, id);
    var r := Init(s.w, params.hooks, false, ResetSystem, env.idStack, SD_RESPONSE_LENGTH);
    InitOffers(s.w, params.hooks, false, ResetSystem, env.idStack, SD_RESPONSE_LENGTH);
    assert r.buf == r.buf[..SD_RESPONSE_LENGTH] == id;
  }

  lemma {:induction false} PromptIdentification(id: seq<byte>, z: seq<byte>, rest: seq<Reply>)
    requires z == FrameWith(FLAG_IDA, id)
    ensures Inbound(Arriving(z) + rest) == [] + z + Inbound(rest) && Strip(z) == z && z[|z| - 1] == FLAG_END
    ensures LeadingNulls([] + z, FLAG_IDA) == 0 && (Arriving(z) + rest)[|z|..] == rest
  {
    ArrivingDelivers(z);
    InboundThen(Arriving(z), rest);
    FrameShape(FLAG_IDA, id);
    assert FLAG_NULL !in z;
    StripNothing(z);
    RawNulls(z, FLAG_IDA);
    assert [] + z == z;
  }

  lemma {:induction false} NothingLeftOver(len: nat)
    ensures RunsFit([], FLAG_IDA, len) && !EscPending([], FLAG_IDA)
  {}

  /**
   * For every identification there is a target that acknowledges each flag and then gives it, whatever follows; the
   * replies it needs do not depend on who asks.
   */
  lemma {:induction false} PromptTarget(id: seq<byte>) returns (opening: seq<Reply>)
    requires |id| == SD_RESPONSE_LENGTH
    ensures forall s: ImplState, params: OpenParams, env: OpenEnv, rest: seq<Reply> ::
              (!s.isOpen && env.Valid() && env.cryptoReady && params.hooks == Hooks(true, true)
               && s.w.tape == opening + rest) ==>
                OpensWith(s, params, env, id, rest)
  {
    var segs := ScriptCanBeServed(InitScript(ResetSystem));
    var z := FrameWith(FLAG_IDA, id);
    opening := Concat(segs) + Arriving(z);
    forall s: ImplState, params: OpenParams, env: OpenEnv, rest: seq<Reply> |
      !s.isOpen && env.Valid() && env.cryptoReady && params.hooks == Hooks(true, true) && s.w.tape == opening + rest
      ensures OpensWith(s, params, env, id, rest)
    {
      PromptIdentification(id, z, rest);
      NothingLeftOver(SD_RESPONSE_LENGTH);
      Associates(Concat(segs), Arriving(z), rest);
      OpenChecksProtocol(s, params, env, segs, Arriving(z) + rest, [], z, Inbound(rest), id);
    }
  }

  /** Opening succeeds or is refused by the protocol check, as the identification says, and leaves `rest` unread. */
  ghost predicate OpensWith(s: ImplState, params: OpenParams, env: OpenEnv, id: seq<byte>, rest: seq<Reply>)
    requires env.Valid()
  {
    var (code, s1) := ImplOpen(s, Some(params), env);
    && code == (if id == [0x50, 0x53, 0x41, 0x44, 0x42, 0x47] then Success else UnsupportedOperation)
    && s1 == ImplState(code == Success, Some(true), s1.w, s.buf, params.showsProgress) && s1.w.tape == rest
  }

  // ---- the singleton ----

  /** The live implementation object and its address, which is the handle given out. */
  datatype Instance = Instance(address: nat, s: ImplState)

  datatype Api = Api(live: Option<Instance>, w: World)

  datatype ApiCall =
    | Open(params: Option<OpenParams>, env: OpenEnv, address: nat)
    | Auth(handle: nat, oracle: Oracle)
    | Resume(handle: nat)
    | Close(handle: nat)

  ghost predicate Callable(p: Protocol, c: ApiCall) {
    match c
    case Open(_, env, _) => env.Valid()
    case Auth(_, o) => o.Valid(p)
    case _ => true
  }

  ghost predicate WellFormed(a: Api) {
    a.live.Some? ==> |a.live.value.s.buf| == BUFFER_SIZE && (a.live.value.s.isOpen ==> a.live.value.s.driver.Some?)
  }

  function ApiOpen(a: Api, params: Option<OpenParams>, env: OpenEnv, address: nat): (ReturnCode, Api)
    requires env.Valid()
  {
    if params.None? then (InvalidArgument, a)
    else if a.live.Some? then (InternalError, a)
    else
      var (code, s) := ImplOpen(NewImpl(a.w), params, env);
      (code, Api(if code == Success then Some(Instance(address, s)) else None, s.w))
  }

  /** The refusals of the public open, which change nothing: no parameters, already open, no crypto, no reset hooks. */
  lemma {:induction false} OpenRefusals(a: Api, params: Option<OpenParams>, env: OpenEnv, address: nat)
    requires env.Valid()
    requires params.None? || a.live.Some? || !env.cryptoReady || params.value.hooks != Hooks(true, true)
    ensures ApiOpen(a, params, env, address) == (if params.None? then InvalidArgument else InternalError, a)
  {}

  /** The implementation's own refusals, which change nothing. */
  lemma {:induction false} ImplRefusals(p: Protocol, s: ImplState, params: Option<OpenParams>, env: OpenEnv, o: Oracle)
    requires p.Valid() && o.Valid(p) && env.Valid() && |s.buf| == BUFFER_SIZE && (s.isOpen ==> s.driver.Some?)
    ensures s.isOpen ==> ImplOpen(s, params, env) == (InternalError, s)
    ensures !s.isOpen && params.None? ==> ImplOpen(s, params, env) == (InvalidArgument, s)
    ensures !s.isOpen ==> ImplAuthenticate(p, s, o) == (InternalError, s) && ImplClose(s) == (InternalError, s)
  {}

  /**
   * The public open succeeds exactly when nothing is open, the crypto library starts, both reset callbacks are there,
   * and the target serves the handshake and leaves the six bytes 50 53 41 44 42 47 in the identification buffer; then
   * the implementation at the given address is live and open, with an initialised driver and a zeroed message buffer.
   * It fails with everything as it was but for the traffic.
   */
  lemma {:induction false} OpenExactly(a: Api, params: OpenParams, env: OpenEnv, address: nat)
    requires env.Valid()
    ensures var (code, a1) := ApiOpen(a, Some(params), env, address);
            var r := Init(a.w, params.hooks, false, ResetSystem, env.idStack, 6);
            && (code == Success <==>
                  && a.live.None? && env.cryptoReady && params.hooks == Hooks(true, true)
                  && r.buf == [0x50, 0x53, 0x41, 0x44, 0x42, 0x47]
                  && exists segs: seq<seq<Reply>>, answer: seq<Reply>, p: seq<byte>, tail: seq<byte> ::
                       Introduces(a.w.tape, InitScript(ResetSystem), 6, segs, answer, p, tail)
                       && Holds(r.buf, env.idStack, 6, p))
            && (code == Success ==>
                  var s := ImplState(true, Some(true), r.w, Zeros(4096), params.showsProgress);
                  a1 == Api(Some(Instance(address, s)), r.w))
            && (code != Success ==> a1.live == a.live)
  {
    InitExactly(a.w, params.hooks, false, ResetSystem, env.idStack, 6);
    InitOffers(a.w, params.hooks, false, ResetSystem, env.idStack, 6);
  }

  /** The checks every later call makes first. */
  function HandleCheck(a: Api, handle: nat): ReturnCode {
    if a.live.None? then InternalError
    else if handle != a.live.value.address then InvalidArgument
    else Success
  }

  ghost function DoApi(p: Protocol, a: Api, c: ApiCall): (ReturnCode, Api)
    requires p.Valid() && WellFormed(a) && Callable(p, c)
  {
    match c
    case Open(params, env, address) => ApiOpen(a, params, env, address)
    case Auth(h, o) =>
      if HandleCheck(a, h) != Success then (HandleCheck(a, h), a)
      else
        var (code, s) := ImplAuthenticate(p, a.live.value.s, o);
        (code, Api(Some(Instance(a.live.value.address, s)), s.w))
    case Resume(h) => (HandleCheck(a, h), a)
    case Close(h) =>
      if HandleCheck(a, h) != Success then (HandleCheck(a, h), a)
      else (ImplClose(a.live.value.s).0, Api(None, a.w))
  }

  /** A live implementation is open, its driver has completed Init, and it works on the one world there is. */
  ghost predicate Sound(a: Api) {
    a.live.Some? ==>
      var s := a.live.value.s;
      s.isOpen && s.driver == Some(true) && |s.buf| == BUFFER_SIZE && s.w == a.w
  }

  lemma {:induction false} ApiKeepsSound(p: Protocol, a: Api, c: ApiCall)
    requires p.Valid() && Sound(a) && Callable(p, c)
    ensures var (code, a1) := DoApi(p, a, c);
            && Sound(a1)
            && (c.Open? && code != Success ==> a1.live == a.live)
            && (c.Open? && code == Success ==>
                  a.live.None? && a1.live.Some? && a1.live.value.address == c.address)
            && (a1.live.Some? <==>
                  (c.Open? && code == Success) || (a.live.Some? && !(c.Close? && code == Success)))
  {}

  /** With a matching handle the implementation's own not-open checks never fail. */
  lemma {:induction false} MatchingHandle(p: Protocol, a: Api, c: ApiCall)
    requires p.Valid() && Sound(a) && Callable(p, c) && a.live.Some?
    requires (c.Auth? || c.Resume? || c.Close?) && c.handle == a.live.value.address
    ensures var (code, a1) := DoApi(p, a, c);
            match c
            case Auth(_, o) =>
              && code == Authenticate(p, ConnOf(a.live.value.s), o).code && a1.live.Some?
              && a1.w == Authenticate(p, ConnOf(a.live.value.s), o).conn.w
            case Resume(_) => code == Success && a1 == a
            case _ => code == Success && a1.live.None? && a1.w == a.w
  {}

  /** A call with a handle that is not the live one, or with nothing open, is refused and touches nothing. */
  lemma {:induction false} RefusedCalls(p: Protocol, a: Api, c: ApiCall)
    requires p.Valid() && Sound(a) && Callable(p, c)
    requires (c.Auth? || c.Resume? || c.Close?) && (a.live.Some? ==> c.handle != a.live.value.address)
    ensures DoApi(p, a, c) == (if a.live.None? then InternalError else InvalidArgument, a)
  {}

  /** The API state after a sequence of calls, starting with nothing open. */
  ghost function RunApi(p: Protocol, w: World, calls: seq<ApiCall>): (a: Api)
    requires p.Valid() && forall i :: 0 <= i < |calls| ==> Callable(p, calls[i])
    ensures Sound(a)
  {
    if calls == [] then Api(None, w)
    else
      var n := |calls| - 1;
      var a := RunApi(p, w, calls[..n]);
      ApiKeepsSound(p, a, calls[n]);
      DoApi(p, a, calls[n]).1
  }

  datatype Event = Opened | Closed | Neither

  /** What a call does to the session: a successful open, a successful close, or neither. */
  ghost function EventOf(p: Protocol, a: Api, c: ApiCall): Event
    requires p.Valid() && WellFormed(a) && Callable(p, c)
  {
    if DoApi(p, a, c).0 != Success then Neither else if c.Open? then Opened else if c.Close? then Closed else Neither
  }

  ghost function Events(p: Protocol, w: World, calls: seq<ApiCall>): (evs: seq<Event>)
    requires p.Valid() && forall i :: 0 <= i < |calls| ==> Callable(p, calls[i])
    ensures |evs| == |calls|
  {
    if calls == [] then []
    else
      var n := |calls| - 1;
      Events(p, w, calls[..n]) + [EventOf(p, RunApi(p, w, calls[..n]), calls[n])]
  }

  /** Some open succeeded and no close has since. */
  ghost predicate OpenSince(evs: seq<Event>) {
    exists j :: 0 <= j < |evs| && evs[j] == Opened && Closed !in evs[j..]
  }

  lemma {:induction false} OpenSinceNext(evs: seq<Event>, e: Event)
    ensures OpenSince(evs + [e]) <==> e == Opened || (OpenSince(evs) && e != Closed)
  {
    var longer := evs + [e];
    if e == Opened {
      assert longer[|evs|] == Opened && longer[|evs|..] == [e];
    }
    if OpenSince(evs) && e != Closed {
      var j :| 0 <= j < |evs| && evs[j] == Opened && Closed !in evs[j..];
      assert longer[j] == Opened && longer[j..] == evs[j..] + [e];
    }
    if OpenSince(longer) && e != Opened {
      var j :| 0 <= j < |longer| && longer[j] == Opened && Closed !in longer[j..];
      assert longer[j..] == evs[j..] + [e];
      assert e in longer[j..];
      assert evs[j] == Opened && Closed !in evs[j..];
    }
  }

  /**
   * After any sequence of public calls the singleton exists iff some open has succeeded and no close has since; and
   * whenever it exists it is open and its driver has completed Init.
   */
  lemma {:induction false} SessionInvariant(p: Protocol, w: World, calls: seq<ApiCall>)
    requires p.Valid() && forall i :: 0 <= i < |calls| ==> Callable(p, calls[i])
    ensures RunApi(p, w, calls).live.Some? <==> OpenSince(Events(p, w, calls))
    ensures Sound(RunApi(p, w, calls))
    decreases |calls|
  {
    if calls != [] {
      var n := |calls| - 1;
      var a := RunApi(p, w, calls[..n]);
      SessionInvariant(p, w, calls[..n]);
      ApiKeepsSound(p, a, calls[n]);
      OpenSinceNext(Events(p, w, calls[..n]), EventOf(p, a, calls[n]));
    }
  }

  /** A live implementation stays where it is. */
  lemma {:induction false} AddressKept(p: Protocol, a: Api, c: ApiCall)
    requires p.Valid() && Sound(a) && Callable(p, c)
    ensures var a1 := DoApi(p, a, c).1;
            a.live.Some? && a1.live.Some? ==> a1.live.value.address == a.live.value.address
  {}

  /** The open that gave out this handle. */
  ghost predicate Issues(c: ApiCall, e: Event, handle: nat) {
    e == Opened && c.Open? && c.address == handle
  }

  /** Some open gave out this handle and no close has succeeded since. */
  ghost predicate IssuedSince(calls: seq<ApiCall>, evs: seq<Event>, handle: nat)
    requires |calls| == |evs|
  {
    exists j :: 0 <= j < |evs| && Issues(calls[j], evs[j], handle) && Closed !in evs[j..]
  }

  lemma {:induction false} IssuedSinceNext(calls: seq<ApiCall>, evs: seq<Event>, c: ApiCall, e: Event, handle: nat)
    requires |calls| == |evs|
    ensures IssuedSince(calls + [c], evs + [e], handle) <==>
            Issues(c, e, handle) || (IssuedSince(calls, evs, handle) && e != Closed)
  {
    var longer, later := calls + [c], evs + [e];
    if Issues(c, e, handle) {
      assert Issues(longer[|calls|], later[|evs|], handle) && later[|evs|..] == [e];
    }
    if IssuedSince(calls, evs, handle) && e != Closed {
      var j :| 0 <= j < |evs| && Issues(calls[j], evs[j], handle) && Closed !in evs[j..];
      assert Issues(longer[j], later[j], handle) && later[j..] == evs[j..] + [e];
    }
    if IssuedSince(longer, later, handle) && !Issues(c, e, handle) {
      var j :| 0 <= j < |later| && Issues(longer[j], later[j], handle) && Closed !in later[j..];
      assert later[j..] == evs[j..] + [e];
      assert e in later[j..];
      assert Issues(calls[j], evs[j], handle) && Closed !in evs[j..];
    }
  }

  /** One call changes which handles are accepted only by a successful open or close. */
  lemma {:induction false} HandleCheckNext(p: Protocol, a: Api, c: ApiCall, handle: nat)
    requires p.Valid() && Sound(a) && Callable(p, c)
    ensures HandleCheck(DoApi(p, a, c).1, handle) == Success <==>
            Issues(c, EventOf(p, a, c), handle) || (HandleCheck(a, handle) == Success && EventOf(p, a, c) != Closed)
  {
    ApiKeepsSound(p, a, c);
  }

  /** After any run, the handles accepted are those given out by a successful open with no close since. */
  lemma {:induction false} HandleAccepted(p: Protocol, w: World, calls: seq<ApiCall>, handle: nat)
    requires p.Valid() && forall i :: 0 <= i < |calls| ==> Callable(p, calls[i])
    ensures HandleCheck(RunApi(p, w, calls), handle) == Success <==> IssuedSince(calls, Events(p, w, calls), handle)
    decreases |calls|
  {
    if calls != [] {
      var n := |calls| - 1;
      var a := RunApi(p, w, calls[..n]);
      HandleAccepted(p, w, calls[..n], handle);
      HandleCheckNext(p, a, calls[n], handle);
      assert calls == calls[..n] + [calls[n]];
      IssuedSinceNext(calls[..n], Events(p, w, calls[..n]), calls[n], EventOf(p, a, calls[n]), handle);
    }
  }

  /**
   * After any run, a call with a handle is refused and changes nothing when nothing is open or when no open since the
   * last close gave that handle out; otherwise it reaches an open implementation: resuming and closing succeed, and
   * authentication returns what the conversation over an initialised driver returns.
   */
  lemma {:induction false} HandleCalls(p: Protocol, w: World, calls: seq<ApiCall>, c: ApiCall)
    requires p.Valid() && (forall i :: 0 <= i < |calls| ==> Callable(p, calls[i])) && Callable(p, c) && !c.Open?
    ensures var a := RunApi(p, w, calls);
            var (code, a1) := DoApi(p, a, c);
            var evs := Events(p, w, calls);
            if !OpenSince(evs) then code == InternalError && a1 == a
            else if !IssuedSince(calls, evs, c.handle) then code == InvalidArgument && a1 == a
            else
              && a.live.Some? && ConnOf(a.live.value.s).inited
              && code == (if c.Auth? then Authenticate(p, ConnOf(a.live.value.s), c.oracle).code else Success)
              && a1.w == (if c.Auth? then Authenticate(p, ConnOf(a.live.value.s), c.oracle).conn.w else a.w)
              && (a1.live.Some? <==> !c.Close?)
  {
    SessionInvariant(p, w, calls);
    HandleAccepted(p, w, calls, c.handle);
    var a := RunApi(p, w, calls);
    if HandleCheck(a, c.handle) == Success { MatchingHandle(p, a, c); } else { RefusedCalls(p, a, c); }
  }
}
