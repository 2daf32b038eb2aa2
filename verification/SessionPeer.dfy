/** A whole session against a cooperating target: open, authenticate, close. */
module SessionPeer {
  import opened Types
  import opened Framing
  import opened Hosts
  import opened Conversation
  import opened ConversationTrace
  import opened ConversationPeer
  import opened Handshake
  import opened Session

  /** The codes of a run, call by call. */
  ghost function Codes(p: Protocol, w: World, calls: seq<ApiCall>): (codes: seq<ReturnCode>)
    requires p.Valid() && forall i :: 0 <= i < |calls| ==> Callable(p, calls[i])
    ensures |codes| == |calls|
  {
    if calls == [] then []
    else
      var n := |calls| - 1;
      Codes(p, w, calls[..n]) + [DoApi(p, RunApi(p, w, calls[..n]), calls[n]).0]
  }

  /** A run so far succeeded throughout and has brought the API to `a`. */
  ghost predicate Succeeds(p: Protocol, w: World, calls: seq<ApiCall>, a: Api) {
    && p.Valid() && (forall i :: 0 <= i < |calls| ==> Callable(p, calls[i]))
    && (forall k :: 0 <= k < |calls| ==> Codes(p, w, calls)[k] == Success)
    && RunApi(p, w, calls) == a
  }

  lemma {:induction false} SucceedsNext(p: Protocol, w: World, calls: seq<ApiCall>, a: Api, c: ApiCall, b: Api)
    requires Succeeds(p, w, calls, a) && Callable(p, c) && WellFormed(a) && DoApi(p, a, c) == (Success, b)
    ensures Succeeds(p, w, calls + [c], b)
  {
    assert (calls + [c])[..|calls|] == calls;
  }

  /** Opening with nothing open, against a target that gives `id` and then has `rest` to say. */
  lemma {:induction false} OpenPublicly(p: Protocol, w: World, params: OpenParams, env: OpenEnv, address: nat,
                                        id: seq<byte>, rest: seq<Reply>)
    returns (a: Api)
    requires p.Valid() && env.Valid() && OpensWith(NewImpl(w), params, env, id, rest)
    ensures var code := if id == [0x50, 0x53, 0x41, 0x44, 0x42, 0x47] then Success else UnsupportedOperation;
            && DoApi(p, Api(None, w), Open(Some(params), env, address)) == (code, a)
            && (code == Success ==> Ready(a, address, params, rest))
            && (code != Success ==> a.live.None?)
  {
    a := ApiOpen(Api(None, w), Some(params), env, address).1;
  }

  /** Just opened: live at the given address, open, its driver initialised, its message buffer zero. */
  ghost predicate Ready(a: Api, address: nat, params: OpenParams, rest: seq<Reply>) {
    && a.w.tape == rest && Sound(a)
    && a.live == Some(Instance(address, ImplState(true, Some(true), a.w, Zeros(4096), params.showsProgress)))
  }

  /** Authentication in a session just opened, with the target playing its part. */
  lemma {:induction false} AuthenticatePublicly(p: Protocol, a: Api, address: nat, params: OpenParams, o: Oracle,
                                                part: Part)
    returns (b: Api)
    requires p.Valid() && o.Valid(p) && o.loaded && Ready(a, address, params, TapeOf(part) + [])
    requires ServesAttempt(p, Zeros(BUFFER_SIZE), o, part)
    ensures DoApi(p, a, Auth(address, o)) == (Success, b)
    ensures b.live.Some? && b.live.value.address == address && b.w.tape == [] && Sound(b)
  {
    AuthenticationCompletes(p, Conn(a.w, true, Zeros(BUFFER_SIZE), params.showsProgress), o, part, []);
    MatchingHandle(p, a, Auth(address, o));
    ApiKeepsSound(p, a, Auth(address, o));
    AddressKept(p, a, Auth(address, o));
    b := DoApi(p, a, Auth(address, o)).1;
  }

  lemma {:induction false} ClosePublicly(p: Protocol, a: Api, address: nat) returns (b: Api)
    requires p.Valid() && Sound(a) && a.live.Some? && a.live.value.address == address
    ensures DoApi(p, a, Close(address)) == (Success, b) && b.live.None? && b.w == a.w
  {
    b := DoApi(p, a, Close(address)).1;
  }

  lemma {:induction false} NothingYet(p: Protocol, w: World)
    requires p.Valid()
    ensures Succeeds(p, w, [], Api(None, w))
  {}

  lemma {:induction false} OpenFirst(p: Protocol, w: World, params: OpenParams, env: OpenEnv, address: nat,
                                     rest: seq<Reply>)
    returns (a: Api)
    requires p.Valid() && env.Valid() && OpensWith(NewImpl(w), params, env, PROTOCOL_ID, rest)
    ensures Succeeds(p, w, [Open(Some(params), env, address)], a) && Ready(a, address, params, rest)
  {
    a := OpenPublicly(p, w, params, env, address, PROTOCOL_ID, rest);
    NothingYet(p, w);
    SucceedsNext(p, w, [], Api(None, w), Open(Some(params), env, address), a);
    assert [] + [Open(Some(params), env, address)] == [Open(Some(params), env, address)];
  }

  lemma {:induction false} AuthenticateNext(p: Protocol, w: World, calls: seq<ApiCall>, a: Api, address: nat,
                                            params: OpenParams, o: Oracle, part: Part)
    returns (b: Api)
    requires Succeeds(p, w, calls, a) && Ready(a, address, params, TapeOf(part) + [])
    requires o.Valid(p) && o.loaded && ServesAttempt(p, Zeros(BUFFER_SIZE), o, part)
    ensures Succeeds(p, w, calls + [Auth(address, o)], b)
    ensures b.live.Some? && b.live.value.address == address && b.w.tape == [] && Sound(b)
  {
    b := AuthenticatePublicly(p, a, address, params, o, part);
    SucceedsNext(p, w, calls, a, Auth(address, o), b);
  }

  lemma {:induction false} CloseNext(p: Protocol, w: World, calls: seq<ApiCall>, a: Api, address: nat)
    returns (b: Api)
    requires Succeeds(p, w, calls, a) && Sound(a) && a.live.Some? && a.live.value.address == address
    ensures Succeeds(p, w, calls + [Close(address)], b) && b.live.None? && b.w == a.w
  {
    b := ClosePublicly(p, a, address);
    SucceedsNext(p, w, calls, a, Close(address), b);
  }

  /** A target that plays the given part of the attempt after a handshake and the expected identification. */
  lemma {:induction false} TargetFor(params: OpenParams, env: OpenEnv, rest: seq<Reply>) returns (w: World)
    requires env.Valid() && env.cryptoReady && params.hooks == Hooks(true, true)
    ensures OpensWith(NewImpl(w), params, env, PROTOCOL_ID, rest)
  {
    var opening := PromptTarget(PROTOCOL_ID);
    w := World(opening + rest, EMPTY_LOG);
  }

  /**
   * With a target that identifies itself as expected and then serves the attempt, opening, authenticating with the
   * handle given out, and closing all succeed: the session is open after the first two calls and closed after the
   * third, and everything the target had to say has been read.
   */
  lemma {:induction false} SessionCompletes(p: Protocol, w: World, params: OpenParams, env: OpenEnv, address: nat,
                                            o: Oracle, part: Part)
    returns (a: Api, b: Api)
    requires p.Valid() && o.Valid(p) && env.Valid() && o.loaded
    requires OpensWith(NewImpl(w), params, env, PROTOCOL_ID, TapeOf(part) + [])
    requires ServesAttempt(p, Zeros(BUFFER_SIZE), o, part)
    ensures Succeeds(p, w, [Open(Some(params), env, address)] + [Auth(address, o)], a) && a.live.Some?
    ensures Succeeds(p, w, [Open(Some(params), env, address)] + [Auth(address, o)] + [Close(address)], b)
    ensures b.live.None? && b.w.tape == []
  {
    var calls := [Open(Some(params), env, address)];
    var first := OpenFirst(p, w, params, env, address, TapeOf(part) + []);
    a := AuthenticateNext(p, w, calls, first, address, params, o, part);
    b := CloseNext(p, w, calls + [Auth(address, o)], a, address);
  }

  /** And there is such a target for every chain and token, if good answers to both kinds of request exist. */
  lemma {:induction false} SessionPossible(p: Protocol, params: OpenParams, env: OpenEnv, o: Oracle, m0: seq<byte>,
                                           m1: seq<byte>)
    returns (w: World, part: Part)
    requires p.Valid() && o.Valid(p) && env.Valid() && env.cryptoReady && params.hooks == Hooks(true, true)
    requires GoodAnswer(p, Start, m0) && GoodAnswer(p, Response([]), m1)
    requires Prepares(o, ChallengeIn(p, Answered(p, Zeros(BUFFER_SIZE), Prompt(m0))))
    ensures OpensWith(NewImpl(w), params, env, PROTOCOL_ID, TapeOf(part) + [])
    ensures ServesAttempt(p, Zeros(BUFFER_SIZE), o, part)
  {
    part := PromptPart(p, Zeros(BUFFER_SIZE), o, m0, m1);
    w := TargetFor(params, env, TapeOf(part) + []);
  }

  /** So there are runs after which the session is open. */
  lemma {:induction false} OpenReached(p: Protocol, w: World, calls: seq<ApiCall>, a: Api)
    requires Succeeds(p, w, calls, a) && a.live.Some?
    ensures OpenSince(Events(p, w, calls))
  {
    SessionInvariant(p, w, calls);
  }
}
