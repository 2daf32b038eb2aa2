/** The peers the conversation succeeds with: every one that answers each request with a good response, and some do. */
module ConversationPeer {
  import opened Types
  import opened Framing
  import opened Decoder
  import opened RoundTrip
  import opened Hosts
  import opened Messages
  import opened Conversation
  import opened ConversationTrace
  import opened Layouts

  /** A response that answers `item` well, whatever the rest of the message buffer holds. */
  ghost predicate GoodAnswer(p: Protocol, item: Item, m: seq<byte>) {
    && 0 < |m| <= MaxResponse(p)
    && forall buf: seq<byte> :: |buf| == BUFFER_SIZE && m <= buf ==> AnswerOk(p, item, buf)
  }

  /** The response and the bytes that bring it, NULLs among them. */
  datatype Turn = Turn(m: seq<byte>, z: seq<byte>)

  /** The environment's part in one exchange: the packet is written completely, and `turn.z` is delivered. */
  ghost predicate ServesRequest(p: Protocol, packet: seq<byte>, item: Item, turn: Turn, seg: seq<Reply>) {
    && |seg| == 1 + |turn.z| && Complete(seg[0], |Frame(packet)|)
    && Inbound(seg[1..]) == turn.z && NoisyFrame(turn.z, FLAG_START, turn.m)
    && GoodAnswer(p, item, turn.m)
  }

  /** The message buffer after a response has been received into it. */
  function Answered(p: Protocol, buf: seq<byte>, turn: Turn): (r: seq<byte>)
    requires |buf| == BUFFER_SIZE
    ensures |r| == BUFFER_SIZE
  {
    Decode(turn.z, FLAG_START, MaxResponse(p), Fresh(buf, 0)).st.buf
  }

  /** The challenge that is signed is what the peer sent after the response header. */
  lemma {:induction false} ChallengeReceived(p: Protocol, buf: seq<byte>, turn: Turn)
    requires p.Valid() && |buf| == BUFFER_SIZE && NoisyFrame(turn.z, FLAG_START, turn.m)
    requires p.responseSize + p.challengeSize <= |turn.m| <= MaxResponse(p)
    ensures ChallengeIn(p, Answered(p, buf, turn)) == turn.m[p.responseSize..p.responseSize + p.challengeSize]
  {
    DecodeNoisyFrame(turn.z, [], FLAG_START, turn.m, MaxResponse(p), buf, 0);
    assert turn.z + [] == turn.z;
    assert Answered(p, buf, turn)[..|turn.m|] == turn.m;
  }

  /** A response is received exactly when it leaves room for a response header in the message buffer. */
  lemma {:induction false} ResponseLimit(p: Protocol, c: Conn, turn: Turn)
    requires p.Valid() && |c.buf| == BUFFER_SIZE && c.inited
    requires Inbound(c.w.tape) == turn.z && NoisyFrame(turn.z, FLAG_START, turn.m)
    ensures ReceivePacket(p, c).0 == Success <==> |turn.m| <= 4096 - p.responseSize
  {
    assert [] + turn.z + [] == turn.z && [] + turn.z == turn.z;
    DecodeAfterLeftovers([], turn.z, [], FLAG_START, turn.m, MaxResponse(p), c.buf, 0);
    ReceiveDecodes(c.w, FLAG_START, MaxResponse(p), Fresh(c.buf, 0));
  }

  /** The receiving half of an exchange. */
  lemma {:induction false} ReceiveServed(p: Protocol, c: Conn, item: Item, turn: Turn, arriving: seq<Reply>,
                                         rest: seq<Reply>)
    requires p.Valid() && |c.buf| == BUFFER_SIZE && c.inited && c.w.tape == arriving + rest
    requires |arriving| == |turn.z| && Inbound(arriving) == turn.z && NoisyFrame(turn.z, FLAG_START, turn.m)
    requires GoodAnswer(p, item, turn.m)
    ensures var (code, c1) := ReceivePacket(p, c);
            && code == Success && c1.w.tape == rest && c1.buf == Answered(p, c.buf, turn)
            && AnswerOk(p, item, c1.buf)
  {
    InboundThen(arriving, rest);
    var len := MaxResponse(p);
    var st := Fresh(c.buf, 0);
    DecodeNoisyFrame(turn.z, Inbound(rest), FLAG_START, turn.m, len, c.buf, 0);
    DecodeNoisyFrame(turn.z, [], FLAG_START, turn.m, len, c.buf, 0);
    assert turn.z + [] == turn.z;
    DecodeAppend(turn.z, Inbound(rest), FLAG_START, len, st);
    ReceiveDecodes(c.w, FLAG_START, len, st);
    assert (arriving + rest)[|arriving|..] == rest;
    assert turn.m <= Answered(p, c.buf, turn);
  }

  function AfterSend(c: Conn, packet: seq<byte>, item: Item): Conn {
    var c1 := SendPacket(c, packet).1;
    if item.Start? then Tell(c1, 30) else c1
  }

  lemma {:induction false} AskParts(p: Protocol, c: Conn, packet: seq<byte>, item: Item)
    requires p.Valid() && |c.buf| == BUFFER_SIZE && SendPacket(c, packet).0 == Success
    ensures |AfterSend(c, packet, item).buf| == BUFFER_SIZE
    ensures var (got, c3) := ReceivePacket(p, AfterSend(c, packet, item));
            && Ask(p, c, packet, item).code == (if got == Success && AnswerOk(p, item, c3.buf) then Success
                                                else InternalError)
            && Ask(p, c, packet, item).conn == c3
  {}

  lemma {:induction false} SendServed(c: Conn, packet: seq<byte>, item: Item, first: Reply, later: seq<Reply>)
    requires c.inited && |packet| <= BUFFER_SIZE && c.w.tape == [first] + later && Complete(first, |Frame(packet)|)
    ensures SendPacket(c, packet).0 == Success
    ensures var c2 := AfterSend(c, packet, item); c2.w.tape == later && c2.buf == c.buf && c2.inited
  {
    SendShows(c, packet);
  }

  lemma {:induction false} AskServed(p: Protocol, c: Conn, packet: seq<byte>, item: Item, turn: Turn,
                                     seg: seq<Reply>, rest: seq<Reply>)
    requires p.Valid() && |c.buf| == BUFFER_SIZE && c.inited && |packet| <= BUFFER_SIZE
    requires c.w.tape == seg + rest && ServesRequest(p, packet, item, turn, seg)
    ensures var t := Ask(p, c, packet, item);
            t.code == Success && t.conn.w.tape == rest && t.conn.buf == Answered(p, c.buf, turn)
  {
    assert c.w.tape == [seg[0]] + (seg[1..] + rest);
    SendServed(c, packet, item, seg[0], seg[1..] + rest);
    AskParts(p, c, packet, item);
    ReceiveServed(p, AfterSend(c, packet, item), item, turn, seg[1..], rest);
  }

  /** The environment's part in a list of exchanges, each over the buffer the one before left behind. */
  ghost predicate ServesAll(p: Protocol, buf: seq<byte>, contents: seq<seq<byte>>, turns: seq<Turn>,
                            segs: seq<seq<Reply>>)
    requires p.Valid() && |buf| == BUFFER_SIZE && forall x :: x in contents ==> p.Fits(x)
    decreases |contents|
  {
    && |turns| == |segs| == |contents|
    && (contents != [] ==>
          var b := Built(p, buf, contents[0]);
          && ServesRequest(p, PacketIn(p, b), Response(contents[0]), turns[0], segs[0])
          && ServesAll(p, Answered(p, b, turns[0]), contents[1..], turns[1..], segs[1..]))
  }

  /** The message buffer after a list of exchanges. */
  function AnsweredAll(p: Protocol, buf: seq<byte>, contents: seq<seq<byte>>, turns: seq<Turn>): (r: seq<byte>)
    requires p.Valid() && |buf| == BUFFER_SIZE && |turns| == |contents| && forall x :: x in contents ==> p.Fits(x)
    ensures |r| == BUFFER_SIZE
    decreases |contents|
  {
    if contents == [] then buf
    else AnsweredAll(p, Answered(p, Built(p, buf, contents[0]), turns[0]), contents[1..], turns[1..])
  }

  lemma {:induction false} AskItemServed(p: Protocol, c: Conn, content: seq<byte>, turn: Turn, seg: seq<Reply>,
                                         rest: seq<Reply>)
    requires p.Valid() && |c.buf| == BUFFER_SIZE && c.inited && p.Fits(content) && c.w.tape == seg + rest
    requires ServesRequest(p, PacketIn(p, Built(p, c.buf, content)), Response(content), turn, seg)
    ensures var t := AskItem(p, c, content);
            && t.code == Success && t.conn.w.tape == rest
            && t.conn.buf == Answered(p, Built(p, c.buf, content), turn)
  {
    var b := Built(p, c.buf, content);
    BuiltRequests(p, c.buf, content);
    AskServed(p, c.(buf := b), PacketIn(p, b), Response(content), turn, seg, rest);
  }

  lemma {:induction false} AskAllServed(p: Protocol, c: Conn, contents: seq<seq<byte>>, turns: seq<Turn>,
                                        segs: seq<seq<Reply>>, rest: seq<Reply>)
    requires p.Valid() && |c.buf| == BUFFER_SIZE && c.inited && forall x :: x in contents ==> p.Fits(x)
    requires c.w.tape == Concat(segs) + rest && ServesAll(p, c.buf, contents, turns, segs)
    ensures var t := AskAll(p, c, contents);
            t.code == Success && t.conn.w.tape == rest && t.conn.buf == AnsweredAll(p, c.buf, contents, turns)
    decreases |contents|
  {
    if contents == [] {
      assert [] + rest == rest;
    } else {
      Associates(segs[0], Concat(segs[1..]), rest);
      AskItemServed(p, c, contents[0], turns[0], segs[0], Concat(segs[1..]) + rest);
      AskAllServed(p, AskItem(p, c, contents[0]).conn, contents[1..], turns[1..], segs[1..], rest);
    }
  }

  /** The environment's part in a whole attempt. */
  datatype Part = Part(first: Turn, opening: seq<Reply>, turns: seq<Turn>, segs: seq<seq<Reply>>, last: Turn,
                       closing: seq<Reply>)

  function TapeOf(part: Part): seq<Reply> {
    part.opening + (Concat(part.segs) + part.closing)
  }

  /** Every request after the challenge is served: each certificate of the chain, and the token. */
  ghost predicate ServesAnswers(p: Protocol, buf: seq<byte>, o: Oracle, part: Part)
    requires p.Valid() && o.Valid(p) && |buf| == BUFFER_SIZE && Prepares(o, ChallengeIn(p, buf))
  {
    var certs := Certificates(p, o.chain.value);
    var token := o.sign(ChallengeIn(p, buf)).value;
    CertificatesFit(p, o.chain.value);
    && ServesAll(p, buf, certs, part.turns, part.segs)
    && var b := Built(p, AnsweredAll(p, buf, certs, part.turns), token);
       ServesRequest(p, PacketIn(p, b), Response(token), part.last, part.closing)
  }

  /** Every request of the attempt is served, and signing and chain parsing work. */
  ghost predicate ServesAttempt(p: Protocol, buf: seq<byte>, o: Oracle, part: Part)
    requires p.Valid() && o.Valid(p) && |buf| == BUFFER_SIZE
  {
    && ServesRequest(p, StartPacket(p, o.stack), Start, part.first, part.opening)
    && var b := Answered(p, buf, part.first);
       Prepares(o, ChallengeIn(p, b)) && ServesAnswers(p, b, o, part)
  }

  lemma {:induction false} AnswersServed(p: Protocol, c: Conn, contents: seq<seq<byte>>, token: seq<byte>,
                                         turns: seq<Turn>, segs: seq<seq<Reply>>, last: Turn, closing: seq<Reply>,
                                         rest: seq<Reply>)
    requires p.Valid() && |c.buf| == BUFFER_SIZE && c.inited && p.Fits(token) && forall x :: x in contents ==> p.Fits(x)
    requires c.w.tape == Concat(segs) + (closing + rest) && ServesAll(p, c.buf, contents, turns, segs)
    requires var b := Built(p, AnsweredAll(p, c.buf, contents, turns), token);
             ServesRequest(p, PacketIn(p, b), Response(token), last, closing)
    ensures var t := AnswerAll(p, c, contents, token); t.code == Success && t.conn.w.tape == rest
  {
    var certs := AskAll(p, Tell(c, 60), contents);
    AskAllServed(p, Tell(c, 60), contents, turns, segs, closing + rest);
    AskItemServed(p, Tell(certs.conn, 90), token, last, closing, rest);
  }

  lemma {:induction false} RespondServed(p: Protocol, c: Conn, o: Oracle, part: Part, rest: seq<Reply>)
    requires p.Valid() && o.Valid(p) && |c.buf| == BUFFER_SIZE && c.inited && Prepares(o, ChallengeIn(p, c.buf))
    requires c.w.tape == Concat(part.segs) + (part.closing + rest) && ServesAnswers(p, c.buf, o, part)
    ensures var t := Respond(p, c, o); t.code == Success && t.conn.w.tape == rest
  {
    CertificatesFit(p, o.chain.value);
    AnswersServed(p, Tell(Tell(c, 40), 50), Certificates(p, o.chain.value), o.sign(ChallengeIn(p, c.buf)).value,
                  part.turns, part.segs, part.last, part.closing, rest);
  }

  lemma {:induction false} AttemptServed(p: Protocol, c: Conn, o: Oracle, part: Part, rest: seq<Reply>)
    requires p.Valid() && o.Valid(p) && |c.buf| == BUFFER_SIZE && c.inited && ServesAttempt(p, c.buf, o, part)
    requires c.w.tape == part.opening + (Concat(part.segs) + (part.closing + rest))
    ensures var t := Attempt(p, c, o); t.code == Success && t.conn.w.tape == rest
  {
    var packet := StartPacket(p, o.stack);
    StartRequests(p, o.stack);
    AskServed(p, c, packet, Start, part.first, part.opening, Concat(part.segs) + (part.closing + rest));
    RespondServed(p, Ask(p, c, packet, Start).conn, o, part, rest);
  }

  /** The last packet is the request carrying this token. */
  predicate SendsLast(p: Protocol, xs: seq<Exchange>, token: Option<seq<byte>>) {
    token.Some? && xs != [] && Requests(p, xs[|xs| - 1].packet, Response(token.value))
  }

  /**
   * Against a peer that answers every request well, NULLs anywhere in its frames, the attempt succeeds, once
   * credentials load, signing and chain parsing work, and takes exactly the peer's answers from the wire; what is sent
   * last is the token signed over the challenge in the peer's first response.
   */
  lemma {:induction false} AuthenticationCompletes(p: Protocol, c: Conn, o: Oracle, part: Part, rest: seq<Reply>)
    requires p.Valid() && o.Valid(p) && |c.buf| == BUFFER_SIZE && c.inited && o.loaded
    requires ServesAttempt(p, c.buf, o, part) && c.w.tape == TapeOf(part) + rest
    ensures var t := Authenticate(p, c, o); t.code == Success && t.conn.w.tape == rest
    ensures p.responseSize + p.challengeSize <= |part.first.m| ==>
              SendsLast(p, Authenticate(p, c, o).xs,
                        o.sign(part.first.m[p.responseSize..p.responseSize + p.challengeSize]))
  {
    Associates(part.opening, Concat(part.segs) + part.closing, rest);
    Associates(Concat(part.segs), part.closing, rest);
    AttemptServed(p, Tell(Tell(c, 0), 20), o, part, rest);
    FirstChallenge(p, Tell(Tell(c, 0), 20), o, part, Concat(part.segs) + (part.closing + rest));
    var items, ix := AuthenticationSends(p, c, o);
    if p.responseSize + p.challengeSize <= |part.first.m| { ChallengeReceived(p, c.buf, part.first); }
  }

  lemma {:induction false} FirstChallenge(p: Protocol, c: Conn, o: Oracle, part: Part, rest: seq<Reply>)
    requires p.Valid() && o.Valid(p) && |c.buf| == BUFFER_SIZE && c.inited && ServesAttempt(p, c.buf, o, part)
    requires c.w.tape == part.opening + rest
    ensures Ask(p, c, StartPacket(p, o.stack), Start).conn.buf == Answered(p, c.buf, part.first)
  {
    StartRequests(p, o.stack);
    AskServed(p, c, StartPacket(p, o.stack), Start, part.first, part.opening, rest);
  }

  // ---- and there are such peers ----

  /** A peer that answers with `m` at once. */
  function Prompt(m: seq<byte>): Turn {
    Turn(m, Frame(m))
  }

  function PromptReplies(packet: seq<byte>, m: seq<byte>): seq<Reply> {
    [Reply(Success, |Frame(packet)|, [])] + Arriving(Frame(m))
  }

  lemma {:induction false} PromptServes(p: Protocol, packet: seq<byte>, item: Item, m: seq<byte>)
    requires GoodAnswer(p, item, m)
    ensures ServesRequest(p, packet, item, Prompt(m), PromptReplies(packet, m))
  {
    FrameIsNoisy(m);
    ArrivingDelivers(Frame(m));
    assert PromptReplies(packet, m)[1..] == Arriving(Frame(m));
  }

  lemma {:induction false} PromptServesAll(p: Protocol, buf: seq<byte>, contents: seq<seq<byte>>, m: seq<byte>)
    returns (turns: seq<Turn>, segs: seq<seq<Reply>>)
    requires p.Valid() && |buf| == BUFFER_SIZE && forall x :: x in contents ==> p.Fits(x)
    requires GoodAnswer(p, Response([]), m)
    ensures ServesAll(p, buf, contents, turns, segs)
    decreases |contents|
  {
    if contents == [] {
      turns, segs := [], [];
    } else {
      var b := Built(p, buf, contents[0]);
      PromptServes(p, PacketIn(p, b), Response(contents[0]), m);
      var ts, ss := PromptServesAll(p, Answered(p, b, Prompt(m)), contents[1..], m);
      turns, segs := [Prompt(m)] + ts, [PromptReplies(PacketIn(p, b), m)] + ss;
      assert turns[1..] == ts && segs[1..] == ss;
    }
  }

  /** For every buffer, chain and token some environment serves the attempt, if good answers exist to both requests. */
  lemma {:induction false} PromptPart(p: Protocol, buf: seq<byte>, o: Oracle, m0: seq<byte>, m1: seq<byte>)
    returns (part: Part)
    requires p.Valid() && o.Valid(p) && |buf| == BUFFER_SIZE
    requires GoodAnswer(p, Start, m0) && GoodAnswer(p, Response([]), m1)
    requires Prepares(o, ChallengeIn(p, Answered(p, buf, Prompt(m0))))
    ensures ServesAttempt(p, buf, o, part) && part.first == Prompt(m0)
  {
    var packet := StartPacket(p, o.stack);
    PromptServes(p, packet, Start, m0);
    var b := Answered(p, buf, Prompt(m0));
    CertificatesFit(p, o.chain.value);
    var certs := Certificates(p, o.chain.value);
    var turns, segs := PromptServesAll(p, b, certs, m1);
    var token := o.sign(ChallengeIn(p, b)).value;
    var last := PacketIn(p, Built(p, AnsweredAll(p, b, certs, turns), token));
    PromptServes(p, last, Response(token), m1);
    part := Part(Prompt(m0), PromptReplies(packet, m0), turns, segs, Prompt(m1), PromptReplies(last, m1));
    assert ServesAnswers(p, b, o, part);
  }

  /**
   * Whatever the chain and the credentials, if a good answer to each kind of request exists, then there is an
   * environment in which the attempt succeeds.
   */
  lemma {:induction false} AuthenticationPossible(p: Protocol, c: Conn, o: Oracle, m0: seq<byte>, m1: seq<byte>)
    returns (tape: seq<Reply>)
    requires p.Valid() && o.Valid(p) && |c.buf| == BUFFER_SIZE && c.inited && o.loaded
    requires GoodAnswer(p, Start, m0) && GoodAnswer(p, Response([]), m1)
    requires Prepares(o, ChallengeIn(p, Answered(p, c.buf, Prompt(m0))))
    ensures Authenticate(p, c.(w := c.w.(tape := tape)), o).code == Success
  {
    var part := PromptPart(p, c.buf, o, m0, m1);
    tape := TapeOf(part);
    assert TapeOf(part) + [] == tape;
    AuthenticationCompletes(p, c.(w := c.w.(tape := tape)), o, part, []);
  }

  // ---- the hypotheses are met ----

  function PlainChallenge(): seq<byte> {
    [0, 0, 0, 0, CHALLENGE_SIZE / 4, 0, 0, 0] + Zeros(CHALLENGE_SIZE)
  }

  function PlainAccept(): seq<byte> {
    Zeros(HEADER_SIZE)
  }

  lemma {:induction false} PlainAnswersGood()
    ensures GoodAnswer(PLAIN, Start, PlainChallenge()) && GoodAnswer(PLAIN, Response([]), PlainAccept())
  {
    forall buf: seq<byte> | |buf| == BUFFER_SIZE && PlainChallenge() <= buf ensures AnswerOk(PLAIN, Start, buf) {
      assert forall i :: 0 <= i < HEADER_SIZE ==> buf[i] == PlainChallenge()[i];
    }
    forall buf: seq<byte> | |buf| == BUFFER_SIZE && PlainAccept() <= buf
      ensures AnswerOk(PLAIN, Response([]), buf)
    {
      assert forall i :: 0 <= i < HEADER_SIZE ==> buf[i] == PlainAccept()[i];
    }
  }

  /**
   * With that layout, exactly these responses are good: to the start a count of 36 / 4 words, the top two bits of the
   * 32-bit count not mattering; to a certificate or token status 0 or 1.
   */
  lemma {:induction false} PlainAnswersExactly(m: seq<byte>)
    requires HEADER_SIZE <= |m| <= BUFFER_SIZE - HEADER_SIZE
    ensures GoodAnswer(PLAIN, Start, m) <==> m[4] == 9 && m[5] == 0 && m[6] == 0 && m[7] % 0x40 == 0
    ensures GoodAnswer(PLAIN, Response([]), m) <==> m[2] <= 1 && m[3] == 0
  {
    var whole := m + Zeros(BUFFER_SIZE - |m|);
    assert m <= whole && |whole| == BUFFER_SIZE;
    PlainCount(m[4], m[5], m[6], m[7]);
    forall buf: seq<byte> | |buf| == BUFFER_SIZE && m <= buf
      ensures AnswerOk(PLAIN, Start, buf) <==> m[4] == 9 && m[5] == 0 && m[6] == 0 && m[7] % 0x40 == 0
      ensures AnswerOk(PLAIN, Response([]), buf) <==> m[2] <= 1 && m[3] == 0
    {
      PlainAnswer(m, buf);
    }
    assert AnswerOk(PLAIN, Start, whole) ==> m[4] == 9;
  }

  lemma {:induction false} PlainAnswer(m: seq<byte>, buf: seq<byte>)
    requires HEADER_SIZE <= |m| && |buf| == BUFFER_SIZE && m <= buf
    ensures AnswerOk(PLAIN, Start, buf) <==> m[4] == 9 && m[5] == 0 && m[6] == 0 && m[7] % 0x40 == 0
    ensures AnswerOk(PLAIN, Response([]), buf) <==> m[2] <= 1 && m[3] == 0
  {
    assert forall i :: 0 <= i < HEADER_SIZE ==> buf[i] == m[i];
    PlainCount(m[4], m[5], m[6], m[7]);
    assert PLAIN.responseCount(buf) == m[4] as int + 0x100 * (m[5] as int)
                                       + 0x1_0000 * (m[6] as int + 0x100 * (m[7] as int));
  }

  lemma {:induction false} PlainCount(a: int, b: int, c: int, d: int)
    requires 0 <= a < 0x100 && 0 <= b < 0x100 && 0 <= c < 0x100 && 0 <= d < 0x100
    ensures (a + 0x100 * b + 0x1_0000 * (c + 0x100 * d)) * 4 % 0x1_0000_0000 == 36 <==>
            a == 9 && b == 0 && c == 0 && d % 0x40 == 0
  {
    var low := a + 0x100 * b + 0x1_0000 * (c + 0x100 * (d % 0x40));
    assert d == 0x40 * (d / 0x40) + d % 0x40;
    Split((a + 0x100 * b + 0x1_0000 * (c + 0x100 * d)) * 4, 0x1_0000_0000, d / 0x40, 4 * low);
  }

  /**
   * With that layout, any chain of certificates and any token that fit the buffer are presented successfully in some
   * environment: the conditions under which the conversation is described can all be met together.
   */
  lemma {:induction false} PlainAttemptSucceeds(chain: seq<Tlv>, token: seq<byte>) returns (c: Conn, o: Oracle)
    requires forall t :: t in chain && t.kind == PLAIN.certificateType ==> PLAIN.Fits(t.bytes)
    requires PLAIN.Fits(token)
    ensures PLAIN.Valid() && o.Valid(PLAIN) && |c.buf| == BUFFER_SIZE && c.inited
    ensures o.loaded && o.chain == Some(chain) && (forall x :: o.sign(x) == Some(token))
    ensures Authenticate(PLAIN, c, o).code == Success
  {
    PlainIsValid();
    PlainAnswersGood();
    o := Oracle(true, _ => Some(token), Some(chain), Zeros(HEADER_SIZE));
    c := Conn(World([], EMPTY_LOG), true, Zeros(BUFFER_SIZE), true);
    var tape := AuthenticationPossible(PLAIN, c, o, PlainChallenge(), PlainAccept());
    c := c.(w := c.w.(tape := tape));
  }
}
