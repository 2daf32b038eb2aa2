/** What an authentication attempt shows on the wire and to the user, for every chain, token and peer. */
module ConversationTrace {
  import opened Types
  import opened Framing
  import opened Decoder
  import opened RoundTrip
  import opened Hosts
  import opened Transport
  import opened Messages
  import opened Conversation

  // ---- packet sizes against the encoder's 16-bit index ----

  /**
   * A request that fits the message buffer never wraps the encoder's index, so what goes on the wire is its frame,
   * which decodes to exactly header and content; the encoder's capacity check cannot fail.
   */
  lemma {:induction false} PacketOnWire(p: Protocol, c: Conn, content: seq<byte>, buf: seq<byte>, len: nat)
    requires p.Valid() && |c.buf| == BUFFER_SIZE && p.Fits(content) && c.inited
    requires BUFFER_SIZE <= len <= |buf| && len < INDEX_RANGE
    ensures var packet := PacketIn(p, Built(p, c.buf, content));
            && Prepared(packet) == Frame(packet) && |Frame(packet)| <= 8194
            && |Prepared(packet)| <= 2 * |packet| + 2
            && SendPacket(c, packet).1.w.log.offered == c.w.log.offered + Frame(packet)
            && (var d := Decode(Frame(packet), FLAG_START, len, Fresh(buf, 0));
                d.code == Some(Success) && d.st.buf[..|packet|] == packet && d.st.actual == |packet|)
            && Requests(p, packet, Response(content))
            && (packet[p.requestSize..] == content <==> |content| % 4 == 0)
  {
    var packet := PacketIn(p, Built(p, c.buf, content));
    BuiltRequests(p, c.buf, content);
    SendShows(c, packet);
    FrameDecodes(packet, buf, len);
  }

  lemma {:induction false} FrameDecodes(m: seq<byte>, buf: seq<byte>, len: nat)
    requires 0 < |m| <= len <= |buf| && len < INDEX_RANGE
    ensures var d := Decode(Frame(m), FLAG_START, len, Fresh(buf, 0));
            d.code == Some(Success) && d.st.buf[..|m|] == m && d.st.actual == |m|
  {
    FrameIsNoisy(m);
    DecodeNoisyFrame(Frame(m), [], FLAG_START, m, len, buf, 0);
    assert Frame(m) + [] == Frame(m);
  }

  // ---- the wire ----

  function NotesOfExchange(x: Exchange): seq<Note> {
    Sents(Frame(x.packet)) + Gots(x.heard)
  }

  function NotesOfAll(xs: seq<Exchange>): seq<Note> {
    Gather(xs, NotesOfExchange)
  }

  /** Decoding only the bytes that were used gives the same result. */
  lemma {:induction false} UsedSuffices(s: seq<byte>, flag: byte, len: nat, st: RxState)
    requires len <= |st.buf| && Decode(s, flag, len, st).code.Some?
    ensures Decode(s[..Decode(s, flag, len, st).used], flag, len, st) == Decode(s, flag, len, st)
  {
    var d := Decode(s, flag, len, st);
    assert s == s[..d.used] + s[d.used..];
    DecodeAppend(s[..d.used], s[d.used..], flag, len, st);
  }

  /**
   * What was heard is exactly one complete frame that fits after the response header, and with it the message buffer
   * holds a good answer: to the start a challenge of the right size, counted in words in 32 bits, to anything else the
   * status success or need-more-data.
   */
  predicate Accepted(p: Protocol, item: Item, x: Exchange)
    requires p.responseSize <= BUFFER_SIZE
  {
    && |x.before| == BUFFER_SIZE
    && var d := Decode(x.heard, FLAG_START, BUFFER_SIZE - p.responseSize, Fresh(x.before, 0));
       && d.code == Some(Success) && d.used == |x.heard|
       && match item
          case Start => 4 * p.responseCount(d.st.buf) % 0x1_0000_0000 == p.challengeSize
          case Response(_) => p.responseStatus(d.st.buf) in {p.statusSuccess, p.statusMoreData}
  }

  /**
   * One exchange shows its packet's frame and then the bytes heard, and succeeds exactly when the answer is
   * accepted.
   */
  lemma {:induction false} AskShows(p: Protocol, c: Conn, packet: seq<byte>, item: Item)
    requires p.Valid() && |c.buf| == BUFFER_SIZE && c.inited && |packet| <= BUFFER_SIZE
    ensures var t := Ask(p, c, packet, item);
            && |t.xs| == 1 && t.xs[0].packet == packet
            && t.conn.w.log.notes == c.w.log.notes + NotesOfAll(t.xs)
            && (t.code == Success <==> Accepted(p, item, t.xs[0]))
            && (t.code == Success || t.code == InternalError)
  {
    var t := Ask(p, c, packet, item);
    var (sent, c1) := SendPacket(c, packet);
    SendShows(c, packet);
    GatherOne(t.xs[0], NotesOfExchange);
    if sent != Success {
      assert Sents(Frame(packet)) + Gots([]) == Sents(Frame(packet));
    } else {
      var c2 := if item.Start? then Tell(c1, 30) else c1;
      TellIsQuiet(c1, 30);
      ReceiveShows(p, c2, item, packet);
      Associates(c.w.log.notes, Sents(Frame(packet)), Gots(HeardIn(p, c2)));
    }
  }

  lemma {:induction false} SendShows(c: Conn, packet: seq<byte>)
    requires c.inited && |packet| <= BUFFER_SIZE
    ensures var c1 := SendPacket(c, packet).1;
            && c1.w.log.notes == c.w.log.notes + Sents(Frame(packet))
            && c1.w.log.offered == c.w.log.offered + Frame(packet)
            && c1.w.log.progress == c.w.log.progress
            && Prepared(packet) == Frame(packet) && |Frame(packet)| <= 2 * |packet| + 2 <= 2 * BUFFER_SIZE + 2
  {
    FrameFits(packet);
    PreparedIsFrame(packet);
    TxRawLog(c.w, true, Frame(packet));
  }

  lemma {:induction false} ReceiveShows(p: Protocol, c: Conn, item: Item, packet: seq<byte>)
    requires p.Valid() && |c.buf| == BUFFER_SIZE && c.inited
    ensures var (got, c1) := ReceivePacket(p, c);
            && Hears(c.w.log, c1.w.log, HeardIn(p, c))
            && c1.w.log.progress == c.w.log.progress
            && (got == Success && AnswerOk(p, item, c1.buf) <==>
                  Accepted(p, item, Exchange(packet, c.buf, HeardIn(p, c))))
  {
    var st := Fresh(c.buf, 0);
    var s := Inbound(c.w.tape);
    ReceiveDecodes(c.w, FLAG_START, MaxResponse(p), st);
    var d := Decode(s, FLAG_START, MaxResponse(p), st);
    if d.code.Some? {
      UsedSuffices(s, FLAG_START, MaxResponse(p), st);
    } else {
      DecodeAppend(s, [], FLAG_START, MaxResponse(p), st);
      assert s[..d.used] == s;
    }
  }

  // ---- the sequence of requests ----

  /** Each element is related to the one at the same place. */
  ghost predicate Matches<T, U>(xs: seq<T>, a: seq<U>, related: (T, U) -> bool) {
    |xs| <= |a| && forall i :: 0 <= i < |xs| ==> related(xs[i], a[i])
  }

  lemma {:induction false} MatchesConcat<T, U>(xs: seq<T>, ys: seq<T>, a: seq<U>, b: seq<U>, related: (T, U) -> bool)
    requires |xs| == |a| && Matches(xs, a, related)
    ensures Matches(xs + ys, a + b, related) <==> Matches(ys, b, related)
  {
    assert forall i :: 0 <= i < |ys| && |ys| <= |b| ==> (xs + ys)[|xs| + i] == ys[i] && (a + b)[|a| + i] == b[i];
  }

  function RequestFor(p: Protocol): (Exchange, Item) -> bool {
    (x: Exchange, item: Item) => Requests(p, x.packet, item)
  }

  function AcceptedFor(p: Protocol): (Exchange, Item) -> bool
    requires p.responseSize <= BUFFER_SIZE
  {
    (x: Exchange, item: Item) => Accepted(p, item, x)
  }

  function Front<T>(xs: seq<T>): seq<T> {
    if xs == [] then [] else xs[..|xs| - 1]
  }

  /**
   * The exchanges `xs` follow the list `items`: each packet is the request for its item, and every exchange but
   * possibly the last was answered acceptably before the next request was sent.
   */
  ghost predicate Follows(p: Protocol, xs: seq<Exchange>, items: seq<Item>)
    requires p.responseSize <= BUFFER_SIZE
  {
    Matches(xs, items, RequestFor(p)) && Matches(Front(xs), items, AcceptedFor(p))
  }

  /** The whole list was sent and every answer accepted. */
  ghost predicate Finished(p: Protocol, xs: seq<Exchange>, items: seq<Item>)
    requires p.responseSize <= BUFFER_SIZE
  {
    |xs| == |items| && Matches(xs, items, AcceptedFor(p))
  }

  lemma {:induction false} FollowsThen(p: Protocol, xs: seq<Exchange>, ys: seq<Exchange>, a: seq<Item>, b: seq<Item>)
    requires p.responseSize <= BUFFER_SIZE
    requires Follows(p, xs, a) && Finished(p, xs, a) && Follows(p, ys, b)
    ensures Follows(p, xs + ys, a + b)
    ensures Finished(p, ys, b) <==> Finished(p, xs + ys, a + b)
  {
    MatchesConcat(xs, ys, a, b, RequestFor(p));
    MatchesConcat(xs, ys, a, b, AcceptedFor(p));
    MatchesConcat(xs, Front(ys), a, b, AcceptedFor(p));
    if ys == [] {
      assert xs + ys == xs;
      assert forall i :: 0 <= i < |a| ==> (a + b)[i] == a[i];
    } else {
      assert Front(xs + ys) == xs + Front(ys);
    }
  }

  lemma {:induction false} FollowsLonger(p: Protocol, xs: seq<Exchange>, a: seq<Item>, b: seq<Item>)
    requires p.responseSize <= BUFFER_SIZE
    requires Follows(p, xs, a)
    ensures Follows(p, xs, a + b)
    ensures !Finished(p, xs, a) ==> !Finished(p, xs, a + b)
  {
    assert forall i :: 0 <= i < |a| ==> (a + b)[i] == a[i];
  }

  function Responses(contents: seq<seq<byte>>): (items: seq<Item>)
    ensures |items| == |contents|
  {
    seq(|contents|, i requires 0 <= i < |contents| => Response(contents[i]))
  }

  lemma {:induction false} ResponsesCons(contents: seq<seq<byte>>)
    requires contents != []
    ensures Responses(contents) == [Response(contents[0])] + Responses(contents[1..])
  {}

  /** What a stretch of the conversation shows. */
  ghost predicate Tells(p: Protocol, c: Conn, t: Talk, items: seq<Item>)
    requires p.Valid()
  {
    && t.conn.w.log.notes == c.w.log.notes + NotesOfAll(t.xs)
    && Follows(p, t.xs, items)
    && (t.code == Success <==> Finished(p, t.xs, items))
    && (t.code == Success || t.code == InternalError)
  }

  lemma {:induction false} AskItemTells(p: Protocol, c: Conn, content: seq<byte>)
    requires p.Valid() && |c.buf| == BUFFER_SIZE && c.inited && p.Fits(content)
    ensures Tells(p, c, AskItem(p, c, content), [Response(content)])
  {
    var b := Built(p, c.buf, content);
    BuiltRequests(p, c.buf, content);
    AskShows(p, c.(buf := b), PacketIn(p, b), Response(content));
  }

  lemma {:induction false} TellsThen(p: Protocol, c: Conn, first: Talk, second: Talk, a: seq<Item>, b: seq<Item>)
    requires p.Valid() && Tells(p, c, first, a) && first.code == Success && Tells(p, first.conn, second, b)
    ensures Tells(p, c, Talk(second.code, second.conn, first.xs + second.xs), a + b)
  {
    GatherConcat(first.xs, second.xs, NotesOfExchange);
    Associates(c.w.log.notes, NotesOfAll(first.xs), NotesOfAll(second.xs));
    FollowsThen(p, first.xs, second.xs, a, b);
  }

  lemma {:induction false} TellsLess(p: Protocol, c: Conn, t: Talk, a: seq<Item>, b: seq<Item>)
    requires p.Valid() && Tells(p, c, t, a) && t.code != Success
    ensures Tells(p, c, t, a + b)
  {
    FollowsLonger(p, t.xs, a, b);
  }

  lemma {:induction false} AskAllTells(p: Protocol, c: Conn, contents: seq<seq<byte>>)
    requires p.Valid() && |c.buf| == BUFFER_SIZE && c.inited && forall x :: x in contents ==> p.Fits(x)
    ensures Tells(p, c, AskAll(p, c, contents), Responses(contents))
    decreases |contents|
  {
    if contents == [] {
      assert c.w.log.notes + [] == c.w.log.notes;
    } else {
      var t := AskItem(p, c, contents[0]);
      AskItemTells(p, c, contents[0]);
      ResponsesCons(contents);
      if t.code == Success {
        AskAllTells(p, t.conn, contents[1..]);
        TellsThen(p, c, t, AskAll(p, t.conn, contents[1..]), [Response(contents[0])], Responses(contents[1..]));
      } else {
        TellsLess(p, c, t, [Response(contents[0])], Responses(contents[1..]));
      }
    }
  }

  /** Telling progress changes nothing on the wire. */
  lemma {:induction false} TellIsQuiet(c: Conn, percent: nat)
    ensures var c1 := Tell(c, percent);
            c1.w.log.notes == c.w.log.notes && c1 == c.(w := c1.w)
            && c1.w.log.progress == c.w.log.progress + (if c.showsProgress then [percent] else [])
  {
    assert c.w.log.notes + [] == c.w.log.notes;
  }

  /** What follows the challenge: the certificates in chain order, then the token. */
  function Answers(p: Protocol, o: Oracle, challenge: seq<byte>): seq<Item> {
    var certs := if o.chain.Some? then Certificates(p, o.chain.value) else [];
    var token := if o.sign(challenge).Some? then o.sign(challenge).value else [];
    Responses(certs) + [Response(token)]
  }

  /** Signing and parsing both work. */
  predicate Prepares(o: Oracle, challenge: seq<byte>) {
    o.sign(challenge).Some? && o.chain.Some?
  }

  lemma {:induction false} Quietly(p: Protocol, c: Conn, percent: nat, t: Talk, items: seq<Item>)
    requires p.Valid() && Tells(p, Tell(c, percent), t, items)
    ensures Tells(p, c, t, items)
  {
    TellIsQuiet(c, percent);
  }

  lemma {:induction false} RespondTells(p: Protocol, c: Conn, o: Oracle)
    requires p.Valid() && o.Valid(p) && |c.buf| == BUFFER_SIZE && c.inited
    ensures var t := Respond(p, c, o);
            var challenge := ChallengeIn(p, c.buf);
            && (Prepares(o, challenge) ==> Tells(p, c, t, Answers(p, o, challenge)))
            && (!Prepares(o, challenge) ==>
                  t.code == InternalError && t.xs == [] && t.conn.w.log.notes == c.w.log.notes)
  {
    var challenge := ChallengeIn(p, c.buf);
    TellIsQuiet(c, 40);
    TellIsQuiet(Tell(c, 40), 50);
    if o.chain.Some? { CertificatesFit(p, o.chain.value); }
    if Prepares(o, challenge) {
      SendAnswers(p, Tell(Tell(c, 40), 50), Certificates(p, o.chain.value), o.sign(challenge).value);
    }
  }

  lemma {:induction false} SendAnswers(p: Protocol, c: Conn, contents: seq<seq<byte>>, token: seq<byte>)
    requires p.Valid() && |c.buf| == BUFFER_SIZE && c.inited && p.Fits(token) && forall x :: x in contents ==> p.Fits(x)
    ensures Tells(p, c, AnswerAll(p, c, contents, token), Responses(contents) + [Response(token)])
  {
    var certs := AskAll(p, Tell(c, 60), contents);
    AskAllTells(p, Tell(c, 60), contents);
    Quietly(p, c, 60, certs, Responses(contents));
    if certs.code != Success {
      TellsLess(p, c, certs, Responses(contents), [Response(token)]);
    } else {
      var last := AskItem(p, Tell(certs.conn, 90), token);
      AskItemTells(p, Tell(certs.conn, 90), token);
      Quietly(p, certs.conn, 90, last, [Response(token)]);
      TellsThen(p, c, certs, last, Responses(contents), [Response(token)]);
      TellIsQuiet(last.conn, 100);
    }
  }

  /** The requests of a whole attempt: the start, then the answers to the challenge. */
  function Requested(p: Protocol, o: Oracle, challenge: seq<byte>): seq<Item> {
    [Start] + Answers(p, o, challenge)
  }

  /** The challenge as it stands in the message buffer after the first exchange. */
  function ChallengeHeard(p: Protocol, c: Conn, o: Oracle): seq<byte>
    requires p.Valid() && |c.buf| == BUFFER_SIZE
  {
    ChallengeIn(p, Ask(p, Tell(Tell(c, 0), 20), StartPacket(p, o.stack), Start).conn.buf)
  }

  lemma {:induction false} StartRequests(p: Protocol, stack: seq<byte>)
    requires p.Valid() && |stack| == p.requestSize
    ensures Requests(p, StartPacket(p, stack), Start) && |StartPacket(p, stack)| <= BUFFER_SIZE
  {}

  /**
   * The authentication conversation, for every chain, token and peer: what goes over the wire is, in order, the
   * frames of AuthStart, of one AuthResponse per certificate of the chain and of AuthResponse with the token, each
   * followed by the bytes read in answer; it stops after the first exchange that is not answered acceptably. Once
   * credentials load, signing and parsing work, the attempt succeeds exactly when the whole list was sent and
   * every answer accepted; with credentials missing nothing is sent, and a failure to sign or parse ends it after
   * the challenge.
   */
  lemma {:induction false} AuthenticationTells(p: Protocol, c: Conn, o: Oracle)
    requires p.Valid() && o.Valid(p) && |c.buf| == BUFFER_SIZE && c.inited
    ensures var t := Authenticate(p, c, o);
            var challenge := ChallengeHeard(p, c, o);
            && t.conn.w.log.notes == c.w.log.notes + NotesOfAll(t.xs)
            && Follows(p, t.xs, Requested(p, o, challenge))
            && (o.loaded && Prepares(o, challenge) ==>
                  (t.code == Success <==> Finished(p, t.xs, Requested(p, o, challenge))))
            && (!o.loaded ==> t.xs == [] && t.code == InternalError)
            && (o.loaded && !Prepares(o, challenge) ==> |t.xs| == 1 && t.code == InternalError)
            && (t.code == Success || t.code == InternalError)
  {
    TellIsQuiet(c, 0);
    TellIsQuiet(Tell(c, 0), 20);
    var c2 := Tell(Tell(c, 0), 20);
    var challenge := ChallengeHeard(p, c, o);
    if o.loaded {
      AttemptTells(p, c2, o, challenge);
    } else {
      assert c.w.log.notes + NotesOfAll([]) == c.w.log.notes;
    }
  }

  lemma {:induction false} StartTells(p: Protocol, c: Conn, o: Oracle)
    requires p.Valid() && o.Valid(p) && |c.buf| == BUFFER_SIZE && c.inited
    ensures var first := Ask(p, c, StartPacket(p, o.stack), Start);
            Tells(p, c, first, [Start]) && |first.xs| == 1
  {
    StartRequests(p, o.stack);
    AskShows(p, c, StartPacket(p, o.stack), Start);
  }

  lemma {:induction false} AttemptTells(p: Protocol, c: Conn, o: Oracle, challenge: seq<byte>)
    requires p.Valid() && o.Valid(p) && |c.buf| == BUFFER_SIZE && c.inited
    requires challenge == ChallengeIn(p, Ask(p, c, StartPacket(p, o.stack), Start).conn.buf)
    ensures var t := Attempt(p, c, o);
            && t.conn.w.log.notes == c.w.log.notes + NotesOfAll(t.xs)
            && Follows(p, t.xs, Requested(p, o, challenge))
            && (Prepares(o, challenge) ==>
                  (t.code == Success <==> Finished(p, t.xs, Requested(p, o, challenge))))
            && (!Prepares(o, challenge) ==> |t.xs| == 1 && t.code == InternalError)
            && (t.code == Success || t.code == InternalError)
  {
    var first := Ask(p, c, StartPacket(p, o.stack), Start);
    StartTells(p, c, o);
    if first.code != Success {
      TellsLess(p, c, first, [Start], Answers(p, o, challenge));
    } else {
      RespondTells(p, first.conn, o);
      var rest := Respond(p, first.conn, o);
      if Prepares(o, challenge) {
        TellsThen(p, c, first, rest, [Start], Answers(p, o, challenge));
      } else {
        FollowsLonger(p, first.xs, [Start], Answers(p, o, challenge));
        assert first.xs + rest.xs == first.xs;
      }
    }
  }

  /** The requests of a whole attempt by place: the start, the certificates of the chain in order, the token. */
  ghost predicate InChainOrder(p: Protocol, chain: seq<Tlv>, token: seq<byte>, items: seq<Item>, ix: seq<nat>) {
    && PlacesOf(p, chain, ix) && |items| == |ix| + 2
    && items[0] == Start && items[|ix| + 1] == Response(token)
    && forall k :: 0 <= k < |ix| ==> ix[k] in ix && items[1 + k] == Response(chain[ix[k]].bytes)
  }

  lemma {:induction false} RequestedInOrder(p: Protocol, o: Oracle, challenge: seq<byte>) returns (ix: seq<nat>)
    requires Prepares(o, challenge)
    ensures InChainOrder(p, o.chain.value, o.sign(challenge).value, Requested(p, o, challenge), ix)
  {
    ix := CertificatesMeaning(p, o.chain.value);
    var items := Requested(p, o, challenge);
    forall k | 0 <= k < |ix| ensures ix[k] in ix && items[1 + k] == Response(o.chain.value[ix[k]].bytes) {
      assert items[1 + k] == Responses(Certificates(p, o.chain.value))[k];
    }
  }

  /**
   * A successful attempt has sent the start, every certificate of the chain in its order, and the token signed over the
   * challenge, and nothing else.
   */
  lemma {:induction false} AuthenticationSends(p: Protocol, c: Conn, o: Oracle) returns (items: seq<Item>, ix: seq<nat>)
    requires p.Valid() && o.Valid(p) && |c.buf| == BUFFER_SIZE && c.inited
    requires Authenticate(p, c, o).code == Success
    ensures var t, challenge := Authenticate(p, c, o), ChallengeHeard(p, c, o);
            && o.sign(challenge).Some? && o.chain.Some?
            && InChainOrder(p, o.chain.value, o.sign(challenge).value, items, ix)
            && |t.xs| == |items|
            && forall i :: 0 <= i < |items| ==> Requests(p, t.xs[i].packet, items[i]) && Accepted(p, items[i], t.xs[i])
  {
    AuthenticationTells(p, c, o);
    var challenge := ChallengeHeard(p, c, o);
    items := Requested(p, o, challenge);
    ix := RequestedInOrder(p, o, challenge);
    FinishedMeans(p, Authenticate(p, c, o).xs, items);
  }

  lemma {:induction false} FinishedMeans(p: Protocol, xs: seq<Exchange>, items: seq<Item>)
    requires p.responseSize <= BUFFER_SIZE && Follows(p, xs, items) && Finished(p, xs, items)
    ensures |xs| == |items|
    ensures forall i :: 0 <= i < |items| ==> Requests(p, xs[i].packet, items[i]) && Accepted(p, items[i], xs[i])
  {
    forall i | 0 <= i < |items| ensures Requests(p, xs[i].packet, items[i]) && Accepted(p, items[i], xs[i]) {
      assert RequestFor(p)(xs[i], items[i]) && AcceptedFor(p)(xs[i], items[i]);
    }
  }
}
