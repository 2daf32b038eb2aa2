/** The ADAC conversation of `SDMAuthenticate`, as a function of the connection, and what it puts on the wire. */
module Conversation {
  import opened Types
  import opened Decoder
  import opened Hosts
  import opened Messages

  const BUFFER_SIZE := 4096

  /**
   * The packet layouts and command values, which are defined outside this repository: header sizes, a writer for the
   * request header's `command` and `data_count` over what was there before, and readers. The header holds at least the
   * two commands that are sent and the counts that fit the message buffer; `Layouts` shows one such layout.
   */
  datatype Protocol = Protocol(
    requestSize: nat,
    responseSize: nat,
    challengeSize: nat,
    setRequest: (seq<byte>, nat, nat) -> seq<byte>,
    commandOf: seq<byte> -> nat,
    countOf: seq<byte> -> nat,
    responseStatus: seq<byte> -> nat,
    responseCount: seq<byte> -> nat,
    startCommand: nat,
    responseCommand: nat,
    statusSuccess: nat,
    statusMoreData: nat,
    certificateType: nat)
  {
    ghost predicate Valid() {
      && 0 < requestSize < BUFFER_SIZE
      && 0 < responseSize < BUFFER_SIZE && responseSize + challengeSize <= BUFFER_SIZE
      && forall h: seq<byte>, cmd: nat, n: nat :: |h| == requestSize && IsSent(cmd) && n <= BUFFER_SIZE ==>
           var h1 := setRequest(h, cmd, n);
           |h1| == requestSize && commandOf(h1) == cmd && countOf(h1) == n
    }

    /** The commands of the conversation. */
    predicate IsSent(cmd: nat) {
      cmd == startCommand || cmd == responseCommand
    }

    /** Content that fits the message buffer after the request header. */
    predicate Fits(content: seq<byte>) {
      requestSize + |content| <= BUFFER_SIZE
    }
  }

  /** The connection: the world, whether the driver is initialised, and the shared message buffer. */
  datatype Conn = Conn(w: World, inited: bool, buf: seq<byte>, showsProgress: bool)

  /** An entry of the parsed chain: its type, and the whole entry as it is sent, its own header included. */
  datatype Tlv = Tlv(kind: nat, bytes: seq<byte>)

  /**
   * What the foreign calls give: credentials, the token signed over a challenge, the parsed chain, and stack
   * contents.
   */
  datatype Oracle = Oracle(loaded: bool, sign: seq<byte> -> Option<seq<byte>>, chain: Option<seq<Tlv>>,
                           stack: seq<byte>)
  {
    ghost predicate Valid(p: Protocol) {
      && |stack| == p.requestSize
      && (forall c :: sign(c).Some? ==> p.Fits(sign(c).value))
      && (chain.Some? ==> forall t :: t in chain.value && t.kind == p.certificateType ==> p.Fits(t.bytes))
    }
  }

  // ---- requests ----

  /** The message buffer after a request has been built in it. */
  function Built(p: Protocol, buf: seq<byte>, content: seq<byte>): (r: seq<byte>)
    requires p.Valid() && |buf| == BUFFER_SIZE && p.Fits(content)
    ensures |r| == BUFFER_SIZE
  {
    p.setRequest(buf[..p.requestSize], p.responseCommand, |content| / 4) + content + buf[p.requestSize + |content|..]
  }

  /** The bytes of a built request that are sent: the header and `data_count` words. */
  function PacketIn(p: Protocol, buf: seq<byte>): seq<byte>
    requires p.Valid() && |buf| == BUFFER_SIZE
  {
    var size := p.requestSize + 4 * p.countOf(buf[..p.requestSize]);
    if size <= |buf| then buf[..size] else buf
  }

  function StartPacket(p: Protocol, stack: seq<byte>): seq<byte> {
    p.setRequest(stack, p.startCommand, 0)
  }

  datatype Item = Start | Response(content: seq<byte>)

  /** The whole words of the content: `data_count` cannot express the rest. */
  function WholeWords(content: seq<byte>): seq<byte> {
    content[..|content| - |content| % 4]
  }

  /** `packet` is a request for `item`: the right command, the right count, and the content after the header. */
  predicate Requests(p: Protocol, packet: seq<byte>, item: Item) {
    && |packet| >= p.requestSize
    && match item
       case Start =>
         packet[p.requestSize..] == [] && p.commandOf(packet) == p.startCommand && p.countOf(packet) == 0
       case Response(content) =>
         && packet[p.requestSize..] == WholeWords(content)
         && p.commandOf(packet[..p.requestSize]) == p.responseCommand
         && p.countOf(packet[..p.requestSize]) == |content| / 4
  }

  lemma {:induction false} BuiltRequests(p: Protocol, buf: seq<byte>, content: seq<byte>)
    requires p.Valid() && |buf| == BUFFER_SIZE && p.Fits(content)
    ensures var packet := PacketIn(p, Built(p, buf, content));
            Requests(p, packet, Response(content)) && |packet| <= BUFFER_SIZE
  {
    var b := Built(p, buf, content);
    var h := p.setRequest(buf[..p.requestSize], p.responseCommand, |content| / 4);
    assert b[..p.requestSize] == h;
    assert p.countOf(h) == |content| / 4;
    assert 4 * (|content| / 4) == |content| - |content| % 4;
    var packet := PacketIn(p, b);
    assert packet[..p.requestSize] == h;
    assert packet[p.requestSize..] == WholeWords(content);
  }

  // ---- the exchanges ----

  /**
   * A request put on the wire, the message buffer its answer was received into, and the bytes read in answer (none
   * when sending failed).
   */
  datatype Exchange = Exchange(packet: seq<byte>, before: seq<byte>, heard: seq<byte>)

  datatype Talk = Talk(code: ReturnCode, conn: Conn, xs: seq<Exchange>)

  /** How much of the message buffer a response may fill. */
  function MaxResponse(p: Protocol): (n: nat)
    ensures n <= BUFFER_SIZE
  {
    if p.responseSize <= BUFFER_SIZE then BUFFER_SIZE - p.responseSize else 0
  }

  function Tell(c: Conn, percent: nat): Conn {
    if c.showsProgress then c.(w := Told(c.w, percent)) else c
  }

  function SendPacket(c: Conn, packet: seq<byte>): (ReturnCode, Conn) {
    var (code, w1, _) := Transmit(c.w, c.inited, packet, true);
    (code, c.(w := w1))
  }

  function ReceivePacket(p: Protocol, c: Conn): (r: (ReturnCode, Conn))
    requires p.Valid() && |c.buf| == BUFFER_SIZE
    ensures |r.1.buf| == BUFFER_SIZE && r.1.inited == c.inited && r.1.showsProgress == c.showsProgress
  {
    if !c.inited then (RequestFailed, c)
    else
      var (code, w1, st) := Receive(c.w, FLAG_START, MaxResponse(p), Fresh(c.buf, 0));
      (code, c.(w := w1, buf := st.buf))
  }

  /** The bytes a receive call takes off the wire. */
  function HeardIn(p: Protocol, c: Conn): seq<byte>
    requires p.Valid() && |c.buf| == BUFFER_SIZE
  {
    if !c.inited then []
    else
      var s := Inbound(c.w.tape);
      s[..Decode(s, FLAG_START, MaxResponse(p), Fresh(c.buf, 0)).used]
  }

  /** `data_count * 4` is computed in 32 bits. */
  predicate ChallengeOk(p: Protocol, buf: seq<byte>) {
    p.responseCount(buf) * 4 % 0x1_0000_0000 == p.challengeSize
  }

  predicate StatusOk(p: Protocol, buf: seq<byte>) {
    p.responseStatus(buf) == p.statusSuccess || p.responseStatus(buf) == p.statusMoreData
  }

  predicate AnswerOk(p: Protocol, item: Item, buf: seq<byte>) {
    if item.Start? then ChallengeOk(p, buf) else StatusOk(p, buf)
  }

  function ChallengeIn(p: Protocol, buf: seq<byte>): seq<byte>
    requires p.Valid() && |buf| == BUFFER_SIZE
  {
    buf[p.responseSize..p.responseSize + p.challengeSize]
  }

  /** Send, receive, check; every failure is reported as an internal error. */
  function Ask(p: Protocol, c: Conn, packet: seq<byte>, item: Item): (t: Talk)
    requires p.Valid() && |c.buf| == BUFFER_SIZE
    ensures |t.conn.buf| == BUFFER_SIZE && t.conn.inited == c.inited && t.conn.showsProgress == c.showsProgress
  {
    var (sent, c1) := SendPacket(c, packet);
    if sent != Success then Talk(InternalError, c1, [Exchange(packet, c.buf, [])])
    else
      var c2 := if item.Start? then Tell(c1, 30) else c1;
      var (got, c3) := ReceivePacket(p, c2);
      var xs := [Exchange(packet, c.buf, HeardIn(p, c2))];
      Talk(if got == Success && AnswerOk(p, item, c3.buf) then Success else InternalError, c3, xs)
  }

  /** One certificate or token: built in the shared buffer, sent, and answered into the same buffer. */
  function AskItem(p: Protocol, c: Conn, content: seq<byte>): (t: Talk)
    requires p.Valid() && |c.buf| == BUFFER_SIZE && p.Fits(content)
    ensures |t.conn.buf| == BUFFER_SIZE && t.conn.inited == c.inited && t.conn.showsProgress == c.showsProgress
  {
    var b := Built(p, c.buf, content);
    Ask(p, c.(buf := b), PacketIn(p, b), Response(content))
  }

  /** The contents of the chain's certificates, in chain order. */
  function Certificates(p: Protocol, chain: seq<Tlv>): seq<seq<byte>> {
    if chain == [] then []
    else (if chain[0].kind == p.certificateType then [chain[0].bytes] else []) + Certificates(p, chain[1..])
  }

  function AskAll(p: Protocol, c: Conn, contents: seq<seq<byte>>): (t: Talk)
    requires p.Valid() && |c.buf| == BUFFER_SIZE && forall x :: x in contents ==> p.Fits(x)
    ensures |t.conn.buf| == BUFFER_SIZE && t.conn.inited == c.inited && t.conn.showsProgress == c.showsProgress
    decreases |contents|
  {
    if contents == [] then Talk(Success, c, [])
    else
      var t := AskItem(p, c, contents[0]);
      if t.code != Success then t
      else
        var rest := AskAll(p, t.conn, contents[1..]);
        Talk(rest.code, rest.conn, t.xs + rest.xs)
  }

  lemma {:induction false} CertificatesConcat(p: Protocol, a: seq<Tlv>, b: seq<Tlv>)
    ensures Certificates(p, a + b) == Certificates(p, a) + Certificates(p, b)
  {
    if a == [] {
      assert a + b == b;
    } else {
      assert (a + b)[0] == a[0] && (a + b)[1..] == a[1..] + b;
      CertificatesConcat(p, a[1..], b);
    }
  }

  lemma {:induction false} CertificatesFrom(p: Protocol, chain: seq<Tlv>, i: nat)
    requires i < |chain|
    ensures var later := Certificates(p, chain[i + 1..]);
            Certificates(p, chain[i..]) ==
            if chain[i].kind == p.certificateType then [chain[i].bytes] + later else later
  {
    assert chain[i..][0] == chain[i] && chain[i..][1..] == chain[i + 1..];
  }

  /** The places of the certificates in a chain: all of them, in increasing order. */
  ghost predicate PlacesOf(p: Protocol, chain: seq<Tlv>, ix: seq<nat>) {
    && (forall i :: i in ix <==> 0 <= i < |chain| && chain[i].kind == p.certificateType)
    && (forall m, n :: 0 <= m < n < |ix| ==> ix[m] < ix[n])
  }

  /** What is sent of a chain: the contents of every entry of the certificate kind, in chain order, and nothing else. */
  lemma {:induction false} CertificatesMeaning(p: Protocol, chain: seq<Tlv>) returns (ix: seq<nat>)
    ensures PlacesOf(p, chain, ix) && |Certificates(p, chain)| == |ix|
    ensures forall k :: 0 <= k < |ix| ==> ix[k] in ix && Certificates(p, chain)[k] == chain[ix[k]].bytes
  {
    if chain == [] {
      ix := [];
    } else {
      var n := |chain| - 1;
      var front := chain[..n];
      var jx := CertificatesMeaning(p, front);
      assert chain == front + [chain[n]];
      CertificatesConcat(p, front, [chain[n]]);
      assert forall k :: 0 <= k < |jx| ==> jx[k] in jx && front[jx[k]] == chain[jx[k]];
      ix := if chain[n].kind == p.certificateType then jx + [n] else jx;
      PlacesNext(p, chain, jx, ix);
    }
  }

  lemma {:induction false} PlacesNext(p: Protocol, chain: seq<Tlv>, jx: seq<nat>, ix: seq<nat>)
    requires chain != [] && PlacesOf(p, chain[..|chain| - 1], jx)
    requires var n := |chain| - 1; ix == if chain[n].kind == p.certificateType then jx + [n] else jx
    ensures PlacesOf(p, chain, ix)
  {
    var n := |chain| - 1;
    assert forall k :: 0 <= k < |jx| ==> jx[k] in jx;
    forall i ensures i in ix <==> 0 <= i < |chain| && chain[i].kind == p.certificateType {
      if 0 <= i < n { assert chain[..n][i] == chain[i]; }
    }
  }

  /** The first of several contents, then the others. */
  lemma {:induction false} AskAllFirst(p: Protocol, c: Conn, content: seq<byte>, more: seq<seq<byte>>)
    requires p.Valid() && |c.buf| == BUFFER_SIZE && p.Fits(content) && forall x :: x in more ==> p.Fits(x)
    ensures forall x :: x in [content] + more ==> p.Fits(x)
    ensures var t, whole := AskItem(p, c, content), AskAll(p, c, [content] + more);
            if t.code != Success then whole == t
            else whole.code == AskAll(p, t.conn, more).code && whole.conn == AskAll(p, t.conn, more).conn
  {
    assert ([content] + more)[0] == content && ([content] + more)[1..] == more;
    forall x | x in [content] + more ensures p.Fits(x) {
      if x != content { assert x in more; }
    }
  }

  lemma {:induction false} CertificatesFit(p: Protocol, chain: seq<Tlv>)
    requires forall t :: t in chain && t.kind == p.certificateType ==> p.Fits(t.bytes)
    ensures forall x :: x in Certificates(p, chain) ==> p.Fits(x)
  {
    if chain != [] {
      assert chain[0] in chain;
      CertificatesFit(p, chain[1..]);
    }
  }

  /** Once signing and parsing have worked: the certificates, then the token. */
  function AnswerAll(p: Protocol, c: Conn, contents: seq<seq<byte>>, token: seq<byte>): (t: Talk)
    requires p.Valid() && |c.buf| == BUFFER_SIZE && p.Fits(token) && forall x :: x in contents ==> p.Fits(x)
    ensures |t.conn.buf| == BUFFER_SIZE && t.conn.inited == c.inited
  {
    var certs := AskAll(p, Tell(c, 60), contents);
    if certs.code != Success then certs
    else
      var last := AskItem(p, Tell(certs.conn, 90), token);
      if last.code != Success then Talk(last.code, last.conn, certs.xs + last.xs)
      else Talk(Success, Tell(last.conn, 100), certs.xs + last.xs)
  }

  /** From the challenge on: signing, parsing, the certificates and the token. */
  function Respond(p: Protocol, c: Conn, o: Oracle): (t: Talk)
    requires p.Valid() && o.Valid(p) && |c.buf| == BUFFER_SIZE
    ensures |t.conn.buf| == BUFFER_SIZE && t.conn.inited == c.inited
  {
    var token := o.sign(ChallengeIn(p, c.buf));
    if token.None? then Talk(InternalError, Tell(c, 40), [])
    else if o.chain.None? then Talk(InternalError, Tell(Tell(c, 40), 50), [])
    else
      CertificatesFit(p, o.chain.value);
      AnswerAll(p, Tell(Tell(c, 40), 50), Certificates(p, o.chain.value), token.value)
  }

  /** The attempt once credentials are loaded. */
  function Attempt(p: Protocol, c: Conn, o: Oracle): (t: Talk)
    requires p.Valid() && o.Valid(p) && |c.buf| == BUFFER_SIZE
    ensures |t.conn.buf| == BUFFER_SIZE && t.conn.inited == c.inited
  {
    var first := Ask(p, c, StartPacket(p, o.stack), Start);
    if first.code != Success then first
    else
      var rest := Respond(p, first.conn, o);
      Talk(rest.code, rest.conn, first.xs + rest.xs)
  }

  function Authenticate(p: Protocol, c: Conn, o: Oracle): (t: Talk)
    requires p.Valid() && o.Valid(p) && |c.buf| == BUFFER_SIZE
    ensures |t.conn.buf| == BUFFER_SIZE && t.conn.inited == c.inited
  {
    if o.loaded then Attempt(p, Tell(Tell(c, 0), 20), o) else Talk(InternalError, Tell(c, 0), [])
  }
}
