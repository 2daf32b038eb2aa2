/** The manager's classes: the implementation object and the singleton API, each method proved against `Session`. */
module Manager {
  import opened Types
  import opened Framing
  import opened Hosts
  import opened Handshake
  import opened Driver
  import opened Conversation
  import opened Session

  class SecureDebugManagerImpl {
    const host: Host
    const protocol: Protocol
    /** One buffer for requests and responses alike. */
    const msgBuffer: array<byte>
    var isOpen: bool
    var driver: ExternalComPortDriver?
    var showsProgress: bool

    ghost predicate Valid()
      reads this, driver
    {
      && protocol.Valid()
      && msgBuffer.Length == BUFFER_SIZE
      && (driver != null ==> driver.host == host)
      && (isOpen ==> driver != null)
    }

    ghost function State(): ImplState
      reads this, driver, msgBuffer, host
    {
      ImplState(isOpen, if driver == null then None else Some(driver.isComPortInited), host.State(),
                msgBuffer[..], showsProgress)
    }

    ghost function Connection(): Conn
      requires driver != null
      reads this, driver, msgBuffer, host
    {
      Conn(host.State(), driver.isComPortInited, msgBuffer[..], showsProgress)
    }

    constructor (host: Host, protocol: Protocol)
      requires protocol.Valid()
      ensures Valid() && State() == NewImpl(host.State())
      ensures this.host == host && this.protocol == protocol && driver == null && fresh(msgBuffer)
    {
      this.host := host;
      this.protocol := protocol;
      msgBuffer := new byte[BUFFER_SIZE](_ => 0);
      isOpen := false;
      driver := null;
      showsProgress := false;
      new;
      assert msgBuffer[..] == Zeros(BUFFER_SIZE);
    }

    method SDMOpen(params: Option<OpenParams>, env: OpenEnv) returns (code: ReturnCode)
      requires Valid() && env.Valid()
      modifies this, host
      ensures Valid() && (code, State()) == ImplOpen(old(State()), params, env)
      ensures driver == old(driver) || fresh(driver)
    {
      if isOpen {
        return InternalError;
      }
      if params.None? {
        return InvalidArgument;
      }
      driver := new ExternalComPortDriver(host, params.value.hooks);
      if !env.cryptoReady {
        return InternalError;
      }
      showsProgress := params.value.showsProgress;
      var idResBuff := new byte[SD_RESPONSE_LENGTH](i requires 0 <= i < SD_RESPONSE_LENGTH => env.idStack[i]);
      assert idResBuff[..] == env.idStack;
      code := driver.EComPortInit(ResetSystem, idResBuff, SD_RESPONSE_LENGTH);
      if code != Success {
        return;
      }
      code := CheckProtocol(idResBuff[..]);
      if code != Success {
        return;
      }
      isOpen := true;
    }

    method UpdateProgress(percent: nat)
      requires Valid() && driver != null
      modifies host
      ensures Connection() == Tell(old(Connection()), percent)
    {
      if showsProgress {
        host.UpdateProgress(percent);
      }
    }

    method RequestPacketSend(packet: array<byte>, size: nat) returns (code: ReturnCode)
      requires Valid() && driver != null && size <= packet.Length
      modifies host
      ensures (code, Connection()) == SendPacket(old(Connection()), packet[..size])
    {
      var actual;
      code, actual := driver.EComPortTx(packet, size, true);
    }

    method ResponsePacketReceive() returns (code: ReturnCode)
      requires Valid() && driver != null
      modifies host, msgBuffer
      ensures (code, Connection()) == ReceivePacket(protocol, old(Connection()))
    {
      var length;
      code, length := driver.EComPortRx(msgBuffer, BUFFER_SIZE - protocol.responseSize, 0);
    }

    method SendAuthStartCmdRequest(stack: seq<byte>) returns (code: ReturnCode)
      requires Valid() && driver != null && |stack| == protocol.requestSize
      modifies host
      ensures (code, Connection()) == SendPacket(old(Connection()), StartPacket(protocol, stack))
    {
      var header := StartPacket(protocol, stack);
      var request := new byte[|header|](i requires 0 <= i < |header| => header[i]);
      assert request[..|header|] == header;
      code := RequestPacketSend(request, |header|);
    }

    method ReceiveAuthStartCmdResponse() returns (code: ReturnCode, challenge: seq<byte>)
      requires Valid() && driver != null
      modifies host, msgBuffer
      ensures var (got, c) := ReceivePacket(protocol, old(Connection()));
              && Connection() == c
              && (code == Success <==> got == Success && ChallengeOk(protocol, c.buf))
              && (code == Success ==> challenge == ChallengeIn(protocol, c.buf))
    {
      challenge := [];
      code := ResponsePacketReceive();
      if code != Success {
        return;
      }
      if protocol.responseCount(msgBuffer[..]) * 4 % 0x1_0000_0000 != protocol.challengeSize {
        return InternalError, [];
      }
      challenge := msgBuffer[protocol.responseSize..protocol.responseSize + protocol.challengeSize];
    }

    /** The request is built in place over whatever the buffer held. */
    method BuildRequest(cert: seq<byte>)
      requires Valid() && driver != null && protocol.Fits(cert)
      modifies msgBuffer
      ensures msgBuffer[..] == Built(protocol, old(msgBuffer[..]), cert)
    {
      var size := protocol.requestSize;
      var header := protocol.setRequest(msgBuffer[..size], protocol.responseCommand, |cert| / 4);
      ghost var tail := msgBuffer[size + |cert|..];
      forall i | 0 <= i < size {
        msgBuffer[i] := header[i];
      }
      forall i | 0 <= i < |cert| {
        msgBuffer[size + i] := cert[i];
      }
      assert msgBuffer[..] == header + cert + tail;
    }

    method SendAuthResponseCmdRequest(cert: seq<byte>) returns (code: ReturnCode)
      requires Valid() && driver != null && protocol.Fits(cert)
      modifies host, msgBuffer
      ensures var b := Built(protocol, old(msgBuffer[..]), cert);
              (code, Connection()) == SendPacket(old(Connection()).(buf := b), PacketIn(protocol, b))
    {
      BuildRequest(cert);
      ghost var b := msgBuffer[..];
      var count := protocol.countOf(msgBuffer[..protocol.requestSize]);
      assert count == |cert| / 4 by { BuiltHeader(protocol, old(msgBuffer[..]), cert); }
      var size := protocol.requestSize + 4 * count;
      assert msgBuffer[..size] == PacketIn(protocol, b);
      code := RequestPacketSend(msgBuffer, size);
    }

    method ReceiveAuthResponseCmdResponse() returns (code: ReturnCode)
      requires Valid() && driver != null
      modifies host, msgBuffer
      ensures var (got, c) := ReceivePacket(protocol, old(Connection()));
              && Connection() == c
              && (code == Success <==> got == Success && StatusOk(protocol, c.buf))
    {
      code := ResponsePacketReceive();
      if code != Success {
        return;
      }
      var status := protocol.responseStatus(msgBuffer[..]);
      if status != protocol.statusSuccess && status != protocol.statusMoreData {
        return InternalError;
      }
    }

    /** One certificate or token: request, then response. */
    method Present(content: seq<byte>) returns (code: ReturnCode)
      requires Valid() && driver != null && protocol.Fits(content)
      modifies host, msgBuffer
      ensures var t := AskItem(protocol, old(Connection()), content);
              code == t.code && Connection() == t.conn
    {
      code := SendAuthResponseCmdRequest(content);
      if code != Success {
        return InternalError;
      }
      code := ReceiveAuthResponseCmdResponse();
      if code != Success {
        return InternalError;
      }
    }

    /** The loop over the parsed chain: only certificate entries are sent. */
    method SendCertificates(exts: seq<Tlv>) returns (code: ReturnCode)
      requires Valid() && driver != null
      requires forall t :: t in exts && t.kind == protocol.certificateType ==> protocol.Fits(t.bytes)
      requires forall x :: x in Certificates(protocol, exts) ==> protocol.Fits(x)
      modifies host, msgBuffer
      ensures var t := AskAll(protocol, old(Connection()), Certificates(protocol, exts));
              code == t.code && Connection() == t.conn
    {
      ghost var whole := AskAll(protocol, Connection(), Certificates(protocol, exts));
      var i := 0;
      while i < |exts|
        invariant i <= |exts|
        invariant forall x :: x in Certificates(protocol, exts[i..]) ==> protocol.Fits(x)
        invariant var t := AskAll(protocol, Connection(), Certificates(protocol, exts[i..]));
                  t.code == whole.code && t.conn == whole.conn
      {
        CertificatesFrom(protocol, exts, i);
        CertificatesFit(protocol, exts[i + 1..]);
        if exts[i].kind == protocol.certificateType {
          AskAllFirst(protocol, Connection(), exts[i].bytes, Certificates(protocol, exts[i + 1..]));
          code := Present(exts[i].bytes);
          if code != Success {
            return InternalError;
          }
        }
        i := i + 1;
      }
      code := Success;
    }

    method SDMAuthenticate(o: Oracle) returns (code: ReturnCode)
      requires Valid() && o.Valid(protocol)
      modifies host, msgBuffer
      ensures (code, State()) == ImplAuthenticate(protocol, old(State()), o)
    {
      if !isOpen {
        return InternalError;
      }
      UpdateProgress(0);
      if !o.loaded {
        return InternalError;
      }
      UpdateProgress(20);
      var challenge;
      code, challenge := RequestChallenge(o.stack);
      if code != Success {
        return;
      }
      code := RespondToChallenge(o, challenge);
    }

    /** The challenge request and its answer. */
    method RequestChallenge(stack: seq<byte>) returns (code: ReturnCode, challenge: seq<byte>)
      requires Valid() && driver != null && |stack| == protocol.requestSize
      modifies host, msgBuffer
      ensures var t := Ask(protocol, old(Connection()), StartPacket(protocol, stack), Start);
              && code == t.code && Connection() == t.conn
              && (code == Success ==> challenge == ChallengeIn(protocol, t.conn.buf))
    {
      challenge := [];
      code := SendAuthStartCmdRequest(stack);
      if code != Success {
        return InternalError, [];
      }
      UpdateProgress(30);
      code, challenge := ReceiveAuthStartCmdResponse();
      if code != Success {
        return InternalError, [];
      }
    }

    /** Everything after the challenge has been received. */
    method RespondToChallenge(o: Oracle, challenge: seq<byte>) returns (code: ReturnCode)
      requires Valid() && driver != null && o.Valid(protocol) && challenge == ChallengeIn(protocol, msgBuffer[..])
      modifies host, msgBuffer
      ensures var t := Respond(protocol, old(Connection()), o);
              code == t.code && Connection() == t.conn
    {
      UpdateProgress(40);
      var token := o.sign(challenge);
      if token.None? {
        return InternalError;
      }
      UpdateProgress(50);
      if o.chain.None? {
        return InternalError;
      }
      UpdateProgress(60);
      CertificatesFit(protocol, o.chain.value);
      code := SendCertificates(o.chain.value);
      if code != Success {
        return;
      }
      UpdateProgress(90);
      code := Present(token.value);
      if code != Success {
        return;
      }
      UpdateProgress(100);
    }

    method SDMResumeBoot() returns (code: ReturnCode)
      ensures code == Success
    {
      code := Success;
    }

    method SDMClose() returns (code: ReturnCode)
      requires Valid()
      modifies this
      ensures Valid() && (code, State()) == ImplClose(old(State()))
      ensures driver == old(driver)
    {
      if !isOpen {
        return InternalError;
      }
      isOpen := false;
      code := Success;
    }
  }

  lemma {:induction false} BuiltHeader(p: Protocol, buf: seq<byte>, content: seq<byte>)
    requires p.Valid() && |buf| == BUFFER_SIZE && p.Fits(content)
    ensures p.countOf(Built(p, buf, content)[..p.requestSize]) == |content| / 4
  {
    assert Built(p, buf, content)[..p.requestSize] ==
           p.setRequest(buf[..p.requestSize], p.responseCommand, |content| / 4);
  }

  /** The public API over the one global implementation object; a handle is that object's address. */
  class SecureDebugManager {
    const host: Host
    const protocol: Protocol
    var impl: SecureDebugManagerImpl?
    var address: nat

    ghost predicate Valid()
      reads this, impl, if impl == null then {} else {impl.driver}
    {
      && protocol.Valid()
      && (impl != null ==> impl.Valid() && impl.host == host && impl.protocol == protocol)
    }

    ghost function State(): Api
      reads this, host, impl, if impl == null then {} else {impl.driver, impl.msgBuffer, impl.host}
    {
      Api(if impl == null then None else Some(Instance(address, impl.State())), host.State())
    }

    constructor (host: Host, protocol: Protocol)
      requires protocol.Valid()
      ensures Valid() && State() == Api(None, host.State())
      ensures this.host == host && this.protocol == protocol && impl == null
    {
      this.host := host;
      this.protocol := protocol;
      impl := null;
      address := 0;
    }

    /** `at` is where the allocator puts the new object; the handle is written only on success. */
    method SDMOpen(params: Option<OpenParams>, env: OpenEnv, at: nat) returns (code: ReturnCode, handle: Option<nat>)
      requires Valid() && env.Valid()
      modifies this, host
      ensures Valid() && (code, State()) == ApiOpen(old(State()), params, env, at)
      ensures handle == if code == Success then Some(at) else None
    {
      if params.None? {
        return InvalidArgument, None;
      }
      if impl != null {
        return InternalError, None;
      }
      impl := new SecureDebugManagerImpl(host, protocol);
      code := impl.SDMOpen(params, env);
      if code != Success {
        impl := null;
        return code, None;
      }
      address := at;
      handle := Some(at);
    }

    method SDMAuthenticate(handle: nat, o: Oracle) returns (code: ReturnCode)
      requires Valid() && o.Valid(protocol)
      modifies host, if impl == null then {} else {impl.msgBuffer}
      ensures Valid() && (code, State()) == DoApi(protocol, old(State()), Auth(handle, o))
    {
      if impl == null {
        return InternalError;
      }
      if handle != address {
        return InvalidArgument;
      }
      code := impl.SDMAuthenticate(o);
    }

    method SDMResumeBoot(handle: nat) returns (code: ReturnCode)
      requires Valid()
      ensures (code, State()) == DoApi(protocol, State(), Resume(handle))
    {
      if impl == null {
        return InternalError;
      }
      if handle != address {
        return InvalidArgument;
      }
      code := impl.SDMResumeBoot();
    }

    method SDMClose(handle: nat) returns (code: ReturnCode)
      requires Valid()
      modifies this, impl
      ensures Valid() && (code, State()) == DoApi(protocol, old(State()), Close(handle))
    {
      if impl == null {
        return InternalError;
      }
      if handle != address {
        return InvalidArgument;
      }
      code := impl.SDMClose();
      impl := null;
    }
  }
}
