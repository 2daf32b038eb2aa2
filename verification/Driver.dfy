/** The external COM port driver itself, each method proved against its specification over the host's world. */
module Driver {
  import opened Types
  import opened Framing
  import opened Decoder
  import opened Hosts
  import opened Transport
  import opened Messages
  import opened Handshake

  class ExternalComPortDriver {
    const host: Host
    /** Which of the two reset callbacks are present. */
    const hooks: Hooks
    var isComPortInited: bool

    constructor (host: Host, hooks: Hooks)
      ensures this.host == host && this.hooks == hooks && !isComPortInited
    {
      this.host := host;
      this.hooks := hooks;
      isComPortInited := false;
    }

    // ---- registers ----

    method EComStatus() returns (r: Result<Status>)
      modifies host
      ensures r == StatusOf(Answer(old(host.State())))
      ensures host.State() == After(old(host.State()), ReadSR)
    {
      var reply := host.Invoke(ReadSR);
      if reply.code != Success {
        return Err(reply.code);
      }
      if reply.completed != 1 {
        return Err(RequestFailed);
      }
      r := Ok(StatusBits(WordAt(reply, 0)));
    }

    method EComTxRaw(block: bool, numBytes: nat, inData: array<byte>) returns (code: ReturnCode)
      requires numBytes <= inData.Length
      modifies host
      ensures (code, host.State()) == TxRaw(old(host.State()), block, inData[..numBytes])
    {
      if numBytes == 0 {
        return InternalError;
      }
      var drVals := new word[numBytes](_ => 0xAFAF_AFAF);
      ghost var bytes := inData[..numBytes];
      var i := 0;
      while i < numBytes
        modifies drVals
        invariant i <= numBytes
        invariant forall k :: 0 <= k < i ==> drVals[k] == ToWord(inData[k])
        invariant forall k :: i <= k < numBytes ==> drVals[k] == 0xAFAF_AFAF
      {
        // store the byte over the low byte of the pre-filled word
        drVals[i] := drVals[i] - drVals[i] % 0x100 + inData[i];
        i := i + 1;
      }
      assert drVals[..] == ToWords(bytes);
      var reply := host.Invoke(Write(if block then DBR else DR, drVals[..]));
      if reply.completed != numBytes {
        return RequestFailed;
      }
      code := reply.code;
    }

    method EComRxRaw(numBytes: nat, outBytes: array<byte>, outBytesLength: nat) returns (code: ReturnCode)
      requires numBytes <= outBytesLength <= outBytes.Length
      modifies host, outBytes
      ensures var (r, w) := RxRaw(old(host.State()), numBytes);
              && host.State() == w
              && (r.Err? ==> code == r.code && code != Success && outBytes[..] == old(outBytes[..]))
              && (r.Ok? ==> code == Success && outBytes[..] == r.value + old(outBytes[numBytes..]))
    {
      if numBytes == 0 || outBytesLength == 0 {
        return InternalError;
      }
      var reply := host.Invoke(ReadDR(numBytes));
      if reply.code != Success {
        return reply.code;
      }
      if reply.completed != numBytes {
        return RequestFailed;
      }
      var i := 0;
      while i < numBytes
        modifies outBytes
        invariant i <= numBytes
        invariant forall k :: 0 <= k < i ==> outBytes[k] == WordAt(reply, k) % 0x100
        invariant forall k :: numBytes <= k < outBytes.Length ==> outBytes[k] == old(outBytes[k])
      {
        outBytes[i] := WordAt(reply, i) % 0x100;
        i := i + 1;
      }
      assert outBytes[..] == BytesOf(reply, numBytes).value + old(outBytes[numBytes..]);
      code := Success;
    }

    // ---- bytes, blocks and flags ----

    method EComSendByte(b: byte) returns (code: ReturnCode)
      modifies host
      ensures (code, host.State()) == SendByte(old(host.State()), b)
    {
      var txData := new byte[1];
      txData[0] := b;
      var numOfRetries := 0;
      while true
        invariant numOfRetries <= MAX_POLLS
        invariant txData[0] == b
        invariant Poll(old(host.State()), ForTx, 0) == Poll(host.State(), ForTx, numOfRetries)
        decreases MAX_POLLS - numOfRetries
      {
        var status := EComStatus();
        if status.Err? {
          return status.code;
        }
        if status.value.linkErrs != 0 {
          return IOError;
        }
        if status.value.txOverflow {
          return IOError;
        }
        if status.value.txFree != 0 {
          break;
        }
        numOfRetries := numOfRetries + 1;
        if numOfRetries > MAX_POLLS {
          break;
        }
      }
      if numOfRetries >= MAX_POLLS {
        return TimeoutError;
      }
      assert txData[..1] == [b];
      code := EComTxRaw(false, 1, txData);
    }

    method EComSendBlock(byteData: array<byte>, dataLen: nat, block: bool) returns (code: ReturnCode)
      requires dataLen <= byteData.Length
      modifies host
      ensures (code, host.State()) == SendBlock(old(host.State()), byteData[..dataLen], block)
    {
      if block {
        code := EComTxRaw(true, dataLen, byteData);
        return;
      }
      var i := 0;
      while i < dataLen
        invariant i <= dataLen
        invariant SendAll(old(host.State()), byteData[..dataLen]) == SendAll(host.State(), byteData[i..dataLen])
      {
        assert byteData[i..dataLen][0] == byteData[i];
        assert byteData[i..dataLen][1..] == byteData[i + 1..dataLen];
        code := EComSendByte(byteData[i]);
        if code != Success {
          return;
        }
        i := i + 1;
      }
      code := Success;
    }

    method EComReadByte() returns (r: Result<byte>)
      modifies host
      ensures (r, host.State()) == ReadByte(old(host.State()))
    {
      var rxData := new byte[1];
      var attempt := 0;
      while true
        invariant attempt <= MAX_POLLS
        invariant Poll(old(host.State()), ForRx, 0) == Poll(host.State(), ForRx, attempt)
        decreases MAX_POLLS - attempt
      {
        var status := EComStatus();
        if status.Err? {
          return Err(status.code);
        }
        if status.value.linkErrs != 0 {
          return Err(IOError);
        }
        if status.value.txOverflow {
          return Err(IOError);
        }
        if status.value.rxData != 0 {
          break;
        }
        attempt := attempt + 1;
        if attempt > MAX_POLLS {
          break;
        }
      }
      if attempt >= MAX_POLLS {
        return Err(TimeoutError);
      }
      var code := EComRxRaw(1, rxData, 1);
      if code != Success {
        return Err(code);
      }
      r := Ok(rxData[0]);
    }

    method EComSendFlag(flag: byte) returns (code: ReturnCode)
      modifies host
      ensures (code, host.State()) == SendByte(old(host.State()), flag)
    {
      code := EComSendByte(flag);
    }

    method EComWaitFlag(flag: byte) returns (code: ReturnCode)
      modifies host
      ensures (code, host.State()) == WaitFlag(old(host.State()), flag)
    {
      while true
        invariant WaitFlag(old(host.State()), flag) == WaitFlag(host.State(), flag)
        decreases |host.tape|
      {
        var r := EComReadByte();
        if r.Err? {
          return r.code;
        }
        if r.value == flag {
          break;
        }
      }
      code := Success;
    }

    // ---- framing ----

    /** `tempData[outByteIndex++] = b`, with the index wrapping as a 16-bit one does. */
    method Put(tempData: array<byte>, outByteIndex: nat, b: byte, ghost done: seq<byte>) returns (next: nat)
      requires |done| < tempData.Length && outByteIndex == |done| % INDEX_RANGE
      requires tempData[..] == Written(Zeros(tempData.Length), done)
      modifies tempData
      ensures next == |done + [b]| % INDEX_RANGE
      ensures tempData[..] == Written(Zeros(tempData.Length), done + [b])
    {
      ghost var before := tempData[..];
      tempData[outByteIndex] := b;
      assert tempData[..] == before[outByteIndex := b];
      WrittenSnoc(Zeros(tempData.Length), done, b);
      next := (outByteIndex + 1) % INDEX_RANGE;
      NextIndex(|done|);
    }

    /** START, the stuffed payload and END, written one byte at a time. */
    method StuffInto(data: array<byte>, inSize: nat, tempData: array<byte>) returns (outByteIndex: nat)
      requires inSize <= data.Length && data != tempData && tempData.Length == 2 * inSize + 2
      requires tempData[..] == Zeros(tempData.Length)
      modifies tempData
      ensures |Frame(data[..inSize])| <= tempData.Length
      ensures outByteIndex == |Frame(data[..inSize])| % INDEX_RANGE
      ensures tempData[..] == Written(Zeros(tempData.Length), Frame(data[..inSize]))
    {
      outByteIndex := Put(tempData, 0, FLAG_START, []);
      var byteIndex := 0;
      ghost var done := [FLAG_START];
      while byteIndex < inSize
        invariant byteIndex <= inSize
        invariant done == [FLAG_START] + Stuff(data[..byteIndex]) && |done| <= 2 * byteIndex + 1
        invariant outByteIndex == |done| % INDEX_RANGE
        invariant tempData[..] == Written(Zeros(tempData.Length), done)
      {
        var b := data[byteIndex];
        if IsFlagByte(b) {
          outByteIndex := Put(tempData, outByteIndex, FLAG_ESC, done);
          outByteIndex := Put(tempData, outByteIndex, b - 0x80, done + [FLAG_ESC]);
          assert done + [FLAG_ESC] + [b - 0x80] == done + StuffByte(b);
        } else {
          outByteIndex := Put(tempData, outByteIndex, b, done);
        }
        StuffSnoc(data[..byteIndex], b);
        assert data[..byteIndex + 1] == data[..byteIndex] + [b];
        done := done + StuffByte(b);
        byteIndex := byteIndex + 1;
      }
      assert done + [FLAG_END] == Frame(data[..inSize]);
      outByteIndex := Put(tempData, outByteIndex, FLAG_END, done);
    }

    /** The caller's start flag is ignored: every frame opens with START. */
    method EComPortPrepareData(startFlag: byte, data: array<byte>, inSize: nat,
                               outData: array<byte>, outDataBufferSize: nat)
      returns (code: ReturnCode, outSize: nat)
      requires inSize <= data.Length && outDataBufferSize <= outData.Length && data != outData
      modifies outData
      ensures var p := Prepared(data[..inSize]);
              if |p| > outDataBufferSize then
                code == InternalError && outSize == 0 && outData[..] == old(outData[..])
              else
                code == Success && outSize == |p| && outData[..] == p + old(outData[|p|..])
    {
      var tempData := new byte[inSize * 2 + 2](_ => 0);
      assert tempData[..] == Zeros(tempData.Length);
      ghost var p := Prepared(data[..inSize]);
      var outByteIndex := StuffInto(data, inSize, tempData);
      PreparedFrom(data[..inSize], tempData[..]);
      assert tempData[..outByteIndex] == tempData[..][..outByteIndex] == p;
      if outByteIndex > outDataBufferSize {
        return InternalError, 0;
      }
      CopyPrefix(tempData, outByteIndex, outData);
      return Success, outByteIndex;
    }

    /** `memcpy` of the first `n` bytes. */
    method CopyPrefix(src: array<byte>, n: nat, dst: array<byte>)
      requires src != dst && n <= src.Length && n <= dst.Length
      modifies dst
      ensures dst[..] == src[..n] + old(dst[n..])
    {
      forall i | 0 <= i < n {
        dst[i] := src[i];
      }
    }

    /** `actualLength` comes in and goes out: it is written only when a data byte is stored. */
    method EComPortRxInt(startFlag: byte, rxBuffer: array<byte>, rxBufferLength: nat, actualLength: nat)
      returns (code: ReturnCode, actual: nat)
      requires rxBufferLength <= rxBuffer.Length
      modifies host, rxBuffer
      ensures var (c, w, st) :=
                Receive(old(host.State()), startFlag, rxBufferLength, Fresh(old(rxBuffer[..]), actualLength));
              code == c && host.State() == w && rxBuffer[..] == st.buf && actual == st.actual
    {
      actual := actualLength;
      var preNullFlags := 0;
      var readByte := new byte[1];
      var isDone := false;
      var bufferIdx := 0;
      var isStartRecv, isEndRecv, isEscRecv := false, false, false;
      ghost var st := Fresh(rxBuffer[..], actualLength);
      ghost var whole := Receive(host.State(), startFlag, rxBufferLength, st);

      while !isDone
        invariant rxBuffer[..] == st.buf && bufferIdx == st.idx && actual == st.actual
        invariant isStartRecv == st.started && isEscRecv == st.esc && preNullFlags == st.nulls
        invariant isEndRecv == isDone
        invariant !isDone ==> whole == Receive(host.State(), startFlag, rxBufferLength, st)
        invariant isDone ==> whole == (if isStartRecv then Success else InternalError, host.State(), st)
        decreases !isDone, |host.tape|
      {
        var res := EComRxRaw(1, readByte, 1);
        if res != Success {
          return res, actual;
        }
        var b := readByte[0];
        ghost var verdict := Feed(st, b, startFlag, rxBufferLength);
        if b == FLAG_END {
          isDone := true;
          isEndRecv := true;
        } else if b == FLAG_NULL {
          if !isStartRecv {
            preNullFlags := preNullFlags + 1;
          }
          if preNullFlags > MAX_PRE_NULL_FLAGS {
            return TimeoutError, actual;
          }
        } else if b == FLAG_ESC {
          isEscRecv := true;
        } else if b == startFlag {
          bufferIdx := 0;
          isStartRecv := true;
        } else {
          if isEscRecv {
            b := SetBit7(b);
            isEscRecv := false;
          }
          if bufferIdx >= rxBufferLength {
            return InternalError, actual;
          }
          rxBuffer[bufferIdx] := b;
          bufferIdx := (bufferIdx + 1) % INDEX_RANGE;
          actual := bufferIdx;
        }
        st := verdict.st;
      }
      code := if isStartRecv != isEndRecv then InternalError else Success;
    }

    // ---- public ----

    method EComPortPower(state: PowerState) returns (code: ReturnCode)
      modifies host
      ensures (code, host.State()) == RunScript(old(host.State()), PowerScript(state))
    {
      ghost var a, b, c, d := Send(FLAG_LPH1RL), Await(FLAG_LPH1RL), Send(FLAG_LPH1RA), Await(FLAG_LPH1RA);
      if state == PowerOn {
        RunScriptStep(host.State(), PowerScript(state), a, [b, c, d]);
        code := EComSendFlag(FLAG_LPH1RL);
        if code != Success { return; }
        RunScriptStep(host.State(), [b, c, d], b, [c, d]);
        code := EComWaitFlag(FLAG_LPH1RL);
        if code != Success { return; }
        RunScriptStep(host.State(), [c, d], c, [d]);
        code := EComSendFlag(FLAG_LPH1RA);
        if code != Success { return; }
        RunScriptStep(host.State(), [d], d, []);
        code := EComWaitFlag(FLAG_LPH1RA);
        if code != Success { return; }
      }
      if state == PowerOff {
        RunScriptStep(host.State(), PowerScript(state), a, [b]);
        code := EComSendFlag(FLAG_LPH1RL);
        if code != Success { return; }
        RunScriptStep(host.State(), [b], b, []);
        code := EComWaitFlag(FLAG_LPH1RL);
        if code != Success { return; }
      }
    }

    method EComPortRReboot() returns (code: ReturnCode)
      modifies host
      ensures (code, host.State()) == RunScript(old(host.State()), RebootScript())
    {
      code := EComSendFlag(FLAG_LPH2RR);
    }

    method EComPortInit(remoteReset: ResetType, idResponseBuffer: array<byte>, idBufferLength: nat)
      returns (code: ReturnCode)
      requires idBufferLength <= idResponseBuffer.Length
      modifies this, host, idResponseBuffer
      ensures var r := Init(old(host.State()), hooks, old(isComPortInited), remoteReset,
                            old(idResponseBuffer[..]), idBufferLength);
              code == r.code && host.State() == r.w && isComPortInited == r.inited && idResponseBuffer[..] == r.buf
    {
      if remoteReset == ResetSystem {
        if !hooks.start { return InternalError; }
        if !hooks.finish { return InternalError; }
      }
      code := EstablishLink(remoteReset);
      if code != Success { return; }
      var actualLength;
      code, actualLength := EComPortRxInt(FLAG_IDA, idResponseBuffer, idBufferLength, 0);
      if code != Success { return; }
      if actualLength == 0 { return TransferError; }
      isComPortInited := true;
    }

    /** The part of `EComPortInit` up to the identification request. */
    method EstablishLink(remoteReset: ResetType) returns (code: ReturnCode)
      modifies host
      ensures (code, host.State()) == RunScript(old(host.State()), InitScript(remoteReset))
    {
      ghost var todo := PowerScript(PowerOn) + LinkScript(remoteReset);
      if remoteReset == ResetSystem {
        RunScriptStep(host.State(), InitScript(remoteReset), StartReset, todo);
        var reply := host.Invoke(ResetStart);
        if reply.code != Success { return reply.code; }
      } else {
        assert InitScript(remoteReset) == todo;
      }
      RunScriptThen(host.State(), PowerScript(PowerOn), LinkScript(remoteReset));
      code := EComPortPower(PowerOn);
      if code != Success { return; }
      code := RequestLink(remoteReset);
    }

    method RequestLink(remoteReset: ResetType) returns (code: ReturnCode)
      modifies host
      ensures (code, host.State()) == RunScript(old(host.State()), LinkScript(remoteReset))
    {
      ghost var await, ask := Await(FLAG_LPH2RA), Send(FLAG_IDR);
      RunScriptStep(host.State(), LinkScript(remoteReset), Send(FLAG_LPH2RA), ResetAfter(remoteReset) + [await, ask]);
      code := EComSendFlag(FLAG_LPH2RA);
      if code != Success { return; }
      RunScriptThen(host.State(), ResetAfter(remoteReset), [await, ask]);
      code := CompleteReset(remoteReset);
      if code != Success { return; }
      RunScriptStep(host.State(), [await, ask], await, [ask]);
      code := EComWaitFlag(FLAG_LPH2RA);
      if code != Success { return; }
      RunScriptStep(host.State(), [ask], ask, []);
      code := EComSendFlag(FLAG_IDR);
    }

    /** The reboot request of a COM reset, or the end of a system reset. */
    method CompleteReset(remoteReset: ResetType) returns (code: ReturnCode)
      modifies host
      ensures (code, host.State()) == RunScript(old(host.State()), ResetAfter(remoteReset))
    {
      code := Success;
      if remoteReset == ResetCom {
        code := EComPortRReboot();
      } else if remoteReset == ResetSystem {
        RunScriptStep(host.State(), [EndReset], EndReset, []);
        var reply := host.Invoke(ResetFinish);
        code := reply.code;
      }
    }

    method EComPortTx(txBuffer: array<byte>, txBufferLength: nat, block: bool)
      returns (code: ReturnCode, actualLength: Option<nat>)
      requires txBufferLength <= txBuffer.Length
      modifies host
      ensures (code, host.State(), actualLength) ==
              Transmit(old(host.State()), isComPortInited, txBuffer[..txBufferLength], block)
    {
      var tempBuffLen := txBufferLength * 2 + 2;
      var tempBuffer := new byte[tempBuffLen](_ => 0);
      if !isComPortInited {
        return RequestFailed, None;
      }
      var size;
      FrameFits(txBuffer[..txBufferLength]);
      code, size := EComPortPrepareData(FLAG_START, txBuffer, txBufferLength, tempBuffer, tempBuffLen);
      if code != Success {
        return code, Some(size);
      }
      assert tempBuffer[..size] == Prepared(txBuffer[..txBufferLength]);
      code := EComSendBlock(tempBuffer, size, block);
      actualLength := Some(size);
    }

    method EComPortRx(rxBuffer: array<byte>, rxBufferLength: nat, actualLength: nat)
      returns (code: ReturnCode, actual: nat)
      requires rxBufferLength <= rxBuffer.Length
      modifies host, rxBuffer
      ensures if !isComPortInited then
                code == RequestFailed && host.State() == old(host.State())
                && rxBuffer[..] == old(rxBuffer[..]) && actual == actualLength
              else
                var (c, w, st) :=
                  Receive(old(host.State()), FLAG_START, rxBufferLength, Fresh(old(rxBuffer[..]), actualLength));
                code == c && host.State() == w && rxBuffer[..] == st.buf && actual == st.actual
    {
      if !isComPortInited {
        return RequestFailed, actualLength;
      }
      code, actual := EComPortRxInt(FLAG_START, rxBuffer, rxBufferLength, actualLength);
    }

    /** Leaves `isComPortInited` as it is. */
    method EComPortFinalize() returns (code: ReturnCode)
      modifies host
      ensures (code, host.State()) == RunScript(old(host.State()), FinalizeScript())
    {
      ghost var drop, dropped := Send(FLAG_LPH2RL), Await(FLAG_LPH2RL);
      RunScriptStep(host.State(), FinalizeScript(), drop, [dropped] + PowerScript(PowerOff));
      code := EComSendFlag(FLAG_LPH2RL);
      if code != Success { return; }
      RunScriptStep(host.State(), [dropped] + PowerScript(PowerOff), dropped, PowerScript(PowerOff));
      code := EComWaitFlag(FLAG_LPH2RL);
      if code != Success { return; }
      code := EComPortPower(PowerOff);
    }
  }
}
