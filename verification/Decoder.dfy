/** The streaming decoder of `EComPortRxInt`: its byte-at-a-time step, and what a whole stream decodes to. */
module Decoder {
  import opened Types
  import opened Framing

  const MAX_PRE_NULL_FLAGS := 10000

  /** The decoder's locals together with the caller's buffer and `*actualLength`. */
  datatype RxState = RxState(buf: seq<byte>, idx: nat, actual: nat, started: bool, esc: bool, nulls: nat)

  datatype Verdict = More(st: RxState) | Halt(code: ReturnCode, st: RxState)

  function Fresh(buf: seq<byte>, actual: nat): RxState {
    RxState(buf, 0, actual, false, false, 0)
  }

  /** One iteration of the receive loop on the byte just read. */
  function Feed(st: RxState, b: byte, flag: byte, len: nat): (v: Verdict)
    requires len <= |st.buf|
    ensures |v.st.buf| == |st.buf|
  {
    if b == FLAG_END then
      Halt(if st.started then Success else InternalError, st)
    else if b == FLAG_NULL then
      var st1 := if st.started then st else st.(nulls := st.nulls + 1);
      if st1.nulls > MAX_PRE_NULL_FLAGS then Halt(TimeoutError, st1) else More(st1)
    else if b == FLAG_ESC then
      More(st.(esc := true))
    else if b == flag then
      More(st.(idx := 0, started := true))
    else
      var data := Cook(st.esc, b);
      var st1 := st.(esc := false);
      if st.idx >= len then Halt(InternalError, st1)
      else
        var next := (st.idx + 1) % INDEX_RANGE;
        More(st1.(buf := st.buf[st.idx := data], idx := next, actual := next))
  }

  /** The outcome of decoding a stream: `None` when the bytes ran out first. */
  datatype Decoding = Decoding(code: Option<ReturnCode>, used: nat, st: RxState)

  function Decode(s: seq<byte>, flag: byte, len: nat, st: RxState): (d: Decoding)
    requires len <= |st.buf|
    ensures d.used <= |s|
    ensures |d.st.buf| == |st.buf|
  {
    if s == [] then Decoding(None, 0, st)
    else
      match Feed(st, s[0], flag, len)
      case Halt(code, st1) => Decoding(Some(code), 1, st1)
      case More(st1) =>
        var d := Decode(s[1..], flag, len, st1);
        d.(used := d.used + 1)
  }

  // ---- what a stream means ----

  /** A start flag other than the three bytes the decoder treats first. */
  predicate IsOpener(flag: byte) {
    IsFlagByte(flag) && flag != FLAG_END && flag != FLAG_NULL && flag != FLAG_ESC
  }

  predicate IsData(b: byte, flag: byte) {
    b != FLAG_END && b != FLAG_NULL && b != FLAG_ESC && b != flag
  }

  function Cook(esc: bool, b: byte): byte {
    if esc then SetBit7(b) else b
  }

  /** An ESC has been seen that no data byte has used up. */
  predicate EscPending(s: seq<byte>, flag: byte) {
    s != [] &&
    var last := s[|s| - 1];
    (last == FLAG_ESC || (!IsData(last, flag) && EscPending(s[..|s| - 1], flag)))
  }

  /** The decoded data bytes since the last start flag (or since the beginning). */
  function Payload(s: seq<byte>, flag: byte): seq<byte> {
    if s == [] then []
    else
      var front, last := s[..|s| - 1], s[|s| - 1];
      if last == flag then []
      else if IsData(last, flag) then Payload(front, flag) + [Cook(EscPending(front, flag), last)]
      else Payload(front, flag)
  }

  lemma {:induction false} PayloadSnoc(s: seq<byte>, b: byte, flag: byte)
    ensures Payload(s + [b], flag) ==
            if b == flag then []
            else if IsData(b, flag) then Payload(s, flag) + [Cook(EscPending(s, flag), b)]
            else Payload(s, flag)
    ensures EscPending(s + [b], flag) <==> b == FLAG_ESC || (!IsData(b, flag) && EscPending(s, flag))
  {
    assert (s + [b])[..|s|] == s;
  }

  /** Some byte is stored as data, whichever run it belongs to. */
  predicate HasData(s: seq<byte>, flag: byte) {
    exists i :: 0 <= i < |s| && IsData(s[i], flag)
  }

  /** What `*actualLength` holds after `s`: the place of the last data byte in its run, or the incoming value. */
  function LengthReported(s: seq<byte>, flag: byte, actual: nat): nat {
    if s == [] then actual
    else if IsData(s[|s| - 1], flag) then |Payload(s, flag)|
    else LengthReported(s[..|s| - 1], flag, actual)
  }

  /** NULL bytes before the first start flag. */
  function LeadingNulls(s: seq<byte>, flag: byte): nat {
    if s == [] then 0
    else
      var front := s[..|s| - 1];
      LeadingNulls(front, flag) + if s[|s| - 1] == FLAG_NULL && flag !in front then 1 else 0
  }

  /** No run of data bytes between start flags is longer than the buffer. */
  ghost predicate RunsFit(s: seq<byte>, flag: byte, len: nat) {
    forall i :: 0 <= i <= |s| ==> |Payload(s[..i], flag)| <= len
  }

  /** The decoder gets through all of `s` without halting. */
  ghost predicate Passable(s: seq<byte>, flag: byte, len: nat) {
    && FLAG_END !in s
    && RunsFit(s, flag, len)
    && LeadingNulls(s, flag) <= MAX_PRE_NULL_FLAGS
  }

  // ---- the same notions by position ----

  ghost predicate EscBefore(s: seq<byte>, flag: byte, i: nat)
    requires i <= |s|
  {
    exists j :: 0 <= j < i && s[j] == FLAG_ESC && forall k :: j < k < i ==> !IsData(s[k], flag)
  }

  function LastStart(s: seq<byte>, flag: byte): (r: int)
    ensures -1 <= r < |s|
    ensures r >= 0 ==> s[r] == flag
    ensures forall i :: r < i < |s| ==> s[i] != flag
  {
    if s == [] then -1
    else if s[|s| - 1] == flag then |s| - 1
    else LastStart(s[..|s| - 1], flag)
  }

  function DataPositions(s: seq<byte>, flag: byte, after: int): (ix: seq<nat>)
    requires after >= -1
    ensures forall i :: i in ix <==> after < i < |s| && IsData(s[i], flag)
    ensures forall m, n :: 0 <= m < n < |ix| ==> ix[m] < ix[n]
    ensures after >= |s| - 1 ==> ix == []
  {
    if s == [] then []
    else
      var n := |s| - 1;
      var front := DataPositions(s[..n], flag, after);
      assert forall m :: 0 <= m < |front| ==> front[m] in front;
      if after < n && IsData(s[n], flag) then front + [n] else front
  }

  lemma {:induction false} EscPendingMeaning(s: seq<byte>, flag: byte)
    ensures EscPending(s, flag) <==> EscBefore(s, flag, |s|)
  {
    if s != [] {
      var n := |s| - 1;
      var front := s[..n];
      EscPendingMeaning(front, flag);
      if s[n] != FLAG_ESC && !IsData(s[n], flag) {
        if EscPending(front, flag) {
          var j :| 0 <= j < n && front[j] == FLAG_ESC && forall k :: j < k < n ==> !IsData(front[k], flag);
          assert s[j] == FLAG_ESC && forall k :: j < k < |s| ==> !IsData(s[k], flag) by {
            forall k | j < k < |s| ensures !IsData(s[k], flag) {
              if k < n { assert s[k] == front[k]; }
            }
          }
        }
        if EscBefore(s, flag, |s|) {
          var j :| 0 <= j < |s| && s[j] == FLAG_ESC && forall k :: j < k < |s| ==> !IsData(s[k], flag);
          assert front[j] == FLAG_ESC && forall k :: j < k < n ==> !IsData(front[k], flag);
        }
      } else if s[n] == FLAG_ESC {
        assert s[n] == FLAG_ESC;
      }
    }
  }

  /** The data byte at position `i`, with bit 7 set iff an ESC occurred since the previous data byte. */
  ghost function DataAt(s: seq<byte>, flag: byte, i: nat): byte
    requires i < |s|
  {
    if EscBefore(s, flag, i) then SetBit7(s[i]) else s[i]
  }

  lemma {:induction false} EscBeforePrefix(s: seq<byte>, flag: byte, n: nat, i: nat)
    requires i <= n <= |s|
    ensures EscBefore(s[..n], flag, i) == EscBefore(s, flag, i)
  {
    var p := s[..n];
    if EscBefore(p, flag, i) {
      var j :| 0 <= j < i && p[j] == FLAG_ESC && forall k :: j < k < i ==> !IsData(p[k], flag);
      assert s[j] == FLAG_ESC && forall k :: j < k < i ==> !IsData(s[k], flag) by {
        forall k | j < k < i ensures !IsData(s[k], flag) { assert s[k] == p[k]; }
      }
    }
    if EscBefore(s, flag, i) {
      var j :| 0 <= j < i && s[j] == FLAG_ESC && forall k :: j < k < i ==> !IsData(s[k], flag);
      assert p[j] == FLAG_ESC && forall k :: j < k < i ==> !IsData(p[k], flag);
    }
  }

  /** The payload is the data bytes after the last start flag, in order, each unescaped on its own evidence. */
  lemma {:induction false} PayloadMeaning(s: seq<byte>, flag: byte)
    ensures var ix := DataPositions(s, flag, LastStart(s, flag));
            && |Payload(s, flag)| == |ix|
            && forall n :: 0 <= n < |ix| ==> ix[n] in ix && Payload(s, flag)[n] == DataAt(s, flag, ix[n])
  {
    if s != [] {
      var n := |s| - 1;
      var front, r := s[..n], LastStart(s, flag);
      var ix := DataPositions(s, flag, r);
      if s[n] != flag {
        PayloadMeaning(front, flag);
        var jx := DataPositions(front, flag, r);
        forall m | 0 <= m < |ix|
          ensures ix[m] in ix && Payload(s, flag)[m] == DataAt(s, flag, ix[m])
        {
          assert ix[m] in ix;
          if m < |jx| {
            assert jx[m] in jx;
            EscBeforePrefix(s, flag, n, jx[m]);
            assert front[jx[m]] == s[jx[m]];
          } else {
            EscPendingMeaning(front, flag);
            EscBeforePrefix(s, flag, n, n);
          }
        }
      }
    }
  }

  // ---- the step machine computes them ----

  /** The decoder state after getting through `p` from a fresh state over `buf` and `actual`. */
  ghost predicate Tracks(st: RxState, buf: seq<byte>, actual: nat, p: seq<byte>, flag: byte, len: nat)
    requires len <= |buf|
  {
    && |st.buf| == |buf|
    && st.idx == |Payload(p, flag)| <= len
    && st.buf[..st.idx] == Payload(p, flag)
    && st.buf[len..] == buf[len..]
    && st.started == (flag in p)
    && st.esc == EscPending(p, flag)
    && st.nulls == LeadingNulls(p, flag)
    && st.actual == LengthReported(p, flag, actual)
    && (HasData(p, flag) || st.buf == buf)
  }

  lemma {:induction false} PassableSnoc(p: seq<byte>, b: byte, flag: byte, len: nat)
    requires Passable(p, flag, len)
    ensures Passable(p + [b], flag, len) <==>
              && b != FLAG_END
              && |Payload(p + [b], flag)| <= len
              && LeadingNulls(p + [b], flag) <= MAX_PRE_NULL_FLAGS
  {
    var q := p + [b];
    forall i | 0 <= i <= |p| ensures q[..i] == p[..i] {}
    assert q[..|q|] == q;
    if b == FLAG_END { assert q[|p|] == FLAG_END; }
    if |Payload(q, flag)| <= len {
      forall i | 0 <= i <= |q| ensures |Payload(q[..i], flag)| <= len {
        if i <= |p| { assert q[..i] == p[..i]; }
      }
    }
  }

  /** One step keeps the correspondence, or halts for exactly the reason that makes the longer prefix impassable. */
  lemma {:induction false} FeedTracks(st: RxState, buf: seq<byte>, actual: nat, p: seq<byte>, b: byte,
                                      flag: byte, len: nat)
    requires IsOpener(flag) && len <= |buf| && len < INDEX_RANGE
    requires Tracks(st, buf, actual, p, flag, len) && Passable(p, flag, len) && b != FLAG_END
    ensures var v := Feed(st, b, flag, len);
            if Passable(p + [b], flag, len) then v.More? && Tracks(v.st, buf, actual, p + [b], flag, len)
            else
              && v.Halt?
              && (|Payload(p + [b], flag)| > len ==>
                    && v.code == InternalError
                    && st.idx == len && v.st.buf == st.buf && v.st.actual == st.actual)
              && (|Payload(p + [b], flag)| <= len ==>
                    && v.code == TimeoutError && v.st.actual == st.actual && v.st.buf == st.buf
                    && LeadingNulls(p + [b], flag) > MAX_PRE_NULL_FLAGS)
  {
    var q := p + [b];
    assert q[..|p|] == p && q[|q| - 1] == b;
    PassableSnoc(p, b, flag, len);
    var v := Feed(st, b, flag, len);
    if v.More? {
      if IsData(b, flag) {
        assert v.st.idx == st.idx + 1;
        assert v.st.buf[..v.st.idx] == st.buf[..st.idx] + [Cook(st.esc, b)];
        assert v.st.buf[len..] == st.buf[len..];
        assert IsData(q[|p|], flag);
      } else {
        if HasData(p, flag) {
          var i :| 0 <= i < |p| && IsData(p[i], flag);
          assert IsData(q[i], flag);
        }
      }
      assert (flag in q) == (flag in p || b == flag);
    }
  }

  /** Where the decoder is after the whole of a stream that holds no END: still going iff the stream is passable. */
  lemma {:induction false} DecodeTracks(st: RxState, buf: seq<byte>, actual: nat, p: seq<byte>, s: seq<byte>,
                                        flag: byte, len: nat)
    requires IsOpener(flag) && len <= |buf| && len < INDEX_RANGE
    requires Tracks(st, buf, actual, p, flag, len) && Passable(p, flag, len) && FLAG_END !in s
    ensures var d := Decode(s, flag, len, st);
            if Passable(p + s, flag, len) then
              d.code == None && d.used == |s| && Tracks(d.st, buf, actual, p + s, flag, len)
            else d.code.Some? && d.code != Some(Success)
    decreases |s|
  {
    if s == [] {
      assert p + s == p;
    } else {
      var q := p + [s[0]];
      assert q + s[1..] == p + s;
      FeedTracks(st, buf, actual, p, s[0], flag, len);
      if Passable(q, flag, len) {
        DecodeTracks(Feed(st, s[0], flag, len).st, buf, actual, q, s[1..], flag, len);
      } else {
        PassablePrefix(q, s[1..], flag, len);
      }
    }
  }

  lemma {:induction false} NullsMonotone(p: seq<byte>, s: seq<byte>, flag: byte)
    ensures LeadingNulls(p, flag) <= LeadingNulls(p + s, flag)
  {
    if s == [] {
      assert p + s == p;
    } else {
      NullsMonotone(p, s[..|s| - 1], flag);
      assert (p + s)[..|p + s| - 1] == p + s[..|s| - 1];
    }
  }

  lemma {:induction false} PassablePrefix(p: seq<byte>, s: seq<byte>, flag: byte, len: nat)
    ensures Passable(p + s, flag, len) ==> Passable(p, flag, len)
  {
    NullsMonotone(p, s, flag);
    assert forall i :: 0 <= i < |p| ==> (p + s)[i] == p[i];
    assert forall i :: 0 <= i <= |p| ==> (p + s)[..i] == p[..i];
  }

  /** Decoding splits at any point the decoder gets past. */
  lemma {:induction false} DecodeAppend(s: seq<byte>, t: seq<byte>, flag: byte, len: nat, st: RxState)
    requires len <= |st.buf|
    ensures var d := Decode(s, flag, len, st);
            Decode(s + t, flag, len, st) ==
            if d.code.Some? then d
            else var e := Decode(t, flag, len, d.st); e.(used := |s| + e.used)
    ensures Decode(s, flag, len, st).code == None ==> Decode(s, flag, len, st).used == |s|
  {
    if s == [] {
      assert s + t == t;
    } else {
      assert (s + t)[0] == s[0] && (s + t)[1..] == s[1..] + t;
      match Feed(st, s[0], flag, len)
      case Halt(_, _) =>
      case More(st1) => DecodeAppend(s[1..], t, flag, len, st1);
    }
  }

  lemma {:induction false} FreshTracks(buf: seq<byte>, actual: nat, flag: byte, len: nat)
    requires len <= |buf|
    ensures Tracks(Fresh(buf, actual), buf, actual, [], flag, len) && Passable([], flag, len)
  {}

  /**
   * The decoder against its declarative reading, for a stream whose first END comes right after `p`:
   * it succeeds iff a start flag was seen, no run overflowed and at most 10000 NULLs came first;
   * on success it has stopped right after that END, with a non-empty payload in the buffer.
   */
  lemma {:induction false} DecodeMeaning(p: seq<byte>, tail: seq<byte>, flag: byte, len: nat, buf: seq<byte>,
                                         actual: nat)
    requires IsOpener(flag) && len <= |buf| && len < INDEX_RANGE
    requires FLAG_END !in p
    ensures var d := Decode(p + [FLAG_END] + tail, flag, len, Fresh(buf, actual));
            && d.code.Some?
            && (d.code == Some(Success) <==>
                  flag in p && RunsFit(p, flag, len) && LeadingNulls(p, flag) <= 10000)
            && (flag !in p && RunsFit(p, flag, len) && LeadingNulls(p, flag) <= 10000 ==>
                  d.code == Some(InternalError) && d.used == |p| + 1)
            && (d.code == Some(Success) ==>
                  && d.used == |p| + 1
                  && |Payload(p, flag)| <= len
                  && d.st.buf[..|Payload(p, flag)|] == Payload(p, flag)
                  && d.st.buf[len..] == buf[len..]
                  && d.st.actual == LengthReported(p, flag, actual)
                  && (Payload(p, flag) != [] ==> d.st.actual == |Payload(p, flag)|))
  {
    var st := Fresh(buf, actual);
    FreshTracks(buf, actual, flag, len);
    DecodeTracks(st, buf, actual, [], p, flag, len);
    assert [] + p == p;
    assert p + [FLAG_END] + tail == p + ([FLAG_END] + tail);
    DecodeAppend(p, [FLAG_END] + tail, flag, len, st);
    LengthMeaning(p, flag, actual);
  }

  // ---- the reported length ----

  lemma {:induction false} HasDataSnoc(s: seq<byte>, b: byte, flag: byte)
    ensures HasData(s + [b], flag) <==> HasData(s, flag) || IsData(b, flag)
  {
    var t := s + [b];
    if HasData(s, flag) {
      var i :| 0 <= i < |s| && IsData(s[i], flag);
      assert IsData(t[i], flag);
    }
    if IsData(b, flag) { assert IsData(t[|s|], flag); }
  }

  /** The last data byte of all is at `j`. */
  predicate LastDataAt(s: seq<byte>, flag: byte, j: nat) {
    j < |s| && IsData(s[j], flag) && forall k :: j < k < |s| ==> !IsData(s[k], flag)
  }

  /**
   * The reported length by position: the number of bytes in the run up to the last data byte of all, even when a start
   * flag came after it; the incoming value when there was no data.
   */
  lemma {:induction false} LengthMeaning(s: seq<byte>, flag: byte, actual: nat)
    ensures HasData(s, flag) ==> exists j: nat :: LastDataAt(s, flag, j)
    ensures forall j: nat :: LastDataAt(s, flag, j) ==>
              LengthReported(s, flag, actual) == |Payload(s[..j + 1], flag)| > 0
    ensures !HasData(s, flag) ==> LengthReported(s, flag, actual) == actual && Payload(s, flag) == []
    ensures Payload(s, flag) != [] ==> LengthReported(s, flag, actual) == |Payload(s, flag)|
  {
    if s != [] {
      var n := |s| - 1;
      var front := s[..n];
      assert s == front + [s[n]];
      HasDataSnoc(front, s[n], flag);
      LengthMeaning(front, flag, actual);
      if IsData(s[n], flag) {
        assert LastDataAt(s, flag, n) && s[..n + 1] == s;
      } else {
        LastDataKept(s, front, flag);
        forall j: nat | LastDataAt(front, flag, j)
          ensures Payload(s[..j + 1], flag) == Payload(front[..j + 1], flag)
        {
          assert s[..j + 1] == front[..j + 1];
        }
      }
    }
  }

  lemma {:induction false} LastDataKept(s: seq<byte>, front: seq<byte>, flag: byte)
    requires s != [] && front == s[..|s| - 1] && !IsData(s[|s| - 1], flag)
    ensures forall j: nat :: LastDataAt(s, flag, j) <==> LastDataAt(front, flag, j)
  {
    forall j: nat ensures LastDataAt(s, flag, j) <==> LastDataAt(front, flag, j) {
      if LastDataAt(front, flag, j) {
        assert s[j] == front[j];
        forall k | j < k < |s| ensures !IsData(s[k], flag) { if k < |front| { assert s[k] == front[k]; } }
      }
      if LastDataAt(s, flag, j) {
        assert front[j] == s[j];
        forall k | j < k < |front| ensures !IsData(front[k], flag) { assert front[k] == s[k]; }
      }
    }
  }

  /**
   * A successful reception reports the length of its payload exactly when the payload is not empty, or the incoming
   * length was 0 and no data byte came at all; and it reports 0 exactly in that last case.
   */
  lemma {:induction false} LengthExactly(p: seq<byte>, tail: seq<byte>, flag: byte, len: nat, buf: seq<byte>,
                                         actual: nat)
    requires IsOpener(flag) && len <= |buf| && len < INDEX_RANGE && FLAG_END !in p
    ensures var d := Decode(p + [FLAG_END] + tail, flag, len, Fresh(buf, actual));
            d.code == Some(Success) ==>
              && (d.st.actual == |Payload(p, flag)| <==>
                    Payload(p, flag) != [] || (actual == 0 && !HasData(p, flag)))
              && (d.st.actual == 0 <==> actual == 0 && !HasData(p, flag))
  {
    DecodeMeaning(p, tail, flag, len, buf, actual);
    LengthMeaning(p, flag, actual);
    if HasData(p, flag) {
      var j: nat :| LastDataAt(p, flag, j);
      assert LengthReported(p, flag, actual) > 0;
    }
  }

  /** For example: an empty frame leaves whatever length the caller passed in. */
  lemma {:induction false} EmptyFrameKeepsLength(len: nat, buf: seq<byte>, actual: nat)
    requires len <= |buf| && len < INDEX_RANGE
    ensures var d := Decode([0xAC, 0xAD], FLAG_START, len, Fresh(buf, actual));
            d.code == Some(Success) && d.st.actual == actual && d.st.buf == buf
  {
    var st := Fresh(buf, actual);
    assert [FLAG_START, FLAG_END][1..] == [FLAG_END];
    assert Decode([FLAG_END], FLAG_START, len, st.(started := true)) ==
           Decoding(Some(Success), 1, st.(started := true));
  }

  // ---- bounded failure ----

  /** Whatever the stream, nothing past the given length is ever written. */
  lemma {:induction false} NeverPastBuffer(s: seq<byte>, flag: byte, len: nat, st: RxState)
    requires len <= |st.buf|
    ensures Decode(s, flag, len, st).st.buf[len..] == st.buf[len..]
  {
    if s != [] {
      var v := Feed(st, s[0], flag, len);
      assert v.st.buf[len..] == st.buf[len..];
      if v.More? { NeverPastBuffer(s[1..], flag, len, v.st); }
    }
  }

  /** The byte that overflows a run stops the decoder with the buffer holding the first `len` bytes of that run. */
  lemma {:induction false} Overflow(p: seq<byte>, b: byte, tail: seq<byte>, flag: byte, len: nat,
                                    buf: seq<byte>, actual: nat)
    requires IsOpener(flag) && len <= |buf| && len < INDEX_RANGE
    requires Passable(p, flag, len) && |Payload(p + [b], flag)| > len
    ensures var d := Decode(p + [b] + tail, flag, len, Fresh(buf, actual));
            && d.code == Some(InternalError) && d.used == |p| + 1
            && d.st.buf[..len] == Payload(p + [b], flag)[..len]
            && (len > 0 ==> d.st.actual == len)
  {
    var st := Fresh(buf, actual);
    FreshTracks(buf, actual, flag, len);
    DecodeTracks(st, buf, actual, [], p, flag, len);
    LengthMeaning(p, flag, actual);
    assert [] + p == p;
    assert p + [b] + tail == p + ([b] + tail);
    DecodeAppend(p, [b] + tail, flag, len, st);
    assert (p + [b])[..|p|] == p;
    assert b != FLAG_END;
    FeedTracks(Decode(p, flag, len, st).st, buf, actual, p, b, flag, len);
    PassableSnoc(p, b, flag, len);
    assert ([b] + tail)[0] == b;
  }

  /** The NULL that is one too many stops the decoder with a timeout; buffer and length stay as they are. */
  lemma {:induction false} NullLimit(p: seq<byte>, b: byte, tail: seq<byte>, flag: byte, len: nat, buf: seq<byte>,
                                     actual: nat)
    requires IsOpener(flag) && len <= |buf| && len < INDEX_RANGE
    requires Passable(p, flag, len) && LeadingNulls(p + [b], flag) > 10000
    ensures var d := Decode(p + [b] + tail, flag, len, Fresh(buf, actual));
            && d.code == Some(TimeoutError) && d.used == |p| + 1 && b == FLAG_NULL && flag !in p
            && d.st.actual == LengthReported(p, flag, actual)
            && |Payload(p, flag)| <= len && d.st.buf[..|Payload(p, flag)|] == Payload(p, flag)
            && d.st.buf[len..] == buf[len..]
  {
    var st := Fresh(buf, actual);
    FreshTracks(buf, actual, flag, len);
    DecodeTracks(st, buf, actual, [], p, flag, len);
    assert [] + p == p;
    assert p + [b] + tail == p + ([b] + tail);
    DecodeAppend(p, [b] + tail, flag, len, st);
    assert (p + [b])[..|p|] == p;
    PayloadSnoc(p, b, flag);
    FeedTracks(Decode(p, flag, len, st).st, buf, actual, p, b, flag, len);
    PassableSnoc(p, b, flag, len);
    assert ([b] + tail)[0] == b;
  }

  function Nulls(n: nat): (s: seq<byte>)
    ensures |s| == n
  {
    seq(n, _ => 0xAF)
  }

  /** An all-NULL stream is given up after exactly 10001 reads, and the incoming length is left as it was. */
  lemma {:induction false} AllNulls(n: nat, flag: byte, len: nat, st: RxState)
    requires IsOpener(flag) && len <= |st.buf| && !st.started && st.nulls <= MAX_PRE_NULL_FLAGS
    ensures var d := Decode(Nulls(n), flag, len, st);
            && d.st.actual == st.actual && d.st.buf == st.buf
            && (st.nulls + n <= MAX_PRE_NULL_FLAGS ==> d.code == None)
            && (st.nulls + n > MAX_PRE_NULL_FLAGS ==>
                  d.code == Some(TimeoutError) && d.used == 10001 - st.nulls)
    decreases n
  {
    if n > 0 {
      assert Nulls(n)[0] == FLAG_NULL && Nulls(n)[1..] == Nulls(n - 1);
      if st.nulls < MAX_PRE_NULL_FLAGS {
        AllNulls(n - 1, flag, len, st.(nulls := st.nulls + 1));
      }
    }
  }
}
