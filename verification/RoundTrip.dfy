/**
 * Frames in a stream: an empty receive FIFO reads as NULL, so a frame arrives with NULLs anywhere inside it,
 * possibly after leftovers of something else. These lemmas say what the decoder makes of that.
 */
module RoundTrip {
  import opened Types
  import opened Framing
  import opened Decoder

  /** A stream without its NULLs. */
  function Strip(s: seq<byte>): seq<byte> {
    if s == [] then []
    else Strip(s[..|s| - 1]) + if s[|s| - 1] == FLAG_NULL then [] else [s[|s| - 1]]
  }

  /** `z` is the frame of `m` with NULLs inserted anywhere, at most 10000 of them before the start flag. */
  ghost predicate NoisyFrame(z: seq<byte>, flag: byte, m: seq<byte>) {
    && Strip(z) == FrameWith(flag, m)
    && z[|z| - 1] == FLAG_END
    && LeadingNulls(z, flag) <= MAX_PRE_NULL_FLAGS
  }

  lemma {:induction false} StripSnoc(s: seq<byte>, b: byte)
    ensures Strip(s + [b]) == if b == FLAG_NULL then Strip(s) else Strip(s) + [b]
  {
    assert (s + [b])[..|s|] == s;
  }

  lemma {:induction false} StripConcat(s: seq<byte>, t: seq<byte>)
    ensures Strip(s + t) == Strip(s) + Strip(t)
  {
    if t == [] {
      assert s + t == s;
    } else {
      assert (s + t)[..|s + t| - 1] == s + t[..|t| - 1];
      StripConcat(s, t[..|t| - 1]);
    }
  }

  lemma {:induction false} StripMembers(s: seq<byte>, b: byte)
    requires b != FLAG_NULL
    ensures b in Strip(s) <==> b in s
  {
    if s != [] {
      var front, last := s[..|s| - 1], s[|s| - 1];
      assert s == front + [last];
      StripMembers(front, b);
    }
  }

  /** NULLs change neither the payload nor a pending escape. */
  lemma {:induction false} StripKeepsMeaning(s: seq<byte>, flag: byte)
    requires IsOpener(flag)
    ensures Payload(Strip(s), flag) == Payload(s, flag)
    ensures EscPending(Strip(s), flag) == EscPending(s, flag)
  {
    if s != [] {
      var front, last := s[..|s| - 1], s[|s| - 1];
      StripKeepsMeaning(front, flag);
      assert s == front + [last];
      PayloadSnoc(front, last, flag);
      PayloadSnoc(Strip(front), last, flag);
      assert Strip(front) + [] == Strip(front);
    }
  }

  /** A pending escape survives the start flag and lands on the first byte of the next payload. */
  function Carried(esc: bool, m: seq<byte>): (r: seq<byte>)
    ensures |r| == |m|
  {
    if m == [] then [] else [Cook(esc, m[0])] + m[1..]
  }

  lemma {:induction false} PayloadStuffByte(t: seq<byte>, b: byte, flag: byte)
    requires IsOpener(flag)
    ensures Payload(t + StuffByte(b), flag) == Payload(t, flag) + [Cook(EscPending(t, flag), b)]
    ensures !EscPending(t + StuffByte(b), flag)
  {
    if IsFlagByte(b) {
      assert t + StuffByte(b) == (t + [FLAG_ESC]) + [b - 0x80];
      PayloadSnoc(t, FLAG_ESC, flag);
      PayloadSnoc(t + [FLAG_ESC], b - 0x80, flag);
    } else {
      PayloadSnoc(t, b, flag);
    }
  }

  lemma {:induction false} Regroup(g: seq<byte>, flag: byte, x: seq<byte>, y: seq<byte>)
    ensures g + ([flag] + (x + y)) == (g + ([flag] + x)) + y
  {}

  lemma {:induction false} PayloadOfStuffed(g: seq<byte>, flag: byte, m: seq<byte>, s: seq<byte>)
    requires IsOpener(flag) && s == g + ([flag] + Stuff(m))
    ensures Payload(s, flag) == Carried(EscPending(g, flag), m)
    ensures EscPending(s, flag) <==> m == [] && EscPending(g, flag)
    decreases |m|
  {
    if m == [] {
      assert s == g + [flag];
      PayloadSnoc(g, flag, flag);
    } else {
      var front, b := m[..|m| - 1], m[|m| - 1];
      PayloadOfStuffed(g, flag, front, g + ([flag] + Stuff(front)));
      assert m == front + [b];
      StuffedStep(g, flag, front, b, s);
    }
  }

  lemma {:induction false} StuffedStep(g: seq<byte>, flag: byte, front: seq<byte>, b: byte, s: seq<byte>)
    requires IsOpener(flag) && s == g + ([flag] + Stuff(front + [b]))
    requires var t := g + ([flag] + Stuff(front));
             && Payload(t, flag) == Carried(EscPending(g, flag), front)
             && (EscPending(t, flag) <==> front == [] && EscPending(g, flag))
    ensures Payload(s, flag) == Carried(EscPending(g, flag), front + [b])
    ensures !EscPending(s, flag)
  {
    var t := g + ([flag] + Stuff(front));
    StuffSnoc(front, b);
    Regroup(g, flag, Stuff(front), StuffByte(b));
    PayloadStuffByte(t, b, flag);
    CarriedSnoc(EscPending(g, flag), front, b);
  }

  lemma {:induction false} CarriedSnoc(esc: bool, m: seq<byte>, b: byte)
    ensures Carried(esc, m + [b]) == Carried(esc, m) + [Cook(m == [] && esc, b)]
    ensures IsFlagByte(b) ==> Cook(true, b) == b
  {}

  /** Without another start flag the payload only grows. */
  lemma {:induction false} PayloadGrows(s: seq<byte>, t: seq<byte>, flag: byte)
    requires flag !in t
    ensures Payload(s, flag) <= Payload(s + t, flag)
  {
    if t == [] {
      assert s + t == s;
    } else {
      assert (s + t)[..|s + t| - 1] == s + t[..|t| - 1];
      PayloadGrows(s, t[..|t| - 1], flag);
    }
  }

  /** A prefix of a stripped stream is the stripped form of a prefix, and the other way round. */
  lemma {:induction false} StripPrefix(s: seq<byte>, i: nat)
    requires i <= |s|
    ensures Strip(s[..i]) <= Strip(s)
  {
    if i < |s| {
      StripPrefix(s[..|s| - 1], i);
      assert s[..|s| - 1][..i] == s[..i];
    } else {
      assert s[..i] == s;
    }
  }

  lemma {:induction false} StuffHasNo(flag: byte, m: seq<byte>)
    requires IsFlagByte(flag) && flag != FLAG_ESC
    ensures flag !in Stuff(m)
  {
    StuffShape(m);
  }

  lemma {:induction false} NoisyPayload(g: seq<byte>, p: seq<byte>, flag: byte, m: seq<byte>)
    requires IsOpener(flag) && Strip(p) == [flag] + Stuff(m)
    ensures Payload(g + p, flag) == Carried(EscPending(g, flag), m)
  {
    StripConcat(g, p);
    StripKeepsMeaning(g + p, flag);
    StripKeepsMeaning(g, flag);
    PayloadOfStuffed(Strip(g), flag, m, Strip(g + p));
  }

  /** Part of a frame: either nothing of it has counted yet, or what has is no longer than the message. */
  lemma {:induction false} PrefixOfNoisy(g: seq<byte>, p: seq<byte>, j: nat, flag: byte, m: seq<byte>)
    requires IsOpener(flag) && Strip(p) == [flag] + Stuff(m) && j <= |p|
    ensures |Payload(g + p[..j], flag)| <= |m| || Payload(g + p[..j], flag) == Payload(g, flag)
  {
    var q := Strip(p[..j]);
    StripPrefix(p, j);
    StripConcat(g, p[..j]);
    StripKeepsMeaning(g + p[..j], flag);
    if q == [] {
      assert Strip(g) + q == Strip(g);
      StripKeepsMeaning(g, flag);
    } else {
      PrefixOfFrame(Strip(g), q, flag, m);
    }
  }

  lemma {:induction false} PrefixOfFrame(g: seq<byte>, q: seq<byte>, flag: byte, m: seq<byte>)
    requires IsOpener(flag) && q != [] && q <= [flag] + Stuff(m)
    ensures |Payload(g + q, flag)| <= |m|
  {
    PayloadOfStuffed(g, flag, m, g + ([flag] + Stuff(m)));
    StuffHasNo(flag, m);
    PrefixOfBody(g, q, flag, Stuff(m));
  }

  lemma {:induction false} PrefixOfBody(g: seq<byte>, q: seq<byte>, flag: byte, body: seq<byte>)
    requires q != [] && q <= [flag] + body && flag !in body
    ensures |Payload(g + q, flag)| <= |Payload(g + ([flag] + body), flag)|
  {
    var front, rest := body[..|q| - 1], body[|q| - 1..];
    assert q == [flag] + front && body == front + rest;
    Regroup(g, flag, front, rest);
    PayloadGrows(g + q, rest, flag);
  }

  /** Every run stays within the buffer when the leftovers' runs do and the message does. */
  lemma {:induction false} RunsOfNoisy(g: seq<byte>, p: seq<byte>, flag: byte, m: seq<byte>, len: nat)
    requires IsOpener(flag) && Strip(p) == [flag] + Stuff(m)
    ensures RunsFit(g + p, flag, len) <==> RunsFit(g, flag, len) && |m| <= len
  {
    var s := g + p;
    NoisyPayload(g, p, flag, m);
    assert s[..|s|] == s;
    if RunsFit(s, flag, len) {
      forall i | 0 <= i <= |g| ensures |Payload(g[..i], flag)| <= len { assert s[..i] == g[..i]; }
    }
    if RunsFit(g, flag, len) && |m| <= len {
      forall i | 0 <= i <= |s| ensures |Payload(s[..i], flag)| <= len {
        RunOfNoisy(g, p, i, flag, m, len);
      }
    }
  }

  lemma {:induction false} RunOfNoisy(g: seq<byte>, p: seq<byte>, i: nat, flag: byte, m: seq<byte>, len: nat)
    requires IsOpener(flag) && Strip(p) == [flag] + Stuff(m)
    requires RunsFit(g, flag, len) && |m| <= len && i <= |g + p|
    ensures |Payload((g + p)[..i], flag)| <= len
  {
    if i <= |g| {
      assert (g + p)[..i] == g[..i];
    } else {
      assert (g + p)[..i] == g + p[..i - |g|];
      PrefixOfNoisy(g, p, i - |g|, flag, m);
      assert g[..|g|] == g;
    }
  }

  lemma {:induction false} NullsAfterStart(s: seq<byte>, t: seq<byte>, flag: byte)
    requires flag in s
    ensures LeadingNulls(s + t, flag) == LeadingNulls(s, flag)
  {
    if t == [] {
      assert s + t == s;
    } else {
      assert (s + t)[..|s + t| - 1] == s + t[..|t| - 1];
      NullsAfterStart(s, t[..|t| - 1], flag);
    }
  }

  /** An empty frame has no data byte in it. */
  lemma {:induction false} EmptyKeepsLength(g: seq<byte>, p: seq<byte>, flag: byte, actual: nat)
    requires IsOpener(flag) && Strip(p) == [flag]
    ensures LengthReported(g + p, flag, actual) == LengthReported(g, flag, actual)
  {
    forall i | 0 <= i < |p| ensures !IsData(p[i], flag) {
      if p[i] != FLAG_NULL { StripMembers(p, p[i]); assert p[i] in [flag]; }
    }
    NoDataKeepsLength(g, p, flag, actual);
  }

  lemma {:induction false} NoDataKeepsLength(g: seq<byte>, p: seq<byte>, flag: byte, actual: nat)
    requires forall i :: 0 <= i < |p| ==> !IsData(p[i], flag)
    ensures LengthReported(g + p, flag, actual) == LengthReported(g, flag, actual)
  {
    if p == [] {
      assert g + p == g;
    } else {
      assert (g + p)[..|g + p| - 1] == g + p[..|p| - 1];
      NoDataKeepsLength(g, p[..|p| - 1], flag, actual);
    }
  }

  /**
   * A frame after arbitrary leftovers without END: it is received, stopping right after its END, exactly when no run
   * of the leftovers overflows the buffer, the message fits, and at most 10000 NULLs come before the first start flag;
   * what is returned is the message, except that an escape left pending sets bit 7 of its first byte.
   */
  lemma {:induction false} DecodeAfterLeftovers(g: seq<byte>, z: seq<byte>, tail: seq<byte>, flag: byte,
                                                m: seq<byte>, len: nat, buf: seq<byte>, actual: nat)
    requires IsOpener(flag) && len <= |buf| && len < INDEX_RANGE && FLAG_END !in g
    requires Strip(z) == FrameWith(flag, m) && z[|z| - 1] == FLAG_END
    ensures var d := Decode(g + z + tail, flag, len, Fresh(buf, actual));
            && d.code.Some?
            && (d.code == Some(Success) <==>
                  RunsFit(g, flag, len) && |m| <= len && LeadingNulls(g + z, flag) <= MAX_PRE_NULL_FLAGS)
            && (d.code == Some(Success) ==>
                  && d.used == |g| + |z|
                  && d.st.buf[..|m|] == Carried(EscPending(g, flag), m)
                  && d.st.buf[len..] == buf[len..]
                  && d.st.actual == if m != [] then |m| else LengthReported(g, flag, actual))
  {
    var p := z[..|z| - 1];
    assert z == p + [FLAG_END];
    assert Strip(z) == Strip(p) + [FLAG_END];
    assert Strip(p) == Strip(z)[..|Strip(z)| - 1] == [flag] + Stuff(m);
    StuffHasNo(FLAG_END, m);
    StripMembers(p, FLAG_END);
    StripMembers(p, flag);
    assert ([flag] + Stuff(m))[0] == flag;
    assert flag in g + p;
    NullsAfterStart(g + p, [FLAG_END], flag);
    assert g + p + [FLAG_END] == g + z;
    assert g + z + tail == (g + p) + [FLAG_END] + tail;
    RunsOfNoisy(g, p, flag, m, len);
    DecodeMeaning(g + p, tail, flag, len, buf, actual);
    NoisyPayload(g, p, flag, m);
    LengthMeaning(g + p, flag, actual);
    if m == [] { EmptyKeepsLength(g, p, flag, actual); }
  }

  /** The message came through: success right after its frame, with exactly its bytes reported. */
  predicate Delivered(d: Decoding, used: nat, m: seq<byte>) {
    d.code == Some(Success) && d.used == used && d.st.actual == |m| <= |d.st.buf| && d.st.buf[..|m|] == m
  }

  /**
   * Resynchronisation delivers the message exactly when leftovers and message fit, NULLs are within their limit, and no
   * escape is pending or bit 7 of the first byte is set anyway.
   */
  lemma {:induction false} Resynchronises(g: seq<byte>, z: seq<byte>, tail: seq<byte>, flag: byte,
                                          m: seq<byte>, len: nat, buf: seq<byte>, actual: nat)
    requires IsOpener(flag) && len <= |buf| && len < INDEX_RANGE && FLAG_END !in g
    requires Strip(z) == FrameWith(flag, m) && z[|z| - 1] == FLAG_END && m != []
    ensures Delivered(Decode(g + z + tail, flag, len, Fresh(buf, actual)), |g| + |z|, m) <==>
              && RunsFit(g, flag, len) && |m| <= len && LeadingNulls(g + z, flag) <= MAX_PRE_NULL_FLAGS
              && (!EscPending(g, flag) || m[0] >= 0x80)
  {
    DecodeAfterLeftovers(g, z, tail, flag, m, len, buf, actual);
    assert m == [m[0]] + m[1..];
    var c := Carried(EscPending(g, flag), m);
    assert c[0] == Cook(EscPending(g, flag), m[0]);
  }

  lemma {:induction false} StripNothing(s: seq<byte>)
    requires FLAG_NULL !in s
    ensures Strip(s) == s
  {
    if s != [] { StripNothing(s[..|s| - 1]); }
  }

  lemma {:induction false} FrameHasNoNull(m: seq<byte>)
    ensures FLAG_NULL !in Frame(m)
  {
    FrameShape(FLAG_START, m);
  }

  /** A frame is itself a noisy one. */
  lemma {:induction false} FrameIsNoisy(m: seq<byte>)
    ensures NoisyFrame(Frame(m), FLAG_START, m)
  {
    FrameHasNoNull(m);
    StripNothing(Frame(m));
    RawNulls(Frame(m), FLAG_START);
  }

  lemma {:induction false} LoneEscape(flag: byte, len: nat)
    ensures EscPending([FLAG_ESC], flag) && RunsFit([FLAG_ESC], flag, len)
  {
    forall i | 0 <= i <= 1 ensures |Payload([FLAG_ESC][..i], flag)| <= len {
      if i == 1 { assert [FLAG_ESC][..1] == [] + [FLAG_ESC]; PayloadSnoc([], FLAG_ESC, flag); }
    }
  }

  /** For example: an ESC left over before a message whose first byte is below 0x80 turns that byte into another. */
  lemma {:induction false} LeftoverEscapeCorrupts(b: byte, rest: seq<byte>, len: nat, buf: seq<byte>, actual: nat)
    requires b < 0x80 && 1 + |rest| <= len <= |buf| && len < INDEX_RANGE
    ensures var m := [b] + rest;
            var d := Decode([0xAE] + FrameWith(FLAG_START, m), FLAG_START, len, Fresh(buf, actual));
            && d.code == Some(Success) && d.st.actual == |m|
            && d.st.buf[..|m|] == [b + 0x80] + rest != m
  {
    var m := [b] + rest;
    var f := FrameWith(FLAG_START, m);
    FrameIsNoisy(m);
    FrameHasNoNull(m);
    RawNulls([FLAG_ESC] + f, FLAG_START);
    assert [FLAG_ESC] + f + [] == [FLAG_ESC] + f;
    LoneEscape(FLAG_START, len);
    assert Carried(true, m) == [b + 0x80] + rest;
    DecodeAfterLeftovers([FLAG_ESC], f, [], FLAG_START, m, len, buf, actual);
  }

  /** One message, any NULL interleaving. */
  lemma {:induction false} DecodeNoisyFrame(z: seq<byte>, tail: seq<byte>, flag: byte, m: seq<byte>, len: nat,
                                            buf: seq<byte>, actual: nat)
    requires IsOpener(flag) && len <= |buf| && len < INDEX_RANGE
    requires NoisyFrame(z, flag, m) && |m| <= len
    ensures var d := Decode(z + tail, flag, len, Fresh(buf, actual));
            && d.code == Some(Success) && d.used == |z|
            && d.st.buf[..|m|] == m && d.st.buf[len..] == buf[len..]
            && d.st.actual == if m != [] then |m| else actual
  {
    assert [] + z == z;
    DecodeAfterLeftovers([], z, tail, flag, m, len, buf, actual);
  }

  /**
   * A link-release flag inside a frame does not end the reception with an error: it is stored like any data byte.
   */
  lemma {:induction false} LinkReleaseIsStored(before: seq<byte>, after: seq<byte>, len: nat, buf: seq<byte>,
                                               actual: nat)
    requires |before| + 1 + |after| <= len <= |buf| && len < INDEX_RANGE
    requires forall b :: b in before + after ==> !IsFlagByte(b)
    ensures var m := before + [FLAG_LPH2RL] + after;
            var d := Decode([FLAG_START] + m + [FLAG_END], FLAG_START, len, Fresh(buf, actual));
            d.code == Some(Success) && d.st.actual == |m| && d.st.buf[..|m|] == m
  {
    var m := before + [FLAG_LPH2RL] + after;
    assert forall i :: 0 <= i < |m| ==> m[i] == FLAG_LPH2RL || m[i] in before + after;
    var p := [FLAG_START] + m;
    RawPayload(m, m, FLAG_START);
    forall i | 0 <= i <= |p| ensures |Payload(p[..i], FLAG_START)| <= len {
      if i > 0 {
        assert p[..i] == [FLAG_START] + m[..i - 1];
        RawPayload(m[..i - 1], m, FLAG_START);
      }
    }
    RawNulls(p, FLAG_START);
    assert p[0] == FLAG_START;
    assert p + [FLAG_END] + [] == [FLAG_START] + m + [FLAG_END];
    DecodeMeaning(p, [], FLAG_START, len, buf, actual);
  }

  lemma {:induction false} RawPayload(m: seq<byte>, whole: seq<byte>, flag: byte)
    requires m <= whole && forall i :: 0 <= i < |whole| ==> IsData(whole[i], flag)
    requires IsOpener(flag)
    ensures Payload([flag] + m, flag) == m && !EscPending([flag] + m, flag)
    decreases |m|
  {
    if m == [] {
      PayloadSnoc([], flag, flag);
      assert [] + [flag] == [flag] + m;
    } else {
      var n := |m| - 1;
      RawPayload(m[..n], whole, flag);
      assert [flag] + m == ([flag] + m[..n]) + [m[n]];
      PayloadSnoc([flag] + m[..n], m[n], flag);
      assert m == m[..n] + [m[n]];
    }
  }

  lemma {:induction false} RawNulls(s: seq<byte>, flag: byte)
    requires FLAG_NULL !in s
    ensures LeadingNulls(s, flag) == 0
  {
    if s != [] { RawNulls(s[..|s| - 1], flag); }
  }

  // ---- many messages on one stream ----

  /** `n` receive calls in a row on one stream and one buffer: the messages, and what is left of the stream. */
  function ReceiveMany(s: seq<byte>, n: nat, len: nat, buf: seq<byte>, actual: nat): Option<(seq<seq<byte>>, seq<byte>)>
    requires len <= |buf|
  {
    if n == 0 then Some(([], s))
    else
      var d := Decode(s, FLAG_START, len, Fresh(buf, actual));
      if d.code != Some(Success) || d.st.actual > |d.st.buf| then None
      else
        match ReceiveMany(s[d.used..], n - 1, len, d.st.buf, d.st.actual)
        case None => None
        case Some((ms, rest)) => Some(([d.st.buf[..d.st.actual]] + ms, rest))
  }

  ghost predicate NoisyStream(parts: seq<seq<byte>>, msgs: seq<seq<byte>>, len: nat) {
    && |parts| == |msgs|
    && forall i :: 0 <= i < |msgs| ==> NoisyFrame(parts[i], FLAG_START, msgs[i]) && |msgs[i]| <= len
  }

  /** Empty messages come only while the length variable, handed from call to call, is still 0. */
  predicate NoneStale(msgs: seq<seq<byte>>, actual: nat) {
    msgs == [] || (if msgs[0] == [] then actual == 0 && NoneStale(msgs[1..], 0) else NoneStale(msgs[1..], |msgs[0]|))
  }

  /**
   * Any list of messages comes back in order, each call stopping right after its own END, the rest untouched, exactly
   * when no empty message is received over a stale length; in particular whenever no message is empty.
   */
  lemma {:induction false} MessagesRoundTrip(parts: seq<seq<byte>>, msgs: seq<seq<byte>>, tail: seq<byte>, len: nat,
                                             buf: seq<byte>, actual: nat)
    requires len <= |buf| && len < INDEX_RANGE
    requires NoisyStream(parts, msgs, len)
    ensures ReceiveMany(Concat(parts) + tail, |msgs|, len, buf, actual) == Some((msgs, tail)) <==>
            NoneStale(msgs, actual)
    ensures [] !in msgs ==> NoneStale(msgs, actual)
  {
    if msgs == [] {
      assert Concat(parts) + tail == tail;
    } else {
      var rest := Concat(parts[1..]) + tail;
      assert Concat(parts) + tail == parts[0] + rest;
      DecodeNoisyFrame(parts[0], rest, FLAG_START, msgs[0], len, buf, actual);
      var d := Decode(parts[0] + rest, FLAG_START, len, Fresh(buf, actual));
      assert (parts[0] + rest)[d.used..] == rest;
      MessagesRoundTrip(parts[1..], msgs[1..], tail, len, d.st.buf, d.st.actual);
      if d.st.actual <= |d.st.buf| { ReceivedThen(d, rest, msgs, len); }
    }
  }

  /** The first message right and the others right, or something wrong. */
  lemma {:induction false} ReceivedThen(d: Decoding, rest: seq<byte>, msgs: seq<seq<byte>>, len: nat)
    requires msgs != [] && len <= |d.st.buf| && d.st.actual <= |d.st.buf|
    ensures var later := ReceiveMany(rest, |msgs| - 1, len, d.st.buf, d.st.actual);
            later.Some? ==>
              ([d.st.buf[..d.st.actual]] + later.value.0 == msgs <==>
                 d.st.buf[..d.st.actual] == msgs[0] && later.value.0 == msgs[1..])
  {
    assert msgs == [msgs[0]] + msgs[1..];
    var later := ReceiveMany(rest, |msgs| - 1, len, d.st.buf, d.st.actual);
    if later.Some? {
      var all := [d.st.buf[..d.st.actual]] + later.value.0;
      assert all[0] == d.st.buf[..d.st.actual] && all[1..] == later.value.0;
    }
  }
}
