/** The byte-stuffing encoder: what `EComPortPrepareData` puts on the wire. */
module Framing {
  import opened Types

  /** `outByteIndex` is a `uint16_t`. */
  const INDEX_RANGE := 0x1_0000

  function StuffByte(b: byte): seq<byte> {
    if IsFlagByte(b) then [FLAG_ESC, b - 0x80] else [b]
  }

  function Stuff(data: seq<byte>): seq<byte> {
    if data == [] then [] else Stuff(data[..|data| - 1]) + StuffByte(data[|data| - 1])
  }

  /** A message as a peer opens it with `flag`: START for data, IDA for the identification response. */
  function FrameWith(flag: byte, data: seq<byte>): seq<byte> {
    [flag] + Stuff(data) + [FLAG_END]
  }

  function Frame(data: seq<byte>): seq<byte> {
    FrameWith(FLAG_START, data)
  }

  function FlagBytes(data: seq<byte>): nat {
    if data == [] then 0
    else FlagBytes(data[..|data| - 1]) + if IsFlagByte(data[|data| - 1]) then 1 else 0
  }

  /** The stuffed body read back: ESC dropped, bit 7 restored on the byte after it. */
  function Unstuff(body: seq<byte>): seq<byte> {
    if body == [] then []
    else if body[0] == FLAG_ESC && |body| > 1 then [SetBit7(body[1])] + Unstuff(body[2..])
    else [body[0]] + Unstuff(body[1..])
  }

  lemma {:induction false} StuffSnoc(data: seq<byte>, b: byte)
    ensures Stuff(data + [b]) == Stuff(data) + StuffByte(b)
  {
    assert (data + [b])[..|data|] == data;
  }

  lemma {:induction false} StuffLast(data: seq<byte>, front: seq<byte>, b: byte)
    requires data == front + [b]
    ensures Stuff(data) == Stuff(front) + StuffByte(b)
  {
    assert data[..|data| - 1] == front;
  }

  lemma {:induction false} StuffCons(b: byte, data: seq<byte>)
    ensures Stuff([b] + data) == StuffByte(b) + Stuff(data)
  {
    if data == [] {
      assert ([b] + data)[..0] == [];
    } else {
      var front, last := data[..|data| - 1], data[|data| - 1];
      StuffCons(b, front);
      StuffLast([b] + data, [b] + front, last);
      StuffLast(data, front, last);
      Associates(StuffByte(b), Stuff(front), StuffByte(last));
    }
  }

  /** Every flag byte of the payload costs one extra byte, and never more than that. */
  lemma {:induction false} FrameLength(data: seq<byte>)
    ensures |Frame(data)| == 2 + |data| + FlagBytes(data)
    ensures FlagBytes(data) <= |data|
  {
    if data != [] {
      FrameLength(data[..|data| - 1]);
    }
  }

  /** A stuffed body holds no flag byte except ESC, and ESC is always followed by a byte in 0x20..0x3F. */
  ghost predicate WellStuffed(body: seq<byte>) {
    forall i :: 0 <= i < |body| && IsFlagByte(body[i]) ==>
      body[i] == FLAG_ESC && i + 1 < |body| && 0x20 <= body[i + 1] < 0x40
  }

  lemma {:induction false} StuffShape(data: seq<byte>)
    ensures WellStuffed(Stuff(data))
  {
    if data != [] {
      var front := Stuff(data[..|data| - 1]);
      StuffShape(data[..|data| - 1]);
      var body := Stuff(data);
      forall i | 0 <= i < |body| && IsFlagByte(body[i])
        ensures body[i] == FLAG_ESC && i + 1 < |body| && 0x20 <= body[i + 1] < 0x40
      {
        if i < |front| {
          assert front[i] == body[i];
          assert front[i + 1] == body[i + 1];
        }
      }
    }
  }

  /** The frame is START, a well-stuffed body, END, so the only START is the first byte and the only END the last. */
  lemma {:induction false} FrameShape(flag: byte, data: seq<byte>)
    requires IsFlagByte(flag) && flag != FLAG_ESC
    ensures var f := FrameWith(flag, data);
            && f[0] == flag && f[|f| - 1] == FLAG_END
            && WellStuffed(f[1..|f| - 1])
            && (forall i :: 0 < i < |f| - 1 ==> !IsFlagByte(f[i]) || f[i] == FLAG_ESC)
  {
    var f := FrameWith(flag, data);
    StuffShape(data);
    assert f[1..|f| - 1] == Stuff(data);
    forall i | 0 < i < |f| - 1 ensures !IsFlagByte(f[i]) || f[i] == FLAG_ESC {
      assert f[i] == Stuff(data)[i - 1];
    }
  }

  lemma {:induction false} UnstuffStuff(data: seq<byte>)
    ensures Unstuff(Stuff(data)) == data
  {
    if data != [] {
      var b, rest := data[0], data[1..];
      assert data == [b] + rest;
      StuffCons(b, rest);
      UnstuffStuff(rest);
      var body := Stuff(data);
      if IsFlagByte(b) {
        assert body[0] == FLAG_ESC && body[1] == b - 0x80 && body[2..] == Stuff(rest);
      } else {
        assert body[0] == b && body[1..] == Stuff(rest);
      }
    }
  }

  /** Distinct payloads have distinct frames. */
  lemma {:induction false} FrameInjective(a: seq<byte>, b: seq<byte>)
    requires Frame(a) == Frame(b)
    ensures a == b
  {
    assert Stuff(a) == Frame(a)[1..|Frame(a)| - 1];
    assert Stuff(b) == Frame(b)[1..|Frame(b)| - 1];
    UnstuffStuff(a);
    UnstuffStuff(b);
  }

  // ---- the 16-bit output index ----

  function Zeros(n: nat): (z: seq<byte>)
    ensures |z| == n
  {
    seq(n, _ => 0)
  }

  /** `temp` after writing `bytes` one by one through an index that wraps at 2^16. */
  function Written(temp: seq<byte>, bytes: seq<byte>): (r: seq<byte>)
    requires |bytes| <= |temp|
    ensures |r| == |temp|
  {
    if bytes == [] then temp
    else
      var n := |bytes| - 1;
      Written(temp, bytes[..n])[n % INDEX_RANGE := bytes[n]]
  }

  lemma {:induction false} WrittenSnoc(temp: seq<byte>, bytes: seq<byte>, b: byte)
    requires |bytes| < |temp|
    ensures Written(temp, bytes + [b]) == Written(temp, bytes)[|bytes| % INDEX_RANGE := b]
  {
    assert (bytes + [b])[..|bytes|] == bytes;
  }

  lemma {:induction false} NextIndex(n: nat)
    ensures (n % INDEX_RANGE + 1) % INDEX_RANGE == (n + 1) % INDEX_RANGE
  {}

  lemma {:induction false} WrittenInPlace(temp: seq<byte>, bytes: seq<byte>)
    requires |bytes| <= |temp| && |bytes| <= INDEX_RANGE
    ensures Written(temp, bytes)[..|bytes|] == bytes
  {
    if bytes != [] {
      var n := |bytes| - 1;
      WrittenInPlace(temp, bytes[..n]);
      assert Written(temp, bytes)[..n] == Written(temp, bytes[..n])[..n];
      assert bytes == bytes[..n] + [bytes[n]];
    }
  }

  lemma {:induction false} FrameFits(data: seq<byte>)
    ensures 2 <= |Frame(data)| <= 2 * |data| + 2
  {
    FrameLength(data);
  }

  /** The bytes the encoder hands out: the temporary buffer up to the (wrapped) final index. */
  function Prepared(data: seq<byte>): seq<byte> {
    FrameFits(data);
    Written(Zeros(2 * |data| + 2), Frame(data))[..|Frame(data)| % INDEX_RANGE]
  }

  lemma {:induction false} PreparedFrom(data: seq<byte>, temp: seq<byte>)
    requires |Frame(data)| <= 2 * |data| + 2 && temp == Written(Zeros(2 * |data| + 2), Frame(data))
    ensures |Frame(data)| % INDEX_RANGE <= |temp| && temp[..|Frame(data)| % INDEX_RANGE] == Prepared(data)
  {}

  /** The encoder emits the frame exactly when its length is representable in the 16-bit index. */
  lemma {:induction false} PreparedIsFrame(data: seq<byte>)
    ensures Prepared(data) == Frame(data) <==> |Frame(data)| < INDEX_RANGE
  {
    FrameFits(data);
    if |Frame(data)| < INDEX_RANGE {
      WrittenInPlace(Zeros(2 * |data| + 2), Frame(data));
    }
  }

  /** Of the places in a frame of `n` bytes that share the index `i`, the last. */
  function LastPlace(i: nat, n: nat): nat
    requires i < n
  {
    i + INDEX_RANGE * ((n - 1 - i) / INDEX_RANGE)
  }

  lemma {:induction false} LastPlaceNext(i: nat, n: nat)
    requires i < INDEX_RANGE && i < n
    ensures (n - 1) % INDEX_RANGE == i ==> LastPlace(i, n) == n - 1
    ensures (n - 1) % INDEX_RANGE != i ==> i < n - 1 && LastPlace(i, n) == LastPlace(i, n - 1)
    ensures LastPlace(i, n) < n
  {
    var q, r := (n - 1) / INDEX_RANGE, (n - 1) % INDEX_RANGE;
    assert n - 1 == INDEX_RANGE * q + r;
  }

  lemma {:induction false} WrittenAt(temp: seq<byte>, bytes: seq<byte>, i: nat)
    requires |bytes| <= |temp| && i < INDEX_RANGE && i < |bytes|
    ensures LastPlace(i, |bytes|) < |bytes|
    ensures Written(temp, bytes)[i] == bytes[LastPlace(i, |bytes|)]
  {
    var n := |bytes|;
    LastPlaceNext(i, n);
    if (n - 1) % INDEX_RANGE != i { WrittenAt(temp, bytes[..n - 1], i); }
  }

  /**
   * What the encoder hands out for every payload: as many bytes as the frame's length leaves on division by 65536, each
   * the last byte of the frame that was written at that index.
   */
  lemma {:induction false} PreparedMeaning(data: seq<byte>)
    ensures var f, p := Frame(data), Prepared(data);
            && |p| == |f| % 65536
            && forall i :: 0 <= i < |p| ==> LastPlace(i, |f|) < |f| && p[i] == f[LastPlace(i, |f|)]
  {
    FrameFits(data);
    forall i | 0 <= i < |Prepared(data)|
      ensures LastPlace(i, |Frame(data)|) < |Frame(data)|
      ensures Prepared(data)[i] == Frame(data)[LastPlace(i, |Frame(data)|)]
    {
      WrittenAt(Zeros(2 * |data| + 2), Frame(data), i);
    }
  }

  lemma {:induction false} ZerosAreData(n: nat)
    ensures FlagBytes(Zeros(n)) == 0
  {
    if n > 0 {
      assert Zeros(n)[..n - 1] == Zeros(n - 1);
      ZerosAreData(n - 1);
    }
  }

  /** For example: the frame of 65534 zero bytes wraps the index round to 0, and nothing at all is handed out. */
  lemma {:induction false} LongMessageVanishes()
    ensures |Frame(Zeros(INDEX_RANGE - 2))| == INDEX_RANGE && Prepared(Zeros(INDEX_RANGE - 2)) == []
  {
    FrameLength(Zeros(INDEX_RANGE - 2));
    ZerosAreData(INDEX_RANGE - 2);
  }
}
