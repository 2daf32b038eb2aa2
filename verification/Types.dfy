/** Machine integers, return codes and the SDC-600 protocol flag bytes. */
module Types {

  type byte = b: int | 0 <= b < 0x100
  type word = v: int | 0 <= v < 0x1_0000_0000

  datatype Option<+T> = None | Some(value: T)

  /** The return codes the driver and the manager name; any further code a callback may return is `Other`. */
  datatype ReturnCode =
    | Success
    | RequestFailed
    | InvalidArgument
    | UnsupportedOperation
    | InternalError
    | TransferError
    | TimeoutError
    | IOError
    | Other(code: nat)

  datatype Result<+T> = Ok(value: T) | Err(code: ReturnCode)

  // Protocol flag bytes (ARM IHI 0076).
  const FLAG_IDR: byte := 0xA0
  const FLAG_IDA: byte := 0xA1
  const FLAG_LPH1RA: byte := 0xA6
  const FLAG_LPH1RL: byte := 0xA7
  const FLAG_LPH2RA: byte := 0xA8
  const FLAG_LPH2RL: byte := 0xA9
  const FLAG_LPH2RR: byte := 0xAA
  const FLAG_LERR: byte := 0xAB
  const FLAG_START: byte := 0xAC
  const FLAG_END: byte := 0xAD
  const FLAG_ESC: byte := 0xAE
  const FLAG_NULL: byte := 0xAF

  /** Bytes whose top three bits are 101: the flags themselves and every byte that has to be escaped. */
  predicate IsFlagByte(b: byte) {
    0xA0 <= b < 0xC0
  }

  /** The link-control flags, which only the handshake may put on the wire. */
  predicate IsLinkFlag(b: byte) {
    FLAG_IDR <= b <= FLAG_LERR
  }

  /** All the parts one after another. */
  function Concat<T>(parts: seq<seq<T>>): seq<T> {
    if parts == [] then [] else parts[0] + Concat(parts[1..])
  }

  lemma {:induction false} Associates<T>(a: seq<T>, b: seq<T>, c: seq<T>)
    ensures (a + b) + c == a + (b + c)
  {}

  /** What `f` makes of each element in turn. */
  function Gather<T, U>(run: seq<T>, f: T -> seq<U>): seq<U> {
    if run == [] then [] else Gather(run[..|run| - 1], f) + f(run[|run| - 1])
  }

  lemma {:induction false} GatherConcat<T, U>(r: seq<T>, s: seq<T>, f: T -> seq<U>)
    ensures Gather(r + s, f) == Gather(r, f) + Gather(s, f)
    decreases |s|
  {
    if s == [] {
      assert r + s == r;
    } else {
      assert (r + s)[..|r + s| - 1] == r + s[..|s| - 1];
      GatherConcat(r, s[..|s| - 1], f);
    }
  }

  lemma {:induction false} GatherOne<T, U>(x: T, f: T -> seq<U>)
    ensures Gather([x], f) == f(x)
  {
    assert [x][..0] == [];
    assert Gather([], f) + f(x) == f(x);
  }

  /** `b | 0x80` on a byte. */
  function SetBit7(b: byte): byte {
    if b < 0x80 then b + 0x80 else b
  }
}
