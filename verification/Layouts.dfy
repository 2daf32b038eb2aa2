/** A header layout that meets the laws the conversation asks of one. */
module Layouts {
  import opened Types
  import opened Conversation

  const HEADER_SIZE := 8
  const CHALLENGE_SIZE := 36

  /** A 16-bit field, low byte first. */
  function Low(n: nat): seq<byte> {
    [n % 0x100, n / 0x100 % 0x100]
  }

  /** The 16-bit field of `b` at `i`. */
  function Field(b: seq<byte>, i: nat): nat {
    if i + 2 <= |b| then b[i] as int + 0x100 * (b[i + 1] as int) else 0
  }

  /** Two bytes kept as they were, the command, and the count in 32 bits. */
  function WriteHeader(h: seq<byte>, command: nat, count: nat): seq<byte> {
    (if |h| >= 2 then h[..2] else [0, 0]) + Low(command) + Low(count) + Low(count / 0x1_0000)
  }

  function CommandIn(b: seq<byte>): nat {
    Field(b, 2)
  }

  function CountIn(b: seq<byte>): nat {
    Field(b, 4) + 0x1_0000 * Field(b, 6)
  }

  /** Requests and responses with 8-byte headers: command or status, then the number of words that follow. */
  const PLAIN := Protocol(HEADER_SIZE, HEADER_SIZE, CHALLENGE_SIZE, WriteHeader, CommandIn, CountIn, CommandIn, CountIn,
                          1, 2, 0, 1, 0x201)

  lemma {:induction false} FieldRoundTrip(before: seq<byte>, n: nat, after: seq<byte>)
    requires n < 0x1_0000
    ensures Field(before + Low(n) + after, |before|) == n
  {}

  lemma {:induction false} HeaderRoundTrip(h: seq<byte>, command: nat, count: nat)
    requires |h| == HEADER_SIZE && command < 0x1_0000 && count < 0x1_0000_0000
    ensures var h1 := WriteHeader(h, command, count);
            |h1| == HEADER_SIZE && h1[..2] == h[..2] && CommandIn(h1) == command && CountIn(h1) == count
  {
    var h1 := WriteHeader(h, command, count);
    assert h1 == h[..2] + Low(command) + (Low(count) + Low(count / 0x1_0000));
    FieldRoundTrip(h[..2], command, Low(count) + Low(count / 0x1_0000));
    FieldRoundTrip(h[..2] + Low(command) + Low(count), count / 0x1_0000, []);
    assert h1 == h[..2] + Low(command) + Low(count) + Low(count / 0x1_0000) + [];
    assert Field(h1, 4) == count % 0x1_0000;
  }

  /** The layout keeps every law, so what is proved of all layouts is proved of it. */
  lemma {:induction false} PlainIsValid()
    ensures PLAIN.Valid()
  {
    forall h: seq<byte>, cmd: nat, n: nat | |h| == PLAIN.requestSize && PLAIN.IsSent(cmd) && n <= BUFFER_SIZE
      ensures var h1 := PLAIN.setRequest(h, cmd, n);
              |h1| == PLAIN.requestSize && PLAIN.commandOf(h1) == cmd && PLAIN.countOf(h1) == n
    {
      HeaderRoundTrip(h, cmd, n);
    }
  }
}
