/** The progress values an authentication attempt reports. */
module ProgressReport {
  import opened Types
  import opened Conversation
  import opened ConversationTrace

  const MILESTONES: seq<nat> := [0, 20, 30, 40, 50, 60, 90, 100]

  /**
   * From `c` to `c1` the milestones from number `from` up to number `to` were reported, if the debugger shows
   * progress.
   */
  predicate Reports(c: Conn, c1: Conn, from: nat, to: nat) {
    && from <= to <= |MILESTONES|
    && c1.showsProgress == c.showsProgress
    && c1.w.log.progress == c.w.log.progress + (if c.showsProgress then MILESTONES[from..to] else [])
  }

  lemma {:induction false} ReportsThen(c: Conn, c1: Conn, c2: Conn, i: nat, j: nat, k: nat)
    requires Reports(c, c1, i, j) && Reports(c1, c2, j, k)
    ensures Reports(c, c2, i, k)
  {
    assert MILESTONES[i..j] + MILESTONES[j..k] == MILESTONES[i..k];
  }

  lemma {:induction false} TellReports(c: Conn, i: nat)
    requires i < |MILESTONES|
    ensures Reports(c, Tell(c, MILESTONES[i]), i, i + 1)
  {
    assert MILESTONES[i..i + 1] == [MILESTONES[i]];
    assert c.w.log.progress + [] == c.w.log.progress;
  }

  lemma {:induction false} SilentReports(c: Conn, c1: Conn, i: nat)
    requires c1.w.log.progress == c.w.log.progress && c1.showsProgress == c.showsProgress && i <= |MILESTONES|
    ensures Reports(c, c1, i, i)
  {
    assert MILESTONES[i..i] == [];
    assert c.w.log.progress + [] == c.w.log.progress;
  }

  lemma {:induction false} AskItemSilent(p: Protocol, c: Conn, content: seq<byte>)
    requires p.Valid() && |c.buf| == BUFFER_SIZE && c.inited && p.Fits(content)
    ensures AskItem(p, c, content).conn.w.log.progress == c.w.log.progress
  {
    var b := Built(p, c.buf, content);
    var packet := PacketIn(p, b);
    BuiltRequests(p, c.buf, content);
    SendShows(c.(buf := b), packet);
    ReceiveShows(p, SendPacket(c.(buf := b), packet).1, Response(content), packet);
  }

  lemma {:induction false} AskAllSilent(p: Protocol, c: Conn, contents: seq<seq<byte>>)
    requires p.Valid() && |c.buf| == BUFFER_SIZE && c.inited && forall x :: x in contents ==> p.Fits(x)
    ensures AskAll(p, c, contents).conn.w.log.progress == c.w.log.progress
    decreases |contents|
  {
    if contents != [] {
      AskItemSilent(p, c, contents[0]);
      var t := AskItem(p, c, contents[0]);
      if t.code == Success { AskAllSilent(p, t.conn, contents[1..]); }
    }
  }

  /** The first exchange reports milestone 30 between sending and receiving. */
  lemma {:induction false} StartReports(p: Protocol, c: Conn, packet: seq<byte>) returns (n: nat)
    requires p.Valid() && |c.buf| == BUFFER_SIZE && c.inited && |packet| <= BUFFER_SIZE
    ensures var t := Ask(p, c, packet, Start);
            && n == (if SendPacket(c, packet).0 == Success then 3 else 2) && Reports(c, t.conn, 2, n)
            && (t.code == Success ==> n == 3)
  {
    var (sent, c1) := SendPacket(c, packet);
    SendShows(c, packet);
    SilentReports(c, c1, 2);
    n := 2;
    if sent == Success {
      ReceiveReports(p, c1, packet);
      ReportsThen(c, c1, ReceivePacket(p, Tell(c1, 30)).1, 2, 2, 3);
      n := 3;
    }
  }

  lemma {:induction false} ReceiveReports(p: Protocol, c: Conn, packet: seq<byte>)
    requires p.Valid() && |c.buf| == BUFFER_SIZE && c.inited
    ensures Reports(c, ReceivePacket(p, Tell(c, 30)).1, 2, 3)
  {
    var c2 := Tell(c, 30);
    TellReports(c, 2);
    ReceiveShows(p, c2, Start, packet);
    SilentReports(c2, ReceivePacket(p, c2).1, 3);
    ReportsThen(c, c2, ReceivePacket(p, c2).1, 2, 3, 3);
  }

  /** A milestone told, then silence. */
  lemma {:induction false} ToldThenSilent(c: Conn, c1: Conn, i: nat)
    requires i < |MILESTONES|
    requires c1.w.log.progress == Tell(c, MILESTONES[i]).w.log.progress && c1.showsProgress == c.showsProgress
    ensures Reports(c, c1, i, i + 1)
  {
    TellReports(c, i);
  }

  lemma {:induction false} AskItemOnce(p: Protocol, c: Conn, content: seq<byte>)
    requires p.Valid() && |c.buf| == BUFFER_SIZE && p.Fits(content)
    ensures |AskItem(p, c, content).xs| == 1
  {}

  lemma {:induction false} AskAllCount(p: Protocol, c: Conn, contents: seq<seq<byte>>)
    requires p.Valid() && |c.buf| == BUFFER_SIZE && forall x :: x in contents ==> p.Fits(x)
    ensures var t := AskAll(p, c, contents);
            |t.xs| <= |contents| && (t.code == Success ==> |t.xs| == |contents|)
    decreases |contents|
  {
    if contents != [] {
      AskItemOnce(p, c, contents[0]);
      var t := AskItem(p, c, contents[0]);
      if t.code == Success { AskAllCount(p, t.conn, contents[1..]); }
    }
  }

  lemma {:induction false} CertificatesReport(p: Protocol, c: Conn, contents: seq<seq<byte>>)
    requires p.Valid() && |c.buf| == BUFFER_SIZE && c.inited && forall x :: x in contents ==> p.Fits(x)
    ensures Reports(c, AskAll(p, Tell(c, 60), contents).conn, 5, 6)
  {
    AskAllSilent(p, Tell(c, 60), contents);
    ToldThenSilent(c, AskAll(p, Tell(c, 60), contents).conn, 5);
  }

  lemma {:induction false} TokenReports(p: Protocol, c: Conn, c1: Conn, token: seq<byte>)
    requires p.Valid() && |c1.buf| == BUFFER_SIZE && c1.inited && p.Fits(token) && c1 == Tell(c, MILESTONES[6])
    ensures Reports(c, AskItem(p, c1, token).conn, 6, 7)
  {
    var c2 := AskItem(p, c1, token).conn;
    assert c2.showsProgress == c1.showsProgress;
    AskItemSilent(p, c1, token);
    ToldThenSilent(c, c2, 6);
  }

  lemma {:induction false} DoneReports(c: Conn, c1: Conn)
    requires Reports(c, c1, 6, 7)
    ensures Reports(c, Tell(c1, 100), 6, 8)
  {
    TellReports(c1, 7);
    ReportsThen(c, c1, Tell(c1, 100), 6, 7, 8);
  }

  lemma {:induction false} AnswersReport(p: Protocol, c: Conn, contents: seq<seq<byte>>, token: seq<byte>)
    returns (n: nat)
    requires p.Valid() && |c.buf| == BUFFER_SIZE && c.inited && p.Fits(token) && forall x :: x in contents ==> p.Fits(x)
    ensures var t := AnswerAll(p, c, contents, token);
            && n == (if t.code == Success then 8 else if |t.xs| <= |contents| then 6 else 7)
            && Reports(c, t.conn, 5, n)
  {
    CertificatesReport(p, c, contents);
    AskAllCount(p, Tell(c, 60), contents);
    var certs := AskAll(p, Tell(c, 60), contents);
    n := 6;
    if certs.code == Success {
      TokenReports(p, certs.conn, Tell(certs.conn, 90), token);
      AskItemOnce(p, Tell(certs.conn, 90), token);
      var last := AskItem(p, Tell(certs.conn, 90), token);
      DoneReports(certs.conn, last.conn);
      ReportsThen(c, certs.conn, last.conn, 5, 6, 7);
      ReportsThen(c, certs.conn, Tell(last.conn, 100), 5, 6, 8);
      n := if last.code == Success then 8 else 7;
    }
  }

  /** How many milestones are reported after the challenge, given what the last part of the attempt came to. */
  function MilestonesAfter(p: Protocol, o: Oracle, challenge: seq<byte>, t: Talk): nat {
    if o.sign(challenge).None? then 4
    else if o.chain.None? then 5
    else if t.code == Success then 8
    else if |t.xs| <= |Certificates(p, o.chain.value)| then 6
    else 7
  }

  lemma {:induction false} RespondReports(p: Protocol, c: Conn, o: Oracle) returns (n: nat)
    requires p.Valid() && o.Valid(p) && |c.buf| == BUFFER_SIZE && c.inited
    ensures var t := Respond(p, c, o);
            n == MilestonesAfter(p, o, ChallengeIn(p, c.buf), t) && Reports(c, t.conn, 3, n)
  {
    var c1 := Tell(c, 40);
    var c2 := Tell(c1, 50);
    TellReports(c, 3);
    TellReports(c1, 4);
    ReportsThen(c, c1, c2, 3, 4, 5);
    TellIsQuiet(c, 40);
    TellIsQuiet(c1, 50);
    if o.chain.Some? { CertificatesFit(p, o.chain.value); }
    var token := o.sign(ChallengeIn(p, c.buf));
    if token.None? {
      n := 4;
    } else if o.chain.None? {
      n := 5;
    } else {
      var certs := Certificates(p, o.chain.value);
      n := AnswersReport(p, c2, certs, token.value);
      ReportsThen(c, c2, AnswerAll(p, c2, certs, token.value).conn, 3, 5, n);
    }
  }

  /** How many milestones an attempt reports: what it reached, told by its start, its challenge and its exchanges. */
  ghost function Milestones(p: Protocol, c: Conn, o: Oracle): nat
    requires p.Valid() && o.Valid(p) && |c.buf| == BUFFER_SIZE
  {
    var c2 := Tell(Tell(c, 0), 20);
    var first := Ask(p, c2, StartPacket(p, o.stack), Start);
    if !o.loaded then 1
    else if SendPacket(c2, StartPacket(p, o.stack)).0 != Success then 2
    else if first.code != Success then 3
    else MilestonesAfter(p, o, ChallengeHeard(p, c, o), Respond(p, first.conn, o))
  }

  /**
   * The values reported are the first so many of 0, 20, 30, 40, 50, 60, 90, 100: one without credentials, two when the
   * start cannot be sent, three when it is not answered well, four and five when signing and parsing fail, six and
   * seven when a certificate and the token are not accepted, and all of them, and so the final 100, exactly on success.
   */
  lemma {:induction false} AuthenticationReports(p: Protocol, c: Conn, o: Oracle)
    requires p.Valid() && o.Valid(p) && |c.buf| == BUFFER_SIZE && c.inited
    ensures var t := Authenticate(p, c, o);
            Reports(c, t.conn, 0, Milestones(p, c, o)) && (t.code == Success <==> Milestones(p, c, o) == 8)
  {
    var c1 := Tell(c, 0);
    TellReports(c, 0);
    if o.loaded {
      var c2 := Tell(c1, 20);
      TellReports(c1, 1);
      ReportsThen(c, c1, c2, 0, 1, 2);
      AttemptReports(p, c, c2, o);
    }
  }

  lemma {:induction false} AttemptReports(p: Protocol, c: Conn, c2: Conn, o: Oracle)
    requires p.Valid() && o.Valid(p) && |c.buf| == BUFFER_SIZE && c.inited && o.loaded
    requires c2 == Tell(Tell(c, 0), 20) && Reports(c, c2, 0, 2)
    ensures var t := Attempt(p, c2, o);
            Reports(c, t.conn, 0, Milestones(p, c, o)) && (t.code == Success <==> Milestones(p, c, o) == 8)
  {
    var packet := StartPacket(p, o.stack);
    var first := Ask(p, c2, packet, Start);
    StartRequests(p, o.stack);
    AskShows(p, c2, packet, Start);
    var n := StartReports(p, c2, packet);
    ReportsThen(c, c2, first.conn, 0, 2, n);
    if first.code == Success {
      n := RespondReports(p, first.conn, o);
      ReportsThen(c, first.conn, Respond(p, first.conn, o).conn, 0, 3, n);
    }
  }
}
