/** A whole conversation: everything that one input of a client leads to, until the client is closed or waited for. */
module Conversations {
  import opened Sockets
  import opened Requests
  import opened RequestLaws
  import opened Responses
  import opened Servers

  predicate Kept(o: Outcome) {
    KeepsAlive(o.fields.version, o.fields.headers)
  }

  lemma {:induction false} RestIsNotLonger(f: Fields, s: string)
    ensures |ParseFrom(f, s).rest| <= |s|
    decreases |s|
  {
    if s != [] {
      var r := Step(f, FirstLine(s));
      if r.error.None? {
        RestIsNotLonger(r.fields, AfterFirstLine(s));
      }
    }
  }

  /** A request that keeps its connection leaves less input than there was: its first line has been accepted. */
  lemma KeptMakesProgress(s: string)
    requires s != [] && Kept(ParseFrom(INITIAL, s))
    ensures Step(INITIAL, FirstLine(s)).error.None?
    ensures |ParseFrom(INITIAL, s).rest| < |s|
  {
    var r := Step(INITIAL, FirstLine(s));
    if r.error.None? {
      RestIsNotLonger(r.fields, AfterFirstLine(s));
    }
  }

  // The requests that an input is taken for, one after the other, as long as the connection is kept.
  function Rounds(s: string): seq<Outcome>
    decreases |s|
  {
    if s == [] then []
    else
      var o := ParseFrom(INITIAL, s);
      if Kept(o) then
        KeptMakesProgress(s);
        [o] + Rounds(o.rest)
      else [o]
  }

  /** Of the requests that one input is taken for, only the last one can have been accepted: after a success nothing is
      left. In particular, of two requests that are sent together, the first one is rejected. */
  lemma {:induction false} OnlyLastIsAccepted(s: string, i: nat)
    requires i + 1 < |Rounds(s)|
    ensures Rounds(s)[i].error.Some? && Kept(Rounds(s)[i])
    decreases |s|
  {
    KeptMakesProgress(s);
    RestStartsAtRejectedLine(INITIAL, s);
    if i > 0 {
      OnlyLastIsAccepted(ParseFrom(INITIAL, s).rest, i - 1);
    }
  }

  /** There are no more replies than lines. */
  lemma {:induction false} NoMoreRoundsThanLines(s: string)
    ensures |Rounds(s)| <= |Lines(s)|
    decreases |s|
  {
    if s != [] && Kept(ParseFrom(INITIAL, s)) {
      KeptMakesProgress(s);
      RestStartsAtRejectedLine(INITIAL, s);
      NoMoreRoundsThanLines(ParseFrom(INITIAL, s).rest);
    }
  }

  // ----- Replies

  datatype Reply = Reply(head: Response, file: string)

  function ReplyText(r: Reply): string {
    ResponseText(r.head) + r.file
  }

  function RepliesText(rs: seq<Reply>): string {
    if rs == [] then [] else ReplyText(rs[0]) + RepliesText(rs[1..])
  }

  ghost predicate IsReply(r: Reply, o: Outcome, disk: Disk, describe: ParseError -> string) {
    Answers(r.head, r.file, o.fields, o.error, disk, describe)
  }

  // The replies to the first rounds.
  ghost predicate AreReplies(rs: seq<Reply>, os: seq<Outcome>, disk: Disk, describe: ParseError -> string) {
    |rs| <= |os| && forall i :: 0 <= i < |rs| ==> IsReply(rs[i], os[i], disk, describe)
  }

  ghost predicate NoFailure(quotas: seq<int>) {
    forall q :: q in quotas ==> q >= 0
  }

  // The sending of a reply.
  method SendReply(conn: Connection, ghost reply: Reply) returns (ok: bool)
    requires conn.Valid() && conn.writeBuf.Contents() == ResponseText(reply.head) && conn.file == reply.file
    modifies conn.socket`quotas, conn.socket`outgoing, conn.writeBuf
    ensures conn.Valid() && conn.writeBuf.buf == old(conn.writeBuf.buf)
    ensures old(conn.socket.outgoing) <= conn.socket.outgoing <= old(conn.socket.outgoing) + ReplyText(reply)
    ensures ok ==>
              conn.socket.outgoing == old(conn.socket.outgoing) + ReplyText(reply) && conn.writeBuf.Contents() == []
    ensures NoFailure(old(conn.socket.quotas)) ==> ok && NoFailure(conn.socket.quotas)
  {
    if NoFailure(conn.socket.quotas) {
      EverythingIsSent(conn.socket.quotas, |ResponseText(reply.head)|, |conn.file|);
    }
    var size := conn.SendAll();
    ok := size.Ok?;
  }

  // One round: reply to what is in the reading buffer.
  method Round(conn: Connection, disk: Disk, describe: ParseError -> string) returns (ok: bool, ghost reply: Reply)
    requires conn.Valid() && conn.writeBuf.Contents() == [] && conn.readBuf.Contents() != []
    modifies conn, conn.socket`quotas, conn.socket`outgoing, conn.readBuf, conn.writeBuf, conn.writeBuf.buf
    ensures conn.Valid() && conn.readBuf.buf == old(conn.readBuf.buf)
    ensures conn.writeBuf.buf == old(conn.writeBuf.buf) || fresh(conn.writeBuf.buf)
    ensures var o := ParseFrom(INITIAL, old(conn.readBuf.Contents()));
            && IsReply(reply, o, disk, describe) && conn.readBuf.Contents() == o.rest && conn.keepAlive == Kept(o)
    ensures old(conn.socket.outgoing) <= conn.socket.outgoing <= old(conn.socket.outgoing) + ReplyText(reply)
    ensures ok ==>
              conn.socket.outgoing == old(conn.socket.outgoing) + ReplyText(reply) && conn.writeBuf.Contents() == []
    ensures NoFailure(old(conn.socket.quotas)) ==> ok && NoFailure(conn.socket.quotas)
  {
    var ready, r := Process(conn, disk, describe);
    reply := Reply(r, conn.file);
    assert [] + ResponseText(r) == ResponseText(r);
    ok := SendReply(conn, reply);
  }

  // The last round keeps the connection, if there is one.
  predicate KeptAtEnd(os: seq<Outcome>) {
    os == [] || Kept(os[|os| - 1])
  }

  // All rounds have been replied to.
  ghost predicate Complete(all: seq<Outcome>, rs: seq<Reply>, before: string, outgoing: string) {
    |rs| == |all| && outgoing == before + RepliesText(rs)
  }

  /** How the replies to all rounds end: the client is still open exactly when all of them have been sent and the last
      one keeps the connection. Otherwise it is closed, and unless a write failed all of them have been sent. */
  ghost predicate Ended(open: bool, all: seq<Outcome>, rs: seq<Reply>, before: string, outgoing: string, failure: bool) {
    && before <= outgoing <= before + RepliesText(rs)
    && (open ==> Complete(all, rs, before, outgoing) && KeptAtEnd(all))
    && (!open ==> failure || (Complete(all, rs, before, outgoing) && !KeptAtEnd(all)))
  }

  // The input that is left decides how it goes on.
  lemma RoundsOf(s: string)
    requires s != []
    ensures var o := ParseFrom(INITIAL, s);
            Rounds(s) == [o] + if Kept(o) then Rounds(o.rest) else []
  {
  }

  lemma RepliesMore(r: Reply, rs: seq<Reply>, o: Outcome, os: seq<Outcome>, disk: Disk, describe: ParseError -> string)
    requires IsReply(r, o, disk, describe) && AreReplies(rs, os, disk, describe)
    ensures AreReplies([r] + rs, [o] + os, disk, describe)
  {
  }

  lemma TextMore(before: string, r: Reply, rs: seq<Reply>)
    ensures before + RepliesText([r] + rs) == before + ReplyText(r) + RepliesText(rs)
  {
    assert ([r] + rs)[1..] == rs;
    assert before + (ReplyText(r) + RepliesText(rs)) == before + ReplyText(r) + RepliesText(rs);
  }

  lemma KeptMore(o: Outcome, os: seq<Outcome>)
    requires Kept(o)
    ensures KeptAtEnd([o] + os) == KeptAtEnd(os)
  {
  }

  lemma Begins(a: string, b: string, c: string)
    requires a + b <= c
    ensures a <= c
  {
    assert a == (a + b)[..|a|];
  }

  lemma EndedMore(open: bool, o: Outcome, os: seq<Outcome>, r: Reply, rs: seq<Reply>, before: string, outgoing: string,
                  failure: bool)
    requires Kept(o) && Ended(open, os, rs, before + ReplyText(r), outgoing, failure)
    ensures Ended(open, [o] + os, [r] + rs, before, outgoing, failure)
  {
    TextMore(before, r, rs);
    Begins(before, ReplyText(r), outgoing);
    KeptMore(o, os);
  }

  // A round after which the client is closed.
  lemma EndedHere(o: Outcome, os: seq<Outcome>, r: Reply, before: string, outgoing: string, failure: bool)
    requires before <= outgoing <= before + ReplyText(r)
    requires failure || (outgoing == before + ReplyText(r) && !Kept(o) && os == [])
    ensures Ended(false, [o] + os, [r], before, outgoing, failure)
  {
    TextMore(before, r, []);
    assert [r] + [] == [r] && before + ReplyText(r) + [] == before + ReplyText(r);
  }

  // All that an input leads to: the replies, what was sent of them, and whether the client is still open.
  ghost predicate Told(input: string, open: bool, rs: seq<Reply>, before: string, outgoing: string, failure: bool,
                       disk: Disk, describe: ParseError -> string)
  {
    AreReplies(rs, Rounds(input), disk, describe) && Ended(open, Rounds(input), rs, before, outgoing, failure)
  }

  lemma NothingToTell(before: string, failure: bool, disk: Disk, describe: ParseError -> string)
    ensures Told([], true, [], before, before, failure, disk, describe)
  {
    assert before + [] == before;
  }

  lemma MoreToTell(input: string, open: bool, r: Reply, rs: seq<Reply>, before: string, outgoing: string, failure: bool,
                   disk: Disk, describe: ParseError -> string)
    requires var o := ParseFrom(INITIAL, input);
             && input != [] && Kept(o) && IsReply(r, o, disk, describe)
             && Told(o.rest, open, rs, before + ReplyText(r), outgoing, failure, disk, describe)
    ensures Told(input, open, [r] + rs, before, outgoing, failure, disk, describe)
  {
    var o := ParseFrom(INITIAL, input);
    RoundsOf(input);
    RepliesMore(r, rs, o, Rounds(o.rest), disk, describe);
    EndedMore(open, o, Rounds(o.rest), r, rs, before, outgoing, failure);
  }

  lemma LastToTell(input: string, r: Reply, before: string, outgoing: string, failure: bool, disk: Disk,
                   describe: ParseError -> string)
    requires var o := ParseFrom(INITIAL, input);
             && input != [] && IsReply(r, o, disk, describe) && before <= outgoing <= before + ReplyText(r)
             && (failure || (outgoing == before + ReplyText(r) && !Kept(o)))
    ensures Told(input, false, [r], before, outgoing, failure, disk, describe)
  {
    var o := ParseFrom(INITIAL, input);
    RoundsOf(input);
    var os := if Kept(o) then Rounds(o.rest) else [];
    RepliesMore(r, [], o, os, disk, describe);
    assert [r] + [] == [r];
    EndedHere(o, os, r, before, outgoing, failure);
  }

  // Process and send as long as the client is kept and there is input left.
  method ReplyToAll(conn: Connection, disk: Disk, describe: ParseError -> string)
    returns (open: bool, ghost replies: seq<Reply>)
    requires conn.Valid() && conn.writeBuf.Contents() == []
    modifies conn, conn.socket`quotas, conn.socket`outgoing, conn.readBuf, conn.writeBuf, conn.writeBuf.buf
    ensures conn.Valid() && (open ==> conn.readBuf.Contents() == [])
    ensures Told(old(conn.readBuf.Contents()), open, replies, old(conn.socket.outgoing), conn.socket.outgoing,
                 !NoFailure(old(conn.socket.quotas)), disk, describe)
    decreases |conn.readBuf.Contents()|
  {
    ghost var input, before, failure := conn.readBuf.Contents(), conn.socket.outgoing, !NoFailure(conn.socket.quotas);
    if conn.readBuf.Empty() {
      conn.file := [];
      NothingToTell(before, failure, disk, describe);
      return true, [];
    }
    ghost var reply;
    var ok;
    ok, reply := Round(conn, disk, describe);
    if ok && conn.keepAlive {
      KeptMakesProgress(input);
      open, replies := ReplyToAll(conn, disk, describe);
      MoreToTell(input, open, reply, replies, before, conn.socket.outgoing, failure, disk, describe);
      replies := [reply] + replies;
    } else {
      LastToTell(input, reply, before, conn.socket.outgoing, failure, disk, describe);
      return false, [reply];
    }
  }

  /** Receive and reply until the client is closed or waited for. This always ends; unless something fails, every
      request that the input is taken for gets its reply, in order, and nothing else is sent. */
  method Converse(conn: Connection, disk: Disk, describe: ParseError -> string)
    returns (open: bool, ghost replies: seq<Reply>)
    requires conn.Valid() && conn.writeBuf.Contents() == [] && NoneEmpty(conn.socket.incoming)
    modifies conn, conn.socket, conn.readBuf, conn.readBuf.buf, conn.writeBuf, conn.writeBuf.buf
    ensures conn.Valid()
    ensures var input := old(conn.readBuf.Contents()) + Flatten(old(conn.socket.incoming));
            if old(conn.socket.ending).Broken? then
              !open && conn.socket.outgoing == old(conn.socket.outgoing) && conn.readBuf.Contents() == input
            else
              && (open ==> conn.readBuf.Contents() == [])
              && Told(input, open, replies, old(conn.socket.outgoing), conn.socket.outgoing,
                      !NoFailure(old(conn.socket.quotas)), disk, describe)
  {
    var received := conn.ReceiveAll();
    if received.Err? {
      return false, [];
    }
    open, replies := ReplyToAll(conn, disk, describe);
  }
}
