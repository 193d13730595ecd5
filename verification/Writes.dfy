/**
 Whole writes: an initiator that keeps to the rules gets its data through, octet
 for octet, whatever orderly PDUs of other commands share the connection, exactly
 when the target asks for all of it.
 */
module Writes {
  import opened BurstRules
  import opened Bytes
  import opened DataOut
  import opened Names
  import opened Numbers
  import opened Reception
  import opened TransferTrace

  lemma {:induction false} PdusConcat(a: seq<Event>, b: seq<Event>)
    ensures Pdus(a + b) == Pdus(a) + Pdus(b)
  {
    if b == [] {
      assert a + b == a && Pdus(a) + [] == Pdus(a);
    } else {
      PdusConcat(a, b[..|b| - 1]);
      assert (a + b)[..|a + b| - 1] == a + b[..|b| - 1];
    }
  }

  /** What the history since the command received is what it had received before and the own octets of the new PDUs. */
  lemma ReceivedSince(tag: nat, tr0: seq<Event>, tr: seq<Event>, start: nat, news: seq<Pdu>)
    requires start <= |tr0| && tr0 <= tr && Pdus(tr) == Pdus(tr0) + news
    ensures Received(tag, tr[start..]) == Received(tag, tr0[start..]) + OwnOctets(tag, news)
  {
    hide Received, Pdus, OwnOctets;
    var more := tr[|tr0|..];
    assert tr == tr0 + more && tr[start..] == tr0[start..] + more;
    PdusConcat(tr0, more);
    PdusConcat(tr0[start..], more);
    assert Pdus(more) == news by {
      assert (Pdus(tr0) + Pdus(more))[|Pdus(tr0)|..] == (Pdus(tr0) + news)[|Pdus(tr0)|..];
    }
    ReceivedIs(tag, tr[start..]);
    ReceivedIs(tag, tr0[start..]);
    OwnConcat(tag, Pdus(tr0[start..]), news);
  }

  /** The buffer of a write that is complete, when the PDUs of the command carried what was missing. */
  lemma Delivered(c: Context, tr0: seq<Event>, tr: seq<Event>, start: nat, buf: seq<byte>,
                  payload: seq<byte>, offset: nat, news: seq<Pdu>, left: seq<Pdu>, talk: seq<Pdu>, rest: seq<Pdu>)
    requires start <= |tr0| && tr0 <= tr && Pdus(tr) == Pdus(tr0) + news && talk + rest == news + left
    requires offset <= |payload| && c.immediate + Received(c.tag, tr0[start..]) == payload[..offset]
    requires OwnOctets(c.tag, talk) == payload[offset..]
    requires Assembled(c, tr[start..], buf, |payload|) && Offset(c, tr[start..]) == |payload|
    ensures buf[..|payload|] == payload
  {
    hide Received, Pdus, OwnOctets, Disciplined;
    ReceivedSince(c.tag, tr0, tr, start, news);
    var got, more := Received(c.tag, tr0[start..]), OwnOctets(c.tag, news);
    SameLength(c.immediate, got, more, payload, offset);
    TakenOctets(c.tag, talk, rest, news, left, payload[offset..]);
    Joined(c.immediate, got, more, payload, offset, buf);
  }

  lemma SameLength<T>(a: seq<T>, b: seq<T>, d: seq<T>, whole: seq<T>, n: nat)
    requires n <= |whole| && a + b == whole[..n] && |a| + |b + d| == |whole|
    ensures |d| == |whole[n..]|
  {
    assert |a + b| == n;
  }

  lemma Joined<T>(a: seq<T>, b: seq<T>, d: seq<T>, whole: seq<T>, n: nat, buf: seq<T>)
    requires n <= |whole| <= |buf| && a + b == whole[..n] && d == whole[n..]
    requires buf[..|whole|] == (a + (b + d))[..|whole|]
    ensures buf[..|whole|] == whole
  {
    assert a + (b + d) == (a + b) + d;
    assert whole == whole[..n] + whole[n..];
  }

  lemma TalkCarries(tag: nat, talk: seq<Pdu>, conversation: seq<Pdu>, octets: seq<byte>)
    requires OwnPdus(tag, talk) == conversation && Carries(conversation, octets)
    ensures OwnOctets(tag, talk) == octets
  {
  }

  /** No octets arrive when nothing on the socket is of the command. */
  lemma NothingDelivered(c: Context, tr0: seq<Event>, tr: seq<Event>, start: nat, news: seq<Pdu>, left: seq<Pdu>)
    requires start == |tr0| && tr0 <= tr && Pdus(tr) == Pdus(tr0) + news && OwnPdus(c.tag, news + left) == []
    requires Ordered(c, tr[start..]) && !c.initialR2t && |c.immediate| < c.firstBurst
    ensures R2ts(c.tag, tr[start..]) == 0
  {
    ReceivedSince(c.tag, tr0, tr, start, news);
    OwnOfParts(c.tag, news, left);
    assert tr0[start..] == [];
    Nothing(c);
    NoneAsked(c, tr[start..]);
  }

  // ---------------------------------------------------------------- whatever the initiator sends

  /**
   A write without a table entry. Data that came with the command in full is taken
   as it is, exactly when F is set and it fits FirstBurstLength and the buffer, and
   the socket is left alone; otherwise the PDUs on the socket decide.
   */
  method WriteFresh(conn: Connection, cmd: Command, data: array<byte>, transferLen: nat, ghost k: Terms)
    returns (rc: int)
    requires conn.Valid() && (data as object) != conn.r2tTasks
    requires forall u | u in conn.tasks :: u.iobuf != data && u.transferTag != cmd.taskTag
    requires k == conn.TermsOf(cmd.taskTag, transferLen, data.Length)
    modifies conn`pending, conn`tasks, conn.r2tTasks
    modifies conn`trace, conn`rejected, conn`input, conn`pendingPdus
    modifies data, conn.tasks, set u | u in conn.tasks :: u.iobuf
    ensures rc == 0 <==>
      && transferLen <= data.Length
      && (cmd.immediate == [] || |cmd.immediate| <= Min(conn.firstBurst, data.Length))
      && if |cmd.immediate| >= transferLen then cmd.f
         else if conn.initialR2t || |cmd.immediate| >= conn.firstBurst
         then old(Completes(k, |cmd.immediate|, 0, conn.Cursors(), |conn.pendingPdus|, conn.input))
         else old(CompletesUnasked(k, |cmd.immediate|, conn.Cursors(), |conn.pendingPdus|, conn.input))
    ensures rc == 0 ==> conn.Valid() && data.Length >= transferLen
    ensures |cmd.immediate| >= transferLen ==> conn.trace == old(conn.trace) && conn.input == old(conn.input)
    ensures rc == 0 && |cmd.immediate| >= transferLen ==> data[..transferLen] == cmd.immediate[..transferLen]
  {
    hide Connection.Consistent, Received, Pdus, Succeeds, Disciplined, Completes, CompletesUnasked, BurstOpen;
    hide R2tsRight, Ordered;
    ghost var tr0, stream := conn.trace, conn.input;
    assert k.maxBurst > 0;
    if |cmd.immediate| < transferLen <= data.Length {
      FreshIff(k, |cmd.immediate|, conn.Cursors(), |conn.pendingPdus|, conn.input);
    }
    ghost var news, c, start, commandF;
    rc, news, c, start, commandF := conn.TransferOut(cmd, data, transferLen);
    assert tr0[start..] == [];
    Nothing(c);
    if |cmd.immediate| >= transferLen {
      NothingNew(Pdus(tr0), news, stream, conn.input);
      if rc == 0 {
        assert (c.immediate + [])[..transferLen] == cmd.immediate[..transferLen];
        assert data[..][..transferLen] == data[..transferLen];
      }
    }
  }

  lemma NothingNew<T>(a: seq<T>, news: seq<T>, stream: seq<T>, left: seq<T>)
    requires a == a + news && stream == news + left
    ensures stream == left
  {
    assert |news| == 0;
  }

  /**
   A write with a table entry. An entry that holds all of the data is copied and the
   socket is left alone; otherwise the PDUs on the socket decide, from where the
   entry stands.
   */
  method WriteResumed(conn: Connection, cmd: Command, ghost u: R2tTask, data: array<byte>, transferLen: nat,
                      ghost k: Terms)
    returns (rc: int)
    requires conn.Valid() && (data as object) != conn.r2tTasks && forall t | t in conn.tasks :: t.iobuf != data
    requires u in conn.tasks && u.transferTag == cmd.taskTag && u.offset <= data.Length
    requires k == conn.TermsOf(cmd.taskTag, transferLen, data.Length)
    modifies conn`pending, conn`tasks, conn.r2tTasks
    modifies conn`trace, conn`rejected, conn`input, conn`pendingPdus
    modifies data, conn.tasks, set t | t in conn.tasks :: t.iobuf
    ensures rc == 0 <==>
      && transferLen <= data.Length
      && if old(u.offset) >= transferLen then old(u.offset) == transferLen ==> old(u.fBit)
         else old(Completes(k, u.offset, if u.offset < k.firstBurst + k.maxBurst then u.dataSN else 0,
                            conn.OtherCursors(cmd.taskTag), |conn.pendingPdus|, conn.input))
    ensures rc == 0 ==> conn.Valid() && data.Length >= transferLen
    ensures old(u.offset) >= transferLen ==> conn.trace == old(conn.trace) && conn.input == old(conn.input)
    ensures rc == 0 && old(u.offset) >= transferLen ==> data[..transferLen] == old(u.iobuf[..])[..transferLen]
  {
    hide Received, Pdus, Succeeds, Disciplined, Completes, BurstOpen, R2tsRight, Ordered, SinceR2t, R2ts, Owed, LastF;
    ghost var tr0, stream, held, all := conn.trace, conn.input, u.iobuf[..u.offset], u.iobuf[..];
    assert conn.Consistent(u, tr0);
    hide Connection.Consistent;
    if u.offset < transferLen <= data.Length {
      ResumedIff(k, u.offset, u.dataSN, conn.OtherCursors(cmd.taskTag), |conn.pendingPdus|, conn.input);
    }
    ghost var news, c, start, commandF;
    rc, news, c, start, commandF := conn.TransferOut(cmd, data, transferLen);
    assert held == c.immediate + Received(c.tag, tr0[start..]);
    if |held| >= transferLen {
      NothingNew(Pdus(tr0), news, stream, conn.input);
      if rc == 0 {
        assert data[..][..transferLen] == data[..transferLen];
        assert held[..transferLen] == all[..transferLen];
      }
    }
  }

  // ---------------------------------------------------------------- an initiator that keeps to the rules

  /**
   A write without a table entry: it ends well exactly when the target asks for all
   of the data; otherwise no R2T ever goes out for it.
   */
  method WriteByRules(conn: Connection, cmd: Command, data: array<byte>, transferLen: nat,
                      ghost payload: seq<byte>, ghost end: nat, ghost cut: nat -> nat,
                      ghost talk: seq<Pdu>, ghost rest: seq<Pdu>, ghost k: Terms)
    returns (rc: int)
    requires conn.Valid() && (data as object) != conn.r2tTasks && cmd.taskTag != RESERVED_TAG
    requires forall u | u in conn.tasks :: u.iobuf != data && u.transferTag != cmd.taskTag
    requires |payload| == transferLen <= data.Length && k == conn.TermsOf(cmd.taskTag, transferLen, data.Length)
    requires |cmd.immediate| < transferLen && |cmd.immediate| <= conn.firstBurst
    requires cmd.immediate == payload[..|cmd.immediate|]
    requires k.maxBurst > 0
    requires AskedForAll(k, |cmd.immediate|) || |cmd.immediate| <= end <= Min(k.firstBurst, |payload|)
    requires conn.input == talk + rest
    requires CommandPdus(k.tag, talk) == Conversation(k, payload, |cmd.immediate|, end, cut)
    requires AskedForAll(k, |cmd.immediate|) || CommandPdus(k.tag, rest) == []
    requires OthersInOrder(k, conn.Cursors(), |conn.pendingPdus|, talk)
    modifies conn`pending, conn`tasks, conn.r2tTasks
    modifies conn`trace, conn`rejected, conn`input, conn`pendingPdus
    modifies data, conn.tasks, set u | u in conn.tasks :: u.iobuf
    ensures rc == 0 <==> AskedForAll(k, |cmd.immediate|)
    ensures rc == 0 ==> conn.Valid() && data[..transferLen] == payload
    ensures old(conn.trace) <= conn.trace
    ensures rc != 0 ==> R2ts(cmd.taskTag, conn.trace[|old(conn.trace)|..]) == 0
  {
    hide Connection.Consistent, Received, Pdus, OwnPdus, OwnOctets, Conversation, OthersInOrder, Succeeds, Disciplined;
    hide Ordered, Carries, Octets, Bursts, CommandPdus, R2ts, BurstOpen;
    ghost var tr0, immediate, stream := conn.trace, |cmd.immediate|, conn.input;
    FreshSucceedsIff(k, payload, immediate, end, cut, conn.Cursors(), |conn.pendingPdus|, talk, rest);
    OwnOfConversation(k, payload, immediate, end, cut, talk);
    assert conn.FreshWell(cmd, conn.Cursors(), transferLen, data.Length, conn.input) <==> AskedForAll(k, immediate);
    ghost var news, c, start, commandF;
    rc, news, c, start, commandF := conn.TransferOut(cmd, data, transferLen);
    assert tr0[start..] == [];
    Nothing(c);
    if rc == 0 {
      ConversationOctets(k, payload, immediate, 0, cut);
      TalkCarries(k.tag, talk, Bursts(k, payload, immediate, cut), payload[immediate..]);
      Delivered(c, tr0, conn.trace, start, data[..], payload, immediate, news, conn.input, talk, rest);
      assert data[..][..transferLen] == data[..transferLen];
    } else {
      OwnOfCommand(k.tag, rest);
      OwnNothing(k.tag, rest);
      OwnOfParts(k.tag, talk, rest);
      NothingDelivered(c, tr0, conn.trace, start, news, conn.input);
    }
  }

  lemma OwnNothing(tag: nat, ps: seq<Pdu>)
    requires CommandPdus(tag, ps) == []
    ensures OwnPdus(tag, ps) == []
  {
    OwnOfCommand(tag, ps);
  }

  lemma Nothing(c: Context)
    ensures Received(c.tag, []) == [] && c.immediate + [] == c.immediate && Offset(c, []) == |c.immediate|
    ensures !BurstOpen(c.tag, [])
  {
  }

  /**
   A write that resumes from its table entry, after any part of the burst that
   the first R2T asked for went to the Data-Out handler.
   */
  method ResumedByRules(conn: Connection, cmd: Command, ghost u: R2tTask, data: array<byte>, transferLen: nat,
                        ghost payload: seq<byte>, ghost cut: nat -> nat,
                        ghost talk: seq<Pdu>, ghost rest: seq<Pdu>, ghost k: Terms)
    returns (rc: int)
    requires conn.Valid() && (data as object) != conn.r2tTasks && forall t | t in conn.tasks :: t.iobuf != data
    requires u in conn.tasks && u.transferTag == cmd.taskTag
    requires |payload| == u.transferLen == transferLen <= data.Length
    requires k == conn.TermsOf(cmd.taskTag, transferLen, data.Length)
    requires |u.command.immediate| == conn.firstBurst <= u.offset <= conn.firstBurst + conn.maxBurst
    requires u.offset <= transferLen && (u.offset == transferLen ==> u.fBit)
    requires u.offset <= u.iobuf.Length && u.iobuf[..u.offset] == payload[..u.offset]
    requires conn.input == talk + rest && OwnPdus(k.tag, talk) == Remaining(k, payload, u.offset, u.dataSN, cut)
    requires OthersInOrder(k, conn.OtherCursors(cmd.taskTag), |conn.pendingPdus|, talk)
    modifies conn`pending, conn`tasks, conn.r2tTasks
    modifies conn`trace, conn`rejected, conn`input, conn`pendingPdus
    modifies data, conn.tasks, set t | t in conn.tasks :: t.iobuf
    ensures rc == 0 && conn.Valid() && data[..transferLen] == payload
  {
    hide Received, Pdus, OwnPdus, OwnOctets, Remaining, OthersInOrder, Succeeds, Disciplined, Ordered, Carries, Octets;
    ghost var tr0, offset, sn := conn.trace, u.offset, u.dataSN;
    if offset < transferLen {
      ResumedSucceeds(k, payload, offset, sn, cut, conn.OtherCursors(cmd.taskTag), |conn.pendingPdus|, talk, rest);
    }
    ghost var before := Received(u.taskTag, tr0[u.start..]);
    assert u.iobuf[..offset] == u.command.immediate + before;
    ConversationOctets(k, payload, offset, sn, cut);
    TalkCarries(k.tag, talk, Remaining(k, payload, offset, sn, cut), payload[offset..]);
    hide Connection.Consistent;
    assert conn.ResumedWell(Connection.CursorOf(u), u.fBit, conn.OtherCursors(cmd.taskTag),
                            transferLen, data.Length, conn.input);
    ghost var news, c, start, commandF;
    rc, news, c, start, commandF := conn.TransferOut(cmd, data, transferLen);
    assert c.immediate + Received(c.tag, tr0[start..]) == payload[..offset];
    assert Offset(c, tr0[start..]) == |payload[..offset]|;
    Delivered(c, tr0, conn.trace, start, data[..], payload, offset, news, conn.input, talk, rest);
    assert data[..][..transferLen] == data[..transferLen];
  }

  /** The octets of a command with a table entry that have come in so far. */
  ghost function Arrived(conn: Connection, u: R2tTask): seq<byte>
    requires u.start <= |conn.trace|
    reads conn
  {
    u.command.immediate + Received(u.taskTag, conn.trace[u.start..])
  }

  lemma CursorsMore(ts: seq<R2tTask>, u: R2tTask)
    ensures Connection.CursorsOf(ts + [u]) == Connection.CursorsOf(ts) + [Connection.CursorOf(u)]
  {
  }

  /** What one more Data-Out does to what has arrived. */
  lemma ArrivedMore(c: Context, tr: seq<Event>, start: nat, p: Pdu)
    requires start <= |tr| && p.DataOut?
    ensures Received(c.tag, (tr + [Got(p)])[start..])
         == if Mine(c.tag, p) then Received(c.tag, tr[start..]) + p.data else Received(c.tag, tr[start..])
  {
    hide Received, R2ts, SinceR2t, Owed, Closed, LastF, Disciplined, R2tsRight, Ordered;
    Extend(tr, Got(p), start);
    if Mine(c.tag, p) {
      Accepted(c, false, tr[start..], Got(p));
    } else {
      Unrelated(c, false, tr[start..], Got(p));
    }
  }

  /** A write that waits at a place of its first burst, and the PDUs that are still to come. */
  predicate Stands(k: Terms, payload: seq<byte>, cut: nat -> nat, cs: seq<Cursor>, at: Cursor,
                   waiting: nat, coming: seq<Pdu>) {
    && at.tag == k.tag && at.room >= |payload| && k.maxBurst > 0
    && k.firstBurst <= at.offset <= Min(k.firstBurst + k.maxBurst, |payload|)
    && OwnPdus(k.tag, coming) == Remaining(k, payload, at.offset, at.dataSN, cut)
    && OthersInOrder(k, cs, waiting, coming)
  }

  /** The place after one more PDU. */
  function Moved(k: Terms, at: Cursor, p: Pdu): Cursor
    requires p.DataOut?
  {
    if Mine(k.tag, p) then at.(dataSN := (p.dataSN + 1) % SERIAL, offset := at.offset + |p.data|) else at
  }

  lemma StandsNext(k: Terms, payload: seq<byte>, cut: nat -> nat, cs: seq<Cursor>, at: Cursor, waiting: nat,
                   p: Pdu, later: seq<Pdu>, cs': seq<Cursor>)
    requires Stands(k, payload, cut, cs, at, waiting, [p] + later)
    requires forall i | 0 <= i < |cs| :: cs[i].tag != k.tag
    requires p.DataOut? && (p.transferTag == k.tag ==> p.taskTag == k.tag)
    requires Mine(k.tag, p) ==> at.offset + |p.data| <= k.firstBurst + k.maxBurst
    requires cs' == if !Mine(k.tag, p) && Elsewhere(cs, p).Some? then Elsewhere(cs, p).value else cs
    ensures Elsewhere(cs + [at], p) == Some(cs' + [Moved(k, at, p)])
    ensures Stands(k, payload, cut, cs', Moved(k, at, p), waiting, later)
    ensures Mine(k.tag, p) ==> at.offset + |p.data| <= |payload| && p.data == payload[at.offset..at.offset + |p.data|]
                               && (at.offset + |p.data| == |payload| ==> p.f)
  {
    hide OwnPdus, Remaining, OthersInOrder, Elsewhere;
    OthersFirst(k, cs, waiting, p, later);
    if Mine(k.tag, p) {
      OwnNext(k, payload, at.offset, at.dataSN, cut, p, later);
      Connection.ElsewhereAt(cs + [at], p, |cs|);
      assert (cs + [at])[|cs| := Moved(k, at, p)] == cs + [Moved(k, at, p)];
    } else {
      ElsewhereMore(cs, at, p);
      OthersOnly(k.tag, p, later);
    }
  }

  lemma OtherTags(conn: Connection, u: R2tTask, others: seq<R2tTask>)
    requires conn.Valid() && conn.tasks == others + [u]
    ensures forall i | 0 <= i < |others| :: Connection.CursorsOf(others)[i].tag != u.transferTag
  {
    hide Connection.Consistent;
    forall i | 0 <= i < |others|
      ensures Connection.CursorsOf(others)[i].tag != u.transferTag
    {
      assert conn.tasks[i] == others[i] && conn.tasks[|others|] == u;
    }
  }

  /** The entry of the command, at the end of the table, after the part of its first burst that has come in. */
  ghost predicate Underway(conn: Connection, u: R2tTask, others: seq<R2tTask>, k: Terms, payload: seq<byte>,
                           cut: nat -> nat, coming: seq<Pdu>)
    reads conn, conn.r2tTasks, conn.tasks, set t | t in conn.tasks :: t.iobuf, others, u
  {
    && conn.Valid() && conn.tasks == others + [u] && u.transferTag == u.taskTag == k.tag && u.start <= |conn.trace|
    && Stands(k, payload, cut, Connection.CursorsOf(others), Connection.CursorOf(u), |conn.pendingPdus|, coming)
    && Arrived(conn, u) == payload[..u.offset] && (u.offset == |payload| ==> u.fBit)
  }

  /** One PDU for the Data-Out handler while the command waits: the next of its first burst, or one of another. */
  method TakeEarly(conn: Connection, p: Pdu, ghost u: R2tTask, ghost others: seq<R2tTask>, ghost k: Terms,
                   ghost payload: seq<byte>, ghost cut: nat -> nat, ghost later: seq<Pdu>)
    requires Underway(conn, u, others, k, payload, cut, [p] + later)
    requires p.DataOut? && (p.transferTag == k.tag ==> p.taskTag == k.tag)
    requires Mine(k.tag, p) ==> u.offset + |p.data| <= k.firstBurst + k.maxBurst
    modifies conn`trace, conn`rejected, conn.tasks, set t | t in conn.tasks :: t.iobuf
    ensures Underway(conn, u, others, k, payload, cut, later)
    ensures u.offset == old(u.offset) + if Mine(k.tag, p) then |p.data| else 0
  {
    hide Connection.Consistent, Connection.Valid, Received, Elsewhere;
    assert Stands(k, payload, cut, Connection.CursorsOf(others), Connection.CursorOf(u), |conn.pendingPdus|,
                  [p] + later);
    ghost var cs, at, before := Connection.CursorsOf(others), Connection.CursorOf(u), conn.trace;
    ghost var cs' := if !Mine(k.tag, p) && Elsewhere(cs, p).Some? then Elsewhere(cs, p).value else cs;
    CursorsMore(others, u);
    OtherTags(conn, u, others);
    StandsNext(k, payload, cut, cs, at, |conn.pendingPdus|, p, later, cs');
    hide Stands;
    if Mine(k.tag, p) {
      Longer(u.command.immediate, Received(u.taskTag, before[u.start..]), p.data, payload, at.offset);
    }
    ArrivedMore(Context(k.tag, [], 0, 0, 0, false), before, u.start, p);
    var rc := conn.OpData(p);
    CursorsMore(others, u);
    SameEnd(Connection.CursorsOf(others), Connection.CursorOf(u), cs', Moved(k, at, p));
    assert u in conn.tasks;
  }

  lemma SameEnd<T>(a: seq<T>, x: T, b: seq<T>, y: T)
    ensures a + [x] == b + [y] ==> a == b && x == y
  {
    if a + [x] == b + [y] {
      assert (a + [x])[..|a|] == a && (b + [y])[..|b|] == b && (a + [x])[|a|] == x && (b + [y])[|b|] == y;
    }
  }

  lemma Longer<T>(a: seq<T>, b: seq<T>, c: seq<T>, s: seq<T>, n: nat)
    requires n + |c| <= |s| && a + b == s[..n] && c == s[n..n + |c|]
    ensures a + (b + c) == s[..n + |c|]
  {
    assert a + (b + c) == (a + b) + c;
  }

  lemma OthersOnly(tag: nat, p: Pdu, later: seq<Pdu>)
    requires !Mine(tag, p)
    ensures OwnPdus(tag, [p] + later) == OwnPdus(tag, later)
  {
    OwnFirst(tag, p, later);
  }

  lemma OthersFirst(k: Terms, cs: seq<Cursor>, waiting: nat, p: Pdu, later: seq<Pdu>)
    requires OthersInOrder(k, cs, waiting, [p] + later) && p.DataOut?
    ensures if Mine(k.tag, p) then OthersInOrder(k, cs, waiting, later)
            else Elsewhere(cs, p).Some? && OthersInOrder(k, Elsewhere(cs, p).value, waiting, later)
  {
    hide Elsewhere;
    assert ([p] + later)[1..] == later;
  }

  /** A command whose immediate data fills the first burst gets an entry, which stands right behind its first R2T. */
  lemma EntryStands(conn: Connection, u: R2tTask, others: seq<R2tTask>, k: Terms, payload: seq<byte>,
                    cut: nat -> nat, coming: seq<Pdu>, e: Event)
    requires conn.Valid() && conn.tasks == others + [u] && k.tag == u.command.taskTag && k.maxBurst > 0
    requires u.start + 1 == |conn.trace| && conn.trace[u.start] == e && Asks(k.tag, e)
    requires |u.command.immediate| == k.firstBurst < |payload| == u.command.transferLen
    requires u.command.immediate == payload[..k.firstBurst]
    requires OwnPdus(k.tag, coming) == Bursts(k, payload, k.firstBurst, cut)
    requires OthersInOrder(k, Connection.CursorsOf(others), |conn.pendingPdus|, coming)
    ensures Underway(conn, u, others, k, payload, cut, coming) && u.offset == k.firstBurst
  {
    hide OwnPdus, OthersInOrder, Burst, Received, R2ts, SinceR2t, Owed, Closed, LastF, Disciplined, R2tsRight, Ordered;
    assert u in conn.tasks && conn.Consistent(u, conn.trace);
    var c := Context(k.tag, u.command.immediate, 0, 0, 0, false);
    assert [] + [e] == [e] && conn.trace[u.start..] == [e];
    Requested(c, false, [], e);
    Nothing(c);
    assert |u.iobuf[..u.offset]| == k.firstBurst;
  }

  /** What the entry holds when its command is due. */
  lemma EntryDue(conn: Connection, u: R2tTask, others: seq<R2tTask>, k: Terms, payload: seq<byte>,
                 cut: nat -> nat, coming: seq<Pdu>)
    requires Underway(conn, u, others, k, payload, cut, coming)
    ensures conn.Valid() && conn.tasks == others + [u] && u in conn.tasks && k.maxBurst > 0
    ensures u.transferTag == k.tag && u.transferLen == u.command.transferLen
    ensures k.firstBurst <= u.offset <= k.firstBurst + k.maxBurst
    ensures u.offset <= |payload| && (u.offset == |payload| ==> u.fBit)
    ensures u.offset <= u.iobuf.Length && u.iobuf[..u.offset] == payload[..u.offset]
    ensures OwnPdus(k.tag, coming) == Remaining(k, payload, u.offset, u.dataSN, cut)
    ensures OthersInOrder(k, conn.OtherCursors(k.tag), |conn.pendingPdus|, coming)
  {
    assert u in conn.tasks && conn.Consistent(u, conn.trace);
    hide Received, OwnPdus, Remaining, OthersInOrder, Connection.Consistent;
    conn.OthersAt(|others|);
    assert conn.tasks[..|others|] + conn.tasks[|others| + 1..] == others;
  }

  /** All PDUs that come in before the command is carried out. */
  method TakeAll(conn: Connection, early: seq<Pdu>, ghost u: R2tTask, ghost others: seq<R2tTask>, ghost k: Terms,
                 ghost payload: seq<byte>, ghost cut: nat -> nat, ghost talk: seq<Pdu>)
    requires Underway(conn, u, others, k, payload, cut, early + talk) && conn.tasks == others + [u]
    requires forall p | p in early :: p.DataOut? && (p.transferTag == k.tag ==> p.taskTag == k.tag)
    requires u.offset + |OwnOctets(k.tag, early)| <= k.firstBurst + k.maxBurst
    modifies conn`trace, conn`rejected, conn.tasks, set t | t in conn.tasks :: t.iobuf
    ensures Underway(conn, u, others, k, payload, cut, talk)
  {
    hide Underway, OwnOctets;
    assert early[0..] == early;
    for i := 0 to |early|
      invariant Underway(conn, u, others, k, payload, cut, early[i..] + talk)
      invariant u.offset + |OwnOctets(k.tag, early[i..])| <= k.firstBurst + k.maxBurst
    {
      NextEarly(early, i, talk);
      OwnCons(k.tag, early[i..]);
      TakeEarly(conn, early[i], u, others, k, payload, cut, early[i + 1..] + talk);
    }
    assert early[|early|..] + talk == talk;
  }

  lemma NextEarly<T>(early: seq<T>, i: nat, talk: seq<T>)
    requires i < |early|
    ensures early[i..][0] == early[i] && early[i..][1..] == early[i + 1..]
    ensures early[i..] + talk == [early[i]] + (early[i + 1..] + talk)
  {
  }

  /**
   A whole write whose immediate data fills the first burst: the command arrives,
   some or all of the first burst comes in while it waits, among Data-Out of other
   commands, and the rest when it is carried out.
   */
  method WholeWrite(conn: Connection, cmd: Command, early: seq<Pdu>, data: array<byte>, transferLen: nat,
                    ghost payload: seq<byte>, ghost cut: nat -> nat,
                    ghost talk: seq<Pdu>, ghost rest: seq<Pdu>, ghost k: Terms)
    returns (rc: int)
    requires conn.Valid() && (data as object) != conn.r2tTasks && conn.pending < conn.maxR2t
    requires forall t | t in conn.tasks :: t.iobuf != data && t.taskTag != cmd.taskTag
    requires |payload| == cmd.transferLen == transferLen <= data.Length
    requires k == conn.TermsOf(cmd.taskTag, transferLen, data.Length)
    requires |cmd.immediate| == conn.firstBurst < transferLen && cmd.immediate == payload[..conn.firstBurst]
    requires forall p | p in early :: p.DataOut? && (p.transferTag == k.tag ==> p.taskTag == k.tag)
    requires |OwnOctets(k.tag, early)| <= k.maxBurst && k.maxBurst > 0
    requires OwnPdus(k.tag, early + talk) == Bursts(k, payload, k.firstBurst, cut) && conn.input == talk + rest
    requires OthersInOrder(k, conn.Cursors(), |conn.pendingPdus|, early + talk)
    modifies conn`pending, conn`tasks, conn.r2tTasks
    modifies conn`trace, conn`rejected, conn`input, conn`pendingPdus
    modifies data, conn.tasks, set t | t in conn.tasks :: t.iobuf
    ensures rc == 0 && conn.Valid() && data[..transferLen] == payload
  {
    hide Connection.Consistent, Received, OwnPdus, OwnOctets, Remaining, OthersInOrder, Bursts, Underway;
    hide Connection.Valid, Connection.OtherCursors;
    ghost var others := conn.tasks;
    ghost var u := conn.AddTransferTask(cmd);
    EntryStands(conn, u, others, k, payload, cut, early + talk, conn.trace[u.start]);
    TakeAll(conn, early, u, others, k, payload, cut, talk);
    EntryDue(conn, u, others, k, payload, cut, talk);
    rc := ResumedByRules(conn, cmd, u, data, transferLen, payload, cut, talk, rest, k);
  }

  /** Without unsolicited data only an R2T behind another one can be out of order. */
  lemma {:induction false} AskedTwice(c: Context, tr: seq<Event>)
    requires !Ordered(c, tr) && c.initialR2t
    ensures R2ts(c.tag, tr) >= 2
  {
    if !Ordered(c, tr[..|tr| - 1]) {
      AskedTwice(c, tr[..|tr| - 1]);
    }
  }

  lemma NoPdus(tr: seq<Event>)
    requires |tr| == 1 && tr[0].Asked?
    ensures Pdus(tr) == []
  {
  }

  /**
   A run in which an R2T goes out too early: FirstBurstLength is 1, MaxBurstLength 2,
   and a write of eight octets comes with three of them immediate. A second R2T goes
   out, and with an empty socket nothing at all has been received.
   */
  method AskedTooEarly(immediate: seq<byte>, input: seq<Pdu>) returns (conn: Connection)
    requires |immediate| == 3
    ensures !Ordered(Context(7, immediate, 8, 1, 2, true), conn.trace)
    ensures conn.trace != [] && conn.trace[0] == Asked(7, 7, 0, 3, 2)
    ensures R2ts(7, conn.trace) >= 2 && (input == [] ==> Pdus(conn.trace) == [])
  {
    hide Ordered, Disciplined, R2tsRight, BurstOpen, R2ts, Pdus, Received, SinceR2t, Owed, LastF, Assembled;
    hide Connection.FreshWell, Connection.ResumedWell, Connection.OtherCursors, Connection.AsksTooEarly;
    conn := new Connection(1, 1, 2, true, 0, input);
    var cmd := Command(1, 7, 8, true, immediate);
    ghost var entry := conn.AddTransferTask(cmd);
    ghost var first := conn.trace;
    assert conn.Consistent(entry, first);
    hide Connection.Consistent;
    conn.Resumed(entry, first, 8, conn.ContextOf(cmd, 8));
    conn.TooEarlyAfterLongImmediate(immediate);
    assert first[0..] == first;
    var data := new byte[8];
    ghost var news, c, start, commandF;
    var rc;
    rc, news, c, start, commandF := conn.TransferOut(cmd, data, 8);
    assert conn.trace[0..] == conn.trace;
    assert conn.trace[0] == first[0];
    AskedTwice(Context(7, immediate, 8, 1, 2, true), conn.trace);
    NoPdus(first);
  }
}
