/**
 What a connection saw and sent during writes: the history of incoming PDUs and
 outgoing R2Ts, and the rules that section 10.7 and 10.8 of RFC 3720 put on it,
 each stated for one command, on its own.
 */
module TransferTrace {
  import opened Bytes
  import opened Numbers

  datatype Pdu =
    | DataOut(f: bool, taskTag: nat, transferTag: nat, dataSN: nat, offset: nat, data: seq<byte>)
    | Other(opcode: nat, payload: seq<byte>)

  datatype Event =
    | Got(pdu: Pdu)
    | Asked(taskTag: nat, transferTag: nat, sn: nat, offset: nat, len: nat)

  /** What the rules need to know about a command besides the history since it arrived. */
  datatype Context = Context(tag: nat, immediate: seq<byte>, limit: nat,
                             firstBurst: nat, maxBurst: nat, initialR2t: bool)

  predicate Addressed(tag: nat, e: Event) {
    e.Got? && e.pdu.DataOut? && e.pdu.taskTag == tag && e.pdu.transferTag == tag
  }

  predicate Asks(tag: nat, e: Event) {
    e.Asked? && e.transferTag == tag
  }

  /** All payload addressed to a tag, in the order it came in. */
  function Received(tag: nat, tr: seq<Event>): seq<byte> {
    if tr == [] then []
    else
      var e, before := tr[|tr| - 1], tr[..|tr| - 1];
      if Addressed(tag, e) then Received(tag, before) + e.pdu.data else Received(tag, before)
  }

  /** R2Ts sent for a tag. */
  function R2ts(tag: nat, tr: seq<Event>): nat {
    if tr == [] then 0
    else R2ts(tag, tr[..|tr| - 1]) + if Asks(tag, tr[|tr| - 1]) then 1 else 0
  }

  /** Data-Out PDUs for a tag since its last R2T: the DataSN that is due. */
  function SinceR2t(tag: nat, tr: seq<Event>): nat {
    if tr == [] then 0
    else
      var e, before := tr[|tr| - 1], tr[..|tr| - 1];
      if Asks(tag, e) then 0 else if Addressed(tag, e) then SinceR2t(tag, before) + 1 else SinceR2t(tag, before)
  }

  /** Octets of the last R2T that have not arrived; negative when more than asked came in. */
  function Owed(tag: nat, tr: seq<Event>): int {
    if tr == [] then 0
    else
      var e, before := tr[|tr| - 1], tr[..|tr| - 1];
      if Asks(tag, e) then e.len else if Addressed(tag, e) then Owed(tag, before) - |e.pdu.data| else Owed(tag, before)
  }

  /** The initiator has set F in the burst of the last R2T. */
  predicate Closed(tag: nat, tr: seq<Event>) {
    tr != [] &&
    var e, before := tr[|tr| - 1], tr[..|tr| - 1];
    if Asks(tag, e) then false else (Addressed(tag, e) && e.pdu.f) || Closed(tag, before)
  }

  /** The last R2T is neither filled nor closed. */
  predicate BurstOpen(tag: nat, tr: seq<Event>) {
    R2ts(tag, tr) > 0 && Owed(tag, tr) > 0 && !Closed(tag, tr)
  }

  /** The F bit of the last PDU of a command, starting with the command itself. */
  predicate LastF(tag: nat, commandF: bool, tr: seq<Event>) {
    if tr == [] then commandF
    else if Addressed(tag, tr[|tr| - 1]) then tr[|tr| - 1].pdu.f
    else LastF(tag, commandF, tr[..|tr| - 1])
  }

  function Offset(c: Context, tr: seq<Event>): nat {
    |c.immediate| + |Received(c.tag, tr)|
  }

  /**
   Every R2T carries the next R2TSN and asks for a nonempty range of at most
   MaxBurstLength that starts at the octets received so far and stays within the
   limit, whatever the initiator sends.
   */
  predicate R2tsRight(c: Context, tr: seq<Event>) {
    tr == [] ||
    (var e, before := tr[|tr| - 1], tr[..|tr| - 1];
     && R2tsRight(c, before)
     && (Asks(c.tag, e) ==> IsNext(c, before, e)))
  }

  /** The R2T that is due after a history, for some length. */
  predicate IsNext(c: Context, before: seq<Event>, e: Event)
    requires e.Asked?
  {
    && e.taskTag == c.tag
    && e.sn == R2ts(c.tag, before) % SERIAL
    && e.offset == Offset(c, before)
    && 0 < e.len <= c.maxBurst
    && e.offset + e.len <= c.limit
  }

  /** Every Data-Out carries the next DataSN and starts at the octets received so far. */
  predicate InSequence(c: Context, tr: seq<Event>) {
    tr == [] ||
    (var e, before := tr[|tr| - 1], tr[..|tr| - 1];
     && InSequence(c, before)
     && (Addressed(c.tag, e) ==>
           && e.pdu.dataSN == SinceR2t(c.tag, before) % SERIAL
           && e.pdu.offset == Offset(c, before)))
  }

  /** Both sides keep to their rules. */
  predicate Disciplined(c: Context, tr: seq<Event>) {
    R2tsRight(c, tr) && InSequence(c, tr)
  }

  /**
   No R2T goes out too early: the first one waits for the unsolicited data
   unless InitialR2T is set, a later one for the end of the burst before it.
   */
  predicate Ordered(c: Context, tr: seq<Event>) {
    tr == [] ||
    (var e, before := tr[|tr| - 1], tr[..|tr| - 1];
     && Ordered(c, before)
     && (Asks(c.tag, e) ==>
           if R2ts(c.tag, before) == 0 then c.initialR2t || Offset(c, before) >= c.firstBurst
           else !BurstOpen(c.tag, before)))
  }

  /** The PDUs of a history, in order. */
  function Pdus(tr: seq<Event>): seq<Pdu> {
    if tr == [] then []
    else if tr[|tr| - 1].Got? then Pdus(tr[..|tr| - 1]) + [tr[|tr| - 1].pdu]
    else Pdus(tr[..|tr| - 1])
  }

  // ---------------------------------------------------------------- one more event

  lemma Extend(tr: seq<Event>, e: Event, start: nat)
    requires start <= |tr|
    ensures (tr + [e])[start..] == tr[start..] + [e]
    ensures (tr[start..] + [e])[..|tr| - start] == tr[start..]
    ensures Pdus(tr + [e]) == if e.Got? then Pdus(tr) + [e.pdu] else Pdus(tr)
  {
    hide Pdus;
    OneMore(tr, e);
    OneMore(tr[start..], e);
    SuffixMore(tr, e, start);
    OneMorePdu(tr, e, tr + [e]);
  }

  lemma SuffixMore<T>(s: seq<T>, x: T, start: nat)
    requires start <= |s|
    ensures (s + [x])[start..] == s[start..] + [x]
  {
  }

  lemma OneMore<T>(s: seq<T>, x: T)
    ensures |s + [x]| == |s| + 1 && (s + [x])[..|s|] == s && (s + [x])[|s|] == x
  {
  }

  lemma OneMorePdu(tr: seq<Event>, e: Event, longer: seq<Event>)
    requires |longer| == |tr| + 1 && longer[..|tr|] == tr && longer[|tr|] == e
    ensures Pdus(longer) == if e.Got? then Pdus(tr) + [e.pdu] else Pdus(tr)
  {
  }

  /** An event of another command changes nothing for this one. */
  lemma Unrelated(c: Context, commandF: bool, tr: seq<Event>, e: Event)
    requires !Asks(c.tag, e) && !Addressed(c.tag, e)
    ensures Received(c.tag, tr + [e]) == Received(c.tag, tr)
    ensures R2ts(c.tag, tr + [e]) == R2ts(c.tag, tr)
    ensures SinceR2t(c.tag, tr + [e]) == SinceR2t(c.tag, tr)
    ensures Owed(c.tag, tr + [e]) == Owed(c.tag, tr)
    ensures Closed(c.tag, tr + [e]) == Closed(c.tag, tr)
    ensures LastF(c.tag, commandF, tr + [e]) == LastF(c.tag, commandF, tr)
    ensures R2tsRight(c, tr + [e]) == R2tsRight(c, tr)
    ensures Disciplined(c, tr + [e]) == Disciplined(c, tr)
    ensures Ordered(c, tr + [e]) == Ordered(c, tr)
  {
    assert (tr + [e])[..|tr|] == tr;
  }

  /** A Data-Out of this command that is next in sequence. */
  lemma Accepted(c: Context, commandF: bool, tr: seq<Event>, e: Event)
    requires Addressed(c.tag, e)
    ensures Received(c.tag, tr + [e]) == Received(c.tag, tr) + e.pdu.data
    ensures R2ts(c.tag, tr + [e]) == R2ts(c.tag, tr)
    ensures SinceR2t(c.tag, tr + [e]) == SinceR2t(c.tag, tr) + 1
    ensures Owed(c.tag, tr + [e]) == Owed(c.tag, tr) - |e.pdu.data|
    ensures Closed(c.tag, tr + [e]) == (e.pdu.f || Closed(c.tag, tr))
    ensures LastF(c.tag, commandF, tr + [e]) == e.pdu.f
    ensures R2tsRight(c, tr + [e]) == R2tsRight(c, tr)
    ensures Disciplined(c, tr + [e])
       <==> Disciplined(c, tr) && e.pdu.dataSN == SinceR2t(c.tag, tr) % SERIAL && e.pdu.offset == Offset(c, tr)
    ensures Ordered(c, tr + [e]) == Ordered(c, tr)
  {
    assert (tr + [e])[..|tr|] == tr;
  }

  /** An R2T for this command. */
  lemma Requested(c: Context, commandF: bool, tr: seq<Event>, e: Event)
    requires Asks(c.tag, e)
    ensures Received(c.tag, tr + [e]) == Received(c.tag, tr)
    ensures R2ts(c.tag, tr + [e]) == R2ts(c.tag, tr) + 1
    ensures SinceR2t(c.tag, tr + [e]) == 0
    ensures Owed(c.tag, tr + [e]) == e.len
    ensures !Closed(c.tag, tr + [e])
    ensures LastF(c.tag, commandF, tr + [e]) == LastF(c.tag, commandF, tr)
    ensures R2tsRight(c, tr + [e]) <==> R2tsRight(c, tr) && IsNext(c, tr, e)
    ensures Disciplined(c, tr + [e]) <==> Disciplined(c, tr) && IsNext(c, tr, e)
    ensures Ordered(c, tr + [e])
       <==> Ordered(c, tr) && if R2ts(c.tag, tr) == 0 then c.initialR2t || Offset(c, tr) >= c.firstBurst
                              else !BurstOpen(c.tag, tr)
  {
    assert (tr + [e])[..|tr|] == tr;
  }

  /** A larger limit is a weaker rule. */
  lemma {:induction false} WiderLimit(c: Context, limit: nat, tr: seq<Event>)
    requires c.limit <= limit
    ensures Disciplined(c, tr) ==> Disciplined(c.(limit := limit), tr)
    ensures Ordered(c, tr) == Ordered(c.(limit := limit), tr)
  {
    if tr != [] {
      WiderLimit(c, limit, tr[..|tr| - 1]);
    }
  }

  // ---------------------------------------------------------------- what the rules add up to

  /** The history of a command up to an event also obeys the rules. */
  lemma {:induction false} DisciplinedPrefix(c: Context, tr: seq<Event>, i: nat)
    requires i <= |tr|
    ensures R2tsRight(c, tr) ==> R2tsRight(c, tr[..i])
    ensures InSequence(c, tr) ==> InSequence(c, tr[..i])
    decreases |tr|
  {
    if i == |tr| {
      assert tr[..i] == tr;
    } else {
      DisciplinedPrefix(c, tr[..|tr| - 1], i);
      assert tr[..|tr| - 1][..i] == tr[..i];
    }
  }

  lemma {:induction false} ReceivedPrefix(tag: nat, tr: seq<Event>, i: nat)
    requires i <= |tr|
    ensures Received(tag, tr[..i]) <= Received(tag, tr)
    decreases |tr|
  {
    if i == |tr| {
      assert tr[..i] == tr;
    } else {
      ReceivedPrefix(tag, tr[..|tr| - 1], i);
      assert tr[..|tr| - 1][..i] == tr[..i];
    }
  }

  /**
   No gap and no overlap: each accepted payload stands in the assembled data
   exactly at the buffer offset its PDU announced.
   */
  lemma {:induction false} PayloadPlaced(c: Context, tr: seq<Event>, i: nat)
    requires InSequence(c, tr) && i < |tr| && Addressed(c.tag, tr[i])
    ensures var p := tr[i].pdu;
            p.offset + |p.data| <= Offset(c, tr)
            && (c.immediate + Received(c.tag, tr))[p.offset..p.offset + |p.data|] == p.data
  {
    var p := tr[i].pdu;
    DisciplinedPrefix(c, tr, i + 1);
    ReceivedPrefix(c.tag, tr, i + 1);
    assert tr[..i + 1] == tr[..i] + [tr[i]];
    assert InSequence(c, tr[..i + 1]) && tr[..i + 1][..i] == tr[..i];
    Accepted(c, false, tr[..i], tr[i]);
    var upTo := Received(c.tag, tr[..i + 1]);
    assert (c.immediate + Received(c.tag, tr))[..p.offset + |p.data|] == c.immediate + upTo;
  }

  /** R2TSN runs 0, 1, 2, ...: an R2T carries the number of R2Ts before it, however the transfer ends. */
  lemma RequestNumbered(c: Context, tr: seq<Event>, i: nat)
    requires R2tsRight(c, tr) && i < |tr| && Asks(c.tag, tr[i])
    ensures tr[i].sn == R2ts(c.tag, tr[..i]) % SERIAL && tr[i].offset == Offset(c, tr[..i])
    ensures tr[i].offset + tr[i].len <= c.limit && 0 < tr[i].len <= c.maxBurst
  {
    DisciplinedPrefix(c, tr, i + 1);
    assert tr[..i + 1] == tr[..i] + [tr[i]];
    Requested(c, false, tr[..i], tr[i]);
  }

  /** Before unsolicited data has filled the first burst no R2T goes out, unless InitialR2T is set. */
  lemma {:induction false} NoneAsked(c: Context, tr: seq<Event>)
    requires Ordered(c, tr) && !c.initialR2t && Offset(c, tr) < c.firstBurst
    ensures R2ts(c.tag, tr) == 0
  {
    if tr != [] {
      NoneAsked(c, tr[..|tr| - 1]);
    }
  }
}
