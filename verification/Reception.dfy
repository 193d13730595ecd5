/**
 When the receive loop of a write ends well, as a function of the PDUs on the
 socket, and an initiator that keeps to the rules: where the target asks for all
 of the data, it arrives whole, however the initiator cuts its bursts and whatever
 PDUs of other commands come in between; data that the initiator is to send
 unasked is never taken, and such a write never ends well.
 */
module Reception {
  import opened Bytes
  import opened Names
  import opened Numbers
  import opened TransferTrace

  /** The negotiated values and the write they apply to; room is the size of the caller's buffer. */
  datatype Terms = Terms(tag: nat, transferLen: nat, room: nat, firstBurst: nat, maxBurst: nat, initialR2t: bool,
                         maxPending: nat)

  /** Where the loop stands: octets in, octets still due in the burst, whether the burst was asked for, next DataSN. */
  datatype Mark = Mark(offset: nat, len: int, asked: bool, dataSN: nat)

  /** Where another command of the R2T table stands. */
  datatype Cursor = Cursor(tag: nat, dataSN: nat, offset: nat, room: nat)

  predicate Mine(tag: nat, p: Pdu) {
    p.DataOut? && p.taskTag == tag && p.transferTag == tag
  }

  /** The target transfer tag of unsolicited Data-Out (section 10.7.4 of RFC 3720). */
  const RESERVED_TAG := 0xffff_ffff

  // ---------------------------------------------------------------- one PDU

  function IndexOf(cs: seq<Cursor>, tag: nat): (i: nat)
    ensures i <= |cs|
    ensures i < |cs| ==> cs[i].tag == tag
    ensures forall j | 0 <= j < i :: cs[j].tag != tag
  {
    if cs == [] || cs[0].tag == tag then 0 else 1 + IndexOf(cs[1..], tag)
  }

  /** A Data-Out of another command: rejected without effect, next of its entry, or an error. */
  function Elsewhere(cs: seq<Cursor>, p: Pdu): Option<seq<Cursor>>
    requires p.DataOut?
  {
    var i := IndexOf(cs, p.transferTag);
    if i == |cs| then Some(cs)
    else if p.dataSN != cs[i].dataSN || p.taskTag != cs[i].tag || p.offset != cs[i].offset
            || p.offset + |p.data| > cs[i].room then None
    else Some(cs[i := cs[i].(dataSN := (p.dataSN + 1) % SERIAL, offset := p.offset + |p.data|)])
  }

  /** The R2T that is due goes out. */
  function AfterAsking(k: Terms, m: Mark): Mark {
    if !m.asked && (k.initialR2t || m.offset >= k.firstBurst)
    then Mark(m.offset, Min(k.maxBurst, k.transferLen - m.offset), true, 0) else m
  }

  /** A Data-Out of the command itself. */
  function AfterOwn(k: Terms, m: Mark, p: Pdu): Option<Mark>
    requires p.DataOut?
  {
    var offset, len, sn := m.offset + |p.data|, m.len - |p.data|, (m.dataSN + 1) % SERIAL;
    if p.dataSN != m.dataSN || p.offset != m.offset || offset > k.room then None
    else if !m.asked && offset > k.firstBurst then None
    else if p.f && len != 0 then if offset < k.transferLen then Some(Mark(offset, len, false, sn)) else None
    else if !p.f && len == 0 then None
    else Some(Mark(offset, len, m.asked && len != 0, sn))
  }

  /** The loop, from a mark on, over the PDUs that come: lastF is the F bit of the last own one. */
  predicate Succeeds(k: Terms, m: Mark, cs: seq<Cursor>, waiting: nat, input: seq<Pdu>, lastF: bool)
    decreases |input|
  {
    if m.offset >= k.transferLen then lastF
    else
      input != [] &&
      var asked, p := AfterAsking(k, m), input[0];
      if Mine(k.tag, p) then
        var next := AfterOwn(k, asked, p);
        next.Some? && Succeeds(k, next.value, cs, waiting, input[1..], p.f)
      else if p.DataOut? then
        var next := Elsewhere(cs, p);
        next.Some? && Succeeds(k, asked, next.value, waiting, input[1..], lastF)
      else
        waiting <= k.maxPending && Succeeds(k, asked, cs, waiting + 1, input[1..], lastF)
  }

  /** Asking first makes no difference to what follows. */
  lemma AskingIsFirst(k: Terms, m: Mark, cs: seq<Cursor>, waiting: nat, input: seq<Pdu>, lastF: bool)
    ensures AfterAsking(k, AfterAsking(k, m)) == AfterAsking(k, m)
    ensures Succeeds(k, m, cs, waiting, input, lastF) == Succeeds(k, AfterAsking(k, m), cs, waiting, input, lastF)
    ensures m.offset < k.transferLen && input == [] ==> !Succeeds(k, m, cs, waiting, input, lastF)
  {
    hide AfterOwn, Elsewhere;
  }

  /** One PDU of the loop. */
  lemma Round(k: Terms, m: Mark, cs: seq<Cursor>, waiting: nat, input: seq<Pdu>, lastF: bool)
    requires m.offset < k.transferLen && AfterAsking(k, m) == m && input != []
    ensures Mine(k.tag, input[0]) ==>
      Succeeds(k, m, cs, waiting, input, lastF)
        == (AfterOwn(k, m, input[0]).Some?
            && Succeeds(k, AfterOwn(k, m, input[0]).value, cs, waiting, input[1..], input[0].f))
    ensures !Mine(k.tag, input[0]) && input[0].DataOut? ==>
      Succeeds(k, m, cs, waiting, input, lastF)
        == (Elsewhere(cs, input[0]).Some? && Succeeds(k, m, Elsewhere(cs, input[0]).value, waiting, input[1..], lastF))
    ensures !input[0].DataOut? ==>
      Succeeds(k, m, cs, waiting, input, lastF)
        == (waiting <= k.maxPending && Succeeds(k, m, cs, waiting + 1, input[1..], lastF))
  {
    hide AfterAsking, AfterOwn, Elsewhere;
  }

  lemma Over(k: Terms, m: Mark, cs: seq<Cursor>, waiting: nat, input: seq<Pdu>, lastF: bool)
    requires m.offset >= k.transferLen
    ensures Succeeds(k, m, cs, waiting, input, lastF) == lastF
  {
  }

  // ---------------------------------------------------------------- an initiator that keeps to the rules

  /** Where the segment that starts at from ends: as cut says, within the burst. */
  function SegmentEnd(cut: nat -> nat, from: nat, to: nat): (next: nat)
    requires from < to
    ensures from < next <= to
  {
    if from < cut(from) < to then cut(from) else to
  }

  /** The Data-Out PDUs of one burst, F on the last: solicited ones carry the tag of the R2T. */
  function Burst(k: Terms, transferTag: nat, payload: seq<byte>, from: nat, to: nat, cut: nat -> nat, sn: nat): seq<Pdu>
    requires from < to <= |payload|
    decreases |payload| - from
  {
    var next := SegmentEnd(cut, from, to);
    [DataOut(next == to, k.tag, transferTag, sn, from, payload[from..next])]
    + if next == to then [] else Burst(k, transferTag, payload, next, to, cut, (sn + 1) % SERIAL)
  }

  /** One burst after the other as the target asks for them. */
  function Bursts(k: Terms, payload: seq<byte>, from: nat, cut: nat -> nat): seq<Pdu>
    requires from <= |payload| && k.maxBurst > 0
    decreases |payload| - from
  {
    if from == |payload| then []
    else
      var to := Min(from + k.maxBurst, |payload|);
      Burst(k, k.tag, payload, from, to, cut, 0) + Bursts(k, payload, to, cut)
  }

  /** The target asks for everything behind the immediate data: no data may come unasked. */
  predicate AskedForAll(k: Terms, immediate: nat) {
    k.initialR2t || immediate >= k.firstBurst
  }

  /**
   Everything the initiator sends behind the immediate data. Where unsolicited data
   is allowed it sends some, up to an end of its choice within FirstBurstLength, and
   waits for R2Ts that, as proved below, never come.
   */
  function Conversation(k: Terms, payload: seq<byte>, immediate: nat, end: nat, cut: nat -> nat): seq<Pdu>
    requires immediate <= |payload| && k.maxBurst > 0
    requires AskedForAll(k, immediate) || immediate <= end <= Min(k.firstBurst, |payload|)
  {
    if AskedForAll(k, immediate) then Bursts(k, payload, immediate, cut)
    else if immediate == end then []
    else Burst(k, RESERVED_TAG, payload, immediate, end, cut, 0)
  }

  /** Every Data-Out PDU of a command, solicited or not. */
  function CommandPdus(tag: nat, ps: seq<Pdu>): seq<Pdu> {
    if ps == [] then []
    else (if ps[0].DataOut? && ps[0].taskTag == tag then [ps[0]] else []) + CommandPdus(tag, ps[1..])
  }

  /** The PDUs that the loop takes for its own. */
  function OwnPdus(tag: nat, ps: seq<Pdu>): seq<Pdu> {
    if ps == [] then [] else (if Mine(tag, ps[0]) then [ps[0]] else []) + OwnPdus(tag, ps[1..])
  }

  /** Everything else that comes in between is in order for its own command, or fits the queue of PDUs put aside. */
  predicate OthersInOrder(k: Terms, cs: seq<Cursor>, waiting: nat, ps: seq<Pdu>)
    decreases |ps|
  {
    ps == [] ||
    if Mine(k.tag, ps[0]) then OthersInOrder(k, cs, waiting, ps[1..])
    else if ps[0].DataOut? then
      var next := Elsewhere(cs, ps[0]);
      next.Some? && OthersInOrder(k, next.value, waiting, ps[1..])
    else waiting <= k.maxPending && OthersInOrder(k, cs, waiting + 1, ps[1..])
  }

  /** The loop is inside a burst it asked for, which ends at to. */
  predicate InBurst(k: Terms, payload: seq<byte>, m: Mark, to: nat) {
    && m.offset < to <= |payload| == k.transferLen <= k.room && m.dataSN < SERIAL && k.maxBurst > 0
    && m.len >= to - m.offset && (to == |payload| ==> m.len == to - m.offset)
    && m.asked && (k.initialR2t || m.offset >= k.firstBurst)
  }

  /** The loop is between two bursts: the next R2T is due. */
  predicate Between(k: Terms, payload: seq<byte>, m: Mark) {
    && m.offset < |payload| == k.transferLen <= k.room && k.maxBurst > 0
    && !m.asked && (k.initialR2t || m.offset >= k.firstBurst)
  }

  lemma OwnStep(k: Terms, payload: seq<byte>, m: Mark, to: nat, next: nat)
    requires InBurst(k, payload, m, to) && m.offset < next <= to
    ensures AfterAsking(k, m) == m
    ensures var p := DataOut(next == to, k.tag, k.tag, m.dataSN, m.offset, payload[m.offset..next]);
            var after := AfterOwn(k, m, p);
            && after.Some? && after.value.offset == next
            && (next < to ==> InBurst(k, payload, after.value, to) && after.value.dataSN == (m.dataSN + 1) % SERIAL)
            && (next == to < |payload| ==> Between(k, payload, after.value))
  {
  }

  /** Between two bursts the loop asks for the next one and is inside it. */
  lemma NextBurst(k: Terms, payload: seq<byte>, m: Mark, cs: seq<Cursor>, waiting: nat, input: seq<Pdu>, lastF: bool)
    requires Between(k, payload, m)
    ensures var n := AfterAsking(k, m);
            && InBurst(k, payload, n, Min(m.offset + k.maxBurst, |payload|)) && n.dataSN == 0 && n.offset == m.offset
            && Succeeds(k, m, cs, waiting, input, lastF) == Succeeds(k, n, cs, waiting, input, lastF)
  {
  }

  lemma OneOwn(k: Terms, m: Mark, cs: seq<Cursor>, waiting: nat, p: Pdu, later: seq<Pdu>, lastF: bool)
    requires m.offset < k.transferLen && AfterAsking(k, m) == m && Mine(k.tag, p) && AfterOwn(k, m, p).Some?
    requires Succeeds(k, AfterOwn(k, m, p).value, cs, waiting, later, p.f)
    ensures Succeeds(k, m, cs, waiting, [p] + later, lastF)
  {
    assert ([p] + later)[1..] == later;
  }

  lemma OneOther(k: Terms, m: Mark, cs: seq<Cursor>, waiting: nat, p: Pdu, later: seq<Pdu>, lastF: bool)
    requires m.offset < k.transferLen && AfterAsking(k, m) == m && !Mine(k.tag, p)
    requires if p.DataOut? then Elsewhere(cs, p).Some? && Succeeds(k, m, Elsewhere(cs, p).value, waiting, later, lastF)
             else waiting <= k.maxPending && Succeeds(k, m, cs, waiting + 1, later, lastF)
    ensures Succeeds(k, m, cs, waiting, [p] + later, lastF)
  {
    assert ([p] + later)[1..] == later;
  }

  /** The first PDU of a burst and what follows it. */
  lemma BurstFront(k: Terms, payload: seq<byte>, from: nat, to: nat, cut: nat -> nat, sn: nat)
    requires from < to <= |payload| && k.maxBurst > 0
    ensures var next := SegmentEnd(cut, from, to);
            var all := Burst(k, k.tag, payload, from, to, cut, sn) + Bursts(k, payload, to, cut);
            && all != [] && all[0] == DataOut(next == to, k.tag, k.tag, sn, from, payload[from..next])
            && all[1..] == if next == to then Bursts(k, payload, to, cut)
                           else Burst(k, k.tag, payload, next, to, cut, (sn + 1) % SERIAL) + Bursts(k, payload, to, cut)
  {
  }

  /** The first PDU of what comes in is the first own one, or leaves those as they are. */
  lemma OwnFront(tag: nat, ps: seq<Pdu>)
    requires OwnPdus(tag, ps) != []
    ensures ps != [] && ps == [ps[0]] + ps[1..]
    ensures Mine(tag, ps[0]) ==> OwnPdus(tag, ps)[0] == ps[0] && OwnPdus(tag, ps[1..]) == OwnPdus(tag, ps)[1..]
    ensures !Mine(tag, ps[0]) ==> OwnPdus(tag, ps[1..]) == OwnPdus(tag, ps)
  {
  }

  /** Inside a burst, whatever else comes in between, the loop gets to the end of the write. */
  lemma {:induction false} BurstSucceeds(k: Terms, payload: seq<byte>, m: Mark, to: nat, cut: nat -> nat,
                                         cs: seq<Cursor>, waiting: nat, talk: seq<Pdu>, rest: seq<Pdu>, lastF: bool)
    requires InBurst(k, payload, m, to) && OthersInOrder(k, cs, waiting, talk)
    requires OwnPdus(k.tag, talk) == Burst(k, k.tag, payload, m.offset, to, cut, m.dataSN) + Bursts(k, payload, to, cut)
    ensures Succeeds(k, m, cs, waiting, talk + rest, lastF)
    decreases |talk|, 0
  {
    hide InBurst, Between, AfterOwn, AfterAsking, Elsewhere, Succeeds, OwnPdus, Burst, Bursts;
    Bounds(k, payload, m, to);
    var next := SegmentEnd(cut, m.offset, to);
    OwnStep(k, payload, m, to, next);
    BurstFront(k, payload, m.offset, to, cut, m.dataSN);
    OwnFront(k.tag, talk);
    var p, later := talk[0], talk[1..];
    assert talk + rest == [p] + (later + rest);
    if Mine(k.tag, p) {
      var after := AfterOwn(k, m, p).value;
      if next < to {
        BurstSucceeds(k, payload, after, to, cut, cs, waiting, later, rest, p.f);
      } else if to < |payload| {
        BoundarySucceeds(k, payload, after, cut, cs, waiting, later, rest, p.f);
      } else {
        Over(k, after, cs, waiting, later + rest, p.f);
      }
      OneOwn(k, m, cs, waiting, p, later + rest, lastF);
    } else {
      if p.DataOut? {
        BurstSucceeds(k, payload, m, to, cut, Elsewhere(cs, p).value, waiting, later, rest, lastF);
      } else {
        BurstSucceeds(k, payload, m, to, cut, cs, waiting + 1, later, rest, lastF);
      }
      OneOther(k, m, cs, waiting, p, later + rest, lastF);
    }
  }

  lemma Bounds(k: Terms, payload: seq<byte>, m: Mark, to: nat)
    requires InBurst(k, payload, m, to)
    ensures m.offset < to <= |payload| == k.transferLen && k.maxBurst > 0
  {
  }

  lemma {:induction false} BoundarySucceeds(k: Terms, payload: seq<byte>, m: Mark, cut: nat -> nat,
                                            cs: seq<Cursor>, waiting: nat, talk: seq<Pdu>, rest: seq<Pdu>, lastF: bool)
    requires Between(k, payload, m) && OthersInOrder(k, cs, waiting, talk)
    requires OwnPdus(k.tag, talk) == Bursts(k, payload, m.offset, cut)
    ensures Succeeds(k, m, cs, waiting, talk + rest, lastF)
    decreases |talk|, 1
  {
    NextBurst(k, payload, m, cs, waiting, talk + rest, lastF);
    BurstSucceeds(k, payload, AfterAsking(k, m), Min(m.offset + k.maxBurst, |payload|), cut,
                  cs, waiting, talk, rest, lastF);
  }

  // ---------------------------------------------------------------- whole writes

  /** A write without a table entry whose data the target asks for, from the immediate data on. */
  lemma FreshSucceeds(k: Terms, payload: seq<byte>, immediate: nat, cut: nat -> nat,
                      cs: seq<Cursor>, waiting: nat, talk: seq<Pdu>, rest: seq<Pdu>)
    requires immediate < |payload| == k.transferLen <= k.room && k.maxBurst > 0 && AskedForAll(k, immediate)
    requires OthersInOrder(k, cs, waiting, talk) && OwnPdus(k.tag, talk) == Bursts(k, payload, immediate, cut)
    ensures Succeeds(k, FreshMark(k, immediate), cs, waiting, talk + rest, false)
  {
    hide Succeeds, Burst, Bursts, OwnPdus, OthersInOrder;
    BoundarySucceeds(k, payload, FreshMark(k, immediate), cut, cs, waiting, talk, rest, false);
  }

  /** Without a PDU of its own the loop does not get any further. */
  lemma {:induction false} NothingTaken(k: Terms, m: Mark, cs: seq<Cursor>, waiting: nat, input: seq<Pdu>, lastF: bool)
    requires OwnPdus(k.tag, input) == [] && m.offset < k.transferLen
    ensures !Succeeds(k, m, cs, waiting, input, lastF)
    decreases |input|
  {
    if input != [] {
      var asked, p := AfterAsking(k, m), input[0];
      if p.DataOut? {
        if Elsewhere(cs, p).Some? {
          NothingTaken(k, asked, Elsewhere(cs, p).value, waiting, input[1..], lastF);
        }
      } else {
        NothingTaken(k, asked, cs, waiting + 1, input[1..], lastF);
      }
    }
  }

  /** What the loop takes for its own is what it would take of the command's Data-Out PDUs alone. */
  lemma {:induction false} OwnOfCommand(tag: nat, ps: seq<Pdu>)
    ensures OwnPdus(tag, ps) == OwnPdus(tag, CommandPdus(tag, ps))
  {
    if ps != [] {
      OwnOfCommand(tag, ps[1..]);
      var first := CommandPdus(tag, ps);
      if ps[0].DataOut? && ps[0].taskTag == tag {
        assert first[1..] == CommandPdus(tag, ps[1..]);
      } else {
        assert first == CommandPdus(tag, ps[1..]);
      }
    }
  }

  lemma OwnFirst(tag: nat, p: Pdu, ps: seq<Pdu>)
    ensures OwnPdus(tag, [p] + ps) == (if Mine(tag, p) then [p] else []) + OwnPdus(tag, ps)
  {
    assert ([p] + ps)[1..] == ps;
  }

  lemma {:induction false} OwnOfParts(tag: nat, a: seq<Pdu>, b: seq<Pdu>)
    ensures OwnPdus(tag, a + b) == OwnPdus(tag, a) + OwnPdus(tag, b)
  {
    if a == [] {
      assert a + b == b;
    } else {
      OwnFirst(tag, a[0], a[1..]);
      OwnFirst(tag, a[0], a[1..] + b);
      OwnOfParts(tag, a[1..], b);
      assert a == [a[0]] + a[1..] && [a[0]] + (a[1..] + b) == a + b;
    }
    hide OwnPdus;
  }

  /** The loop takes all of a solicited burst and nothing of an unsolicited one. */
  lemma {:induction false} OwnOfBurst(k: Terms, transferTag: nat, payload: seq<byte>, from: nat, to: nat,
                                      cut: nat -> nat, sn: nat)
    requires from < to <= |payload|
    ensures var b := Burst(k, transferTag, payload, from, to, cut, sn);
            OwnPdus(k.tag, b) == if transferTag == k.tag then b else []
    decreases |payload| - from
  {
    var next := SegmentEnd(cut, from, to);
    var b := Burst(k, transferTag, payload, from, to, cut, sn);
    if next < to {
      OwnOfBurst(k, transferTag, payload, next, to, cut, (sn + 1) % SERIAL);
      assert b[1..] == Burst(k, transferTag, payload, next, to, cut, (sn + 1) % SERIAL);
    } else {
      assert b[1..] == [];
    }
  }

  lemma {:induction false} OwnOfBursts(k: Terms, payload: seq<byte>, from: nat, cut: nat -> nat)
    requires from <= |payload| && k.maxBurst > 0
    ensures OwnPdus(k.tag, Bursts(k, payload, from, cut)) == Bursts(k, payload, from, cut)
    decreases |payload| - from
  {
    if from < |payload| {
      hide OwnPdus, Burst;
      var to := Min(from + k.maxBurst, |payload|);
      OwnOfBurst(k, k.tag, payload, from, to, cut, 0);
      OwnOfBursts(k, payload, to, cut);
      OwnOfParts(k.tag, Burst(k, k.tag, payload, from, to, cut, 0), Bursts(k, payload, to, cut));
    }
  }

  /** What the loop takes of a whole conversation: all of it, or nothing. */
  lemma OwnOfConversation(k: Terms, payload: seq<byte>, immediate: nat, end: nat, cut: nat -> nat, talk: seq<Pdu>)
    requires immediate <= |payload| && k.maxBurst > 0 && k.tag != RESERVED_TAG
    requires AskedForAll(k, immediate) || immediate <= end <= Min(k.firstBurst, |payload|)
    requires CommandPdus(k.tag, talk) == Conversation(k, payload, immediate, end, cut)
    ensures OwnPdus(k.tag, talk) == if AskedForAll(k, immediate) then Bursts(k, payload, immediate, cut) else []
  {
    hide CommandPdus, Burst, Bursts;
    OwnOfCommand(k.tag, talk);
    if AskedForAll(k, immediate) {
      OwnOfBursts(k, payload, immediate, cut);
    } else if immediate < end {
      OwnOfBurst(k, RESERVED_TAG, payload, immediate, end, cut, 0);
    }
  }

  /**
   A write without a table entry, from an initiator that keeps to the rules, ends
   well exactly when the target asks for all of its data. Unsolicited Data-Out
   carries the reserved transfer tag, which the loop does not take for its own.
   */
  lemma FreshSucceedsIff(k: Terms, payload: seq<byte>, immediate: nat, end: nat, cut: nat -> nat,
                         cs: seq<Cursor>, waiting: nat, talk: seq<Pdu>, rest: seq<Pdu>)
    requires immediate < |payload| == k.transferLen <= k.room && immediate <= k.firstBurst
    requires k.maxBurst > 0 && k.tag != RESERVED_TAG
    requires AskedForAll(k, immediate) || immediate <= end <= Min(k.firstBurst, |payload|)
    requires OthersInOrder(k, cs, waiting, talk)
    requires CommandPdus(k.tag, talk) == Conversation(k, payload, immediate, end, cut)
    requires AskedForAll(k, immediate) || CommandPdus(k.tag, rest) == []
    ensures Succeeds(k, FreshMark(k, immediate), cs, waiting, talk + rest, false) <==> AskedForAll(k, immediate)
  {
    hide Succeeds, Burst, Bursts, OthersInOrder, CommandPdus, Conversation;
    OwnOfConversation(k, payload, immediate, end, cut, talk);
    if AskedForAll(k, immediate) {
      FreshSucceeds(k, payload, immediate, cut, cs, waiting, talk, rest);
    } else {
      OwnOfCommand(k.tag, rest);
      OwnOfParts(k.tag, talk, rest);
      NothingTaken(k, FreshMark(k, immediate), cs, waiting, talk + rest, false);
    }
  }

  function FreshMark(k: Terms, immediate: nat): Mark {
    Mark(immediate, Min(k.firstBurst, k.transferLen - immediate), false, 0)
  }

  /** Where a write resumes from its table entry, with offset octets in. */
  function ResumedMark(k: Terms, offset: nat, dataSN: nat): Mark {
    Mark(offset, Min(k.maxBurst, k.transferLen - offset), offset < k.firstBurst + k.maxBurst, dataSN)
  }

  /** What is still to come when the first burst behind the immediate data has been received up to offset. */
  function Remaining(k: Terms, payload: seq<byte>, offset: nat, dataSN: nat, cut: nat -> nat): seq<Pdu>
    requires offset <= |payload| && k.maxBurst > 0
  {
    var to := Min(k.firstBurst + k.maxBurst, |payload|);
    if offset < to then Burst(k, k.tag, payload, offset, to, cut, dataSN) + Bursts(k, payload, to, cut)
    else Bursts(k, payload, offset, cut)
  }

  /** A write that resumes after any part of its first burst went to the Data-Out handler. */
  lemma ResumedSucceeds(k: Terms, payload: seq<byte>, offset: nat, dataSN: nat, cut: nat -> nat,
                        cs: seq<Cursor>, waiting: nat, talk: seq<Pdu>, rest: seq<Pdu>)
    requires k.firstBurst <= offset < |payload| == k.transferLen <= k.room && k.maxBurst > 0
    requires offset <= k.firstBurst + k.maxBurst && dataSN < SERIAL
    requires OthersInOrder(k, cs, waiting, talk) && OwnPdus(k.tag, talk) == Remaining(k, payload, offset, dataSN, cut)
    ensures Succeeds(k, ResumedMark(k, offset, dataSN), cs, waiting, talk + rest, false)
  {
    hide Succeeds, Burst, Bursts, OwnPdus, OthersInOrder;
    var m, to := ResumedMark(k, offset, dataSN), Min(k.firstBurst + k.maxBurst, |payload|);
    if offset < to {
      BurstSucceeds(k, payload, m, to, cut, cs, waiting, talk, rest, false);
    } else {
      BoundarySucceeds(k, payload, m, cut, cs, waiting, talk, rest, false);
    }
  }

  /** The next own PDU, when it still belongs to the first burst. */
  lemma OwnNext(k: Terms, payload: seq<byte>, offset: nat, sn: nat, cut: nat -> nat, p: Pdu, later: seq<Pdu>)
    requires k.maxBurst > 0 && Mine(k.tag, p)
    requires k.firstBurst <= offset <= |payload| && offset + |p.data| <= k.firstBurst + k.maxBurst
    requires OwnPdus(k.tag, [p] + later) == Remaining(k, payload, offset, sn, cut)
    ensures p.dataSN == sn && p.offset == offset && offset + |p.data| <= |payload|
    ensures p.data == payload[offset..offset + |p.data|] && (offset + |p.data| == |payload| ==> p.f)
    ensures OwnPdus(k.tag, later) == Remaining(k, payload, offset + |p.data|, (sn + 1) % SERIAL, cut)
  {
    hide Burst, OwnPdus;
    OwnFirst(k.tag, p, later);
    assert ([p] + OwnPdus(k.tag, later))[1..] == OwnPdus(k.tag, later);
    var to := Min(k.firstBurst + k.maxBurst, |payload|);
    if offset < to {
      BurstFront(k, payload, offset, to, cut, sn);
    } else if offset < |payload| {
      BurstFront(k, payload, offset, Min(offset + k.maxBurst, |payload|), cut, 0);
      assert false;
    }
  }

  /** A PDU of another command finds the same entry when one more stands at the end. */
  lemma {:induction false} ElsewhereMore(cs: seq<Cursor>, c: Cursor, p: Pdu)
    requires p.DataOut? && p.transferTag != c.tag
    ensures Elsewhere(cs + [c], p) ==
      if Elsewhere(cs, p).Some? then Some(Elsewhere(cs, p).value + [c]) else None
  {
    IndexMore(cs, c, p.transferTag);
    hide IndexOf;
    var i := IndexOf(cs, p.transferTag);
    if i < |cs| {
      var d := cs[i].(dataSN := (p.dataSN + 1) % SERIAL, offset := p.offset + |p.data|);
      assert (cs + [c])[i := d] == cs[i := d] + [c];
    }
  }

  lemma {:induction false} IndexMore(cs: seq<Cursor>, c: Cursor, tag: nat)
    requires tag != c.tag
    ensures IndexOf(cs + [c], tag) == if IndexOf(cs, tag) < |cs| then IndexOf(cs, tag) else |cs| + 1
  {
    if cs == [] {
      assert [] + [c] == [c] && IndexOf([c][1..], tag) == 0;
    } else {
      assert (cs + [c])[0] == cs[0] && (cs + [c])[1..] == cs[1..] + [c];
      IndexMore(cs[1..], c, tag);
    }
  }

  // ---------------------------------------------------------------- what arrives

  function Octets(ps: seq<Pdu>): seq<byte>
    requires forall i | 0 <= i < |ps| :: ps[i].DataOut?
  {
    if ps == [] then [] else ps[0].data + Octets(ps[1..])
  }

  lemma {:induction false} OwnAreDataOut(tag: nat, ps: seq<Pdu>)
    ensures forall i | 0 <= i < |OwnPdus(tag, ps)| :: OwnPdus(tag, ps)[i].DataOut?
  {
    if ps != [] {
      OwnAreDataOut(tag, ps[1..]);
    }
  }

  function OwnOctets(tag: nat, ps: seq<Pdu>): seq<byte> {
    OwnAreDataOut(tag, ps);
    Octets(OwnPdus(tag, ps))
  }

  lemma {:induction false} OwnConcat(tag: nat, a: seq<Pdu>, b: seq<Pdu>)
    ensures OwnOctets(tag, a + b) == OwnOctets(tag, a) + OwnOctets(tag, b)
  {
    hide OwnOctets;
    if a == [] {
      OwnNone(tag);
      assert a + b == b && [] + OwnOctets(tag, b) == OwnOctets(tag, b);
    } else {
      OwnConcat(tag, a[1..], b);
      assert (a + b)[0] == a[0] && (a + b)[1..] == a[1..] + b;
      OwnCons(tag, a);
      OwnCons(tag, a + b);
      var first := if Mine(tag, a[0]) then a[0].data else [];
      assert first + (OwnOctets(tag, a[1..]) + OwnOctets(tag, b)) == first + OwnOctets(tag, a[1..]) + OwnOctets(tag, b);
    }
  }

  lemma OwnNone(tag: nat)
    ensures OwnOctets(tag, []) == []
  {
  }

  lemma OwnCons(tag: nat, ps: seq<Pdu>)
    requires ps != []
    ensures OwnOctets(tag, ps) == (if Mine(tag, ps[0]) then ps[0].data else []) + OwnOctets(tag, ps[1..])
  {
    OwnAreDataOut(tag, ps[1..]);
    if Mine(tag, ps[0]) {
      assert OwnPdus(tag, ps)[1..] == OwnPdus(tag, ps[1..]);
    } else {
      assert OwnPdus(tag, ps) == OwnPdus(tag, ps[1..]);
      assert [] + OwnOctets(tag, ps[1..]) == OwnOctets(tag, ps[1..]);
    }
  }

  /** The octets a history received for a command are those of its own PDUs. */
  lemma {:induction false} ReceivedIs(tag: nat, tr: seq<Event>)
    ensures Received(tag, tr) == OwnOctets(tag, Pdus(tr))
  {
    if tr != [] {
      var e, before := tr[|tr| - 1], tr[..|tr| - 1];
      ReceivedIs(tag, before);
      if e.Got? {
        OwnConcat(tag, Pdus(before), [e.pdu]);
        OwnCons(tag, [e.pdu]);
      }
    }
  }

  /** Data-Out PDUs that carry the given octets. */
  predicate Carries(ps: seq<Pdu>, octets: seq<byte>) {
    (forall i | 0 <= i < |ps| :: ps[i].DataOut?) && Octets(ps) == octets
  }

  lemma {:induction false} CarriesConcat(a: seq<Pdu>, b: seq<Pdu>, x: seq<byte>, y: seq<byte>)
    requires Carries(a, x) && Carries(b, y)
    ensures Carries(a + b, x + y)
  {
    if a == [] {
      assert a + b == b && [] + y == y;
    } else {
      var tail := Octets(a[1..]);
      CarriesConcat(a[1..], b, tail, y);
      assert (a + b)[0] == a[0] && (a + b)[1..] == a[1..] + b;
      assert a[0].data + (tail + y) == a[0].data + tail + y;
    }
  }

  lemma CarriesOne(p: Pdu)
    requires p.DataOut?
    ensures Carries([p], p.data) && Carries([], [])
  {
    assert [p][1..] == [] && p.data + [] == p.data;
  }

  lemma {:induction false} BurstOctets(k: Terms, payload: seq<byte>, from: nat, to: nat, cut: nat -> nat, sn: nat)
    requires from < to <= |payload|
    ensures Carries(Burst(k, k.tag, payload, from, to, cut, sn), payload[from..to])
    decreases |payload| - from
  {
    hide Carries;
    var next := SegmentEnd(cut, from, to);
    var p := DataOut(next == to, k.tag, k.tag, sn, from, payload[from..next]);
    CarriesOne(p);
    if next < to {
      var later := Burst(k, k.tag, payload, next, to, cut, (sn + 1) % SERIAL);
      BurstOctets(k, payload, next, to, cut, (sn + 1) % SERIAL);
      CarriesConcat([p], later, payload[from..next], payload[next..to]);
      assert payload[from..to] == payload[from..next] + payload[next..to];
    } else {
      assert [p] + [] == [p];
    }
  }

  lemma {:induction false} BurstsOctets(k: Terms, payload: seq<byte>, from: nat, cut: nat -> nat)
    requires from <= |payload| && k.maxBurst > 0
    ensures Carries(Bursts(k, payload, from, cut), payload[from..])
    decreases |payload| - from, 1
  {
    if from < |payload| {
      hide Burst, Carries;
      TwoParts(k, payload, from, Min(from + k.maxBurst, |payload|), cut, 0);
    }
  }

  /** A burst and the ones behind it carry everything from its start on. */
  lemma {:induction false} TwoParts(k: Terms, payload: seq<byte>, from: nat, to: nat, cut: nat -> nat, sn: nat)
    requires from < to <= |payload| && k.maxBurst > 0
    ensures Carries(Burst(k, k.tag, payload, from, to, cut, sn) + Bursts(k, payload, to, cut), payload[from..])
    decreases |payload| - from, 0
  {
    hide Burst, Bursts, Carries;
    var first, later := Burst(k, k.tag, payload, from, to, cut, sn), Bursts(k, payload, to, cut);
    BurstOctets(k, payload, from, to, cut, sn);
    BurstsOctets(k, payload, to, cut);
    CarriesConcat(first, later, payload[from..to], payload[to..]);
    assert payload[from..] == payload[from..to] + payload[to..];
  }

  /** The bursts of a write, from its start or resumed, carry exactly the part of the payload that is not there yet. */
  lemma ConversationOctets(k: Terms, payload: seq<byte>, from: nat, dataSN: nat, cut: nat -> nat)
    requires from <= |payload| && k.maxBurst > 0
    ensures Carries(Bursts(k, payload, from, cut), payload[from..])
    ensures Carries(Remaining(k, payload, from, dataSN, cut), payload[from..])
  {
    hide Burst, Bursts, Carries;
    BurstsOctets(k, payload, from, cut);
    var to := Min(k.firstBurst + k.maxBurst, |payload|);
    if from < to {
      TwoParts(k, payload, from, to, cut, dataSN);
    }
  }

  /** However many of the PDUs were taken, the octets that make up the length are the missing part of the payload. */
  lemma TakenOctets(tag: nat, talk: seq<Pdu>, rest: seq<Pdu>, news: seq<Pdu>, left: seq<Pdu>, part: seq<byte>)
    requires talk + rest == news + left && OwnOctets(tag, talk) == part && |OwnOctets(tag, news)| == |part|
    ensures OwnOctets(tag, news) == part
  {
    if |news| <= |talk| {
      assert talk == news + talk[|news|..] by {
        assert talk == (news + left)[..|talk|];
      }
      OwnConcat(tag, news, talk[|news|..]);
    } else {
      assert news == talk + news[|talk|..] by {
        assert news == (talk + rest)[..|news|];
      }
      OwnConcat(tag, talk, news[|talk|..]);
    }
  }
}
