/**
 The read side of a command: its data is cut into Data-In PDUs, and exactly one
 PDU, the last Data-In or a separate response, carries the status. Section 10.7
 of RFC 3720.
 */
module DataIn {
  import opened Bytes
  import opened CommandWindow
  import opened Numbers

  const GOOD := 0x00
  const CONDITION_MET := 0x04
  const INTERMEDIATE := 0x10
  const INTERMEDIATE_CONDITION_MET := 0x14

  datatype Command = Command(taskTag: nat, immediate: bool, read: bool, transferLen: nat,
                             data: seq<byte>, status: nat, sense: seq<byte>)

  datatype OutPdu =
    | DataInPdu(f: bool, s: bool, overflow: bool, underflow: bool, status: nat, taskTag: nat,
                statSN: serial, expCmdSN: serial, maxCmdSN: serial, dataSN: nat, offset: nat, residual: nat,
                data: seq<byte>)
    | Response(overflow: bool, underflow: bool, status: nat, taskTag: nat,
               statSN: serial, expCmdSN: serial, maxCmdSN: serial, residual: nat, data: seq<byte>)

  /** The octets that go out: what the unit produced, as far as the initiator asked for it. */
  function DataToSend(cmd: Command): seq<byte> {
    cmd.data[..Min(|cmd.data|, cmd.transferLen)]
  }

  /** The status may ride on the last Data-In. */
  predicate StatusInData(cmd: Command) {
    cmd.sense == [] && (cmd.status == GOOD || cmd.status == CONDITION_MET || cmd.status == INTERMEDIATE
                        || cmd.status == INTERMEDIATE_CONDITION_MET)
  }

  predicate HasStatus(p: OutPdu) {
    p.Response? || p.s
  }

  /** Where segment i starts. */
  function Place(i: nat, segmentLen: nat): nat {
    if i == 0 then 0 else Place(i - 1, segmentLen) + segmentLen
  }

  /** PDU i of a run that sends data in segments: its number, place, octets and F bit. */
  predicate Segment(p: OutPdu, i: nat, data: seq<byte>, segmentLen: nat) {
    && p.DataInPdu?
    && p.dataSN == i % SERIAL
    && p.offset == Place(i, segmentLen) < |data|
    && p.data == data[p.offset..Min(p.offset + segmentLen, |data|)]
    && 0 < |p.data| <= segmentLen
    && (p.f <==> p.offset + segmentLen >= |data|)
  }

  predicate Segments(ps: seq<OutPdu>, data: seq<byte>, segmentLen: nat) {
    forall i | 0 <= i < |ps| :: Segment(ps[i], i, data, segmentLen)
  }

  /** All of the data is out. */
  predicate Complete(ps: seq<OutPdu>, data: seq<byte>, segmentLen: nat) {
    Segments(ps, data, segmentLen) && Place(|ps|, segmentLen) >= |data|
  }

  function Payload(ps: seq<OutPdu>): seq<byte> {
    if ps == [] then [] else Payload(ps[..|ps| - 1]) + ps[|ps| - 1].data
  }

  /** Segments sent one after the other tile the data: no octet is missing, repeated or out of order. */
  lemma {:induction false} SegmentsTile(ps: seq<OutPdu>, data: seq<byte>, segmentLen: nat)
    requires segmentLen > 0 && Segments(ps, data, segmentLen)
    ensures Payload(ps) == data[..Min(Place(|ps|, segmentLen), |data|)]
    decreases |ps|
  {
    if ps != [] {
      var before, last, n := ps[..|ps| - 1], ps[|ps| - 1], |ps| - 1;
      assert Segments(before, data, segmentLen);
      assert Segment(last, n, data, segmentLen);
      hide Segments, Segment;
      SegmentsTile(before, data, segmentLen);
      var a, b := Place(n, segmentLen), Min(Place(n + 1, segmentLen), |data|);
      assert Payload(before) == data[..a];
      assert last.data == data[a..b];
      TakeMore(data, a, b);
    }
  }

  lemma TakeMore(data: seq<byte>, a: nat, b: nat)
    requires a <= b <= |data|
    ensures data[..a] + data[a..b] == data[..b]
  {
  }

  lemma {:induction false} PlaceIs(i: nat, segmentLen: nat)
    ensures Place(i, segmentLen) == i * segmentLen
  {
    if i != 0 {
      PlaceIs(i - 1, segmentLen);
      assert (i - 1) * segmentLen + segmentLen == i * segmentLen;
    }
  }

  /** A complete run tiles all of the data in full segments, numbered from 0, and only its last PDU has F. */
  lemma CompleteRun(ps: seq<OutPdu>, data: seq<byte>, segmentLen: nat)
    requires segmentLen > 0 && Complete(ps, data, segmentLen)
    ensures Payload(ps) == data
    ensures forall i | 0 <= i < |ps| :: ps[i].DataInPdu? && (ps[i].f <==> i == |ps| - 1)
    ensures forall i | 0 <= i < |ps| :: ps[i].dataSN == i % SERIAL && ps[i].offset == i * segmentLen
                                        && (i < |ps| - 1 ==> |ps[i].data| == segmentLen)
  {
    hide Payload;
    SegmentsTile(ps, data, segmentLen);
    assert data[..|data|] == data;
    forall i | 0 <= i < |ps|
      ensures ps[i].DataInPdu? && (ps[i].f <==> i == |ps| - 1)
      ensures ps[i].dataSN == i % SERIAL && ps[i].offset == i * segmentLen
      ensures i < |ps| - 1 ==> |ps[i].data| == segmentLen
    {
      OnlyLastHasF(ps, data, segmentLen, i);
      PlaceIs(i, segmentLen);
    }
  }

  lemma OnlyLastHasF(ps: seq<OutPdu>, data: seq<byte>, segmentLen: nat, i: nat)
    requires segmentLen > 0 && Complete(ps, data, segmentLen) && i < |ps|
    ensures ps[i].DataInPdu? && (ps[i].f <==> i == |ps| - 1)
    ensures ps[i].dataSN == i % SERIAL && ps[i].offset == Place(i, segmentLen)
    ensures i < |ps| - 1 ==> |ps[i].data| == segmentLen
  {
    assert Segment(ps[i], i, data, segmentLen);
    if i < |ps| - 1 {
      assert Segment(ps[i + 1], i + 1, data, segmentLen);
    }
  }

  lemma SliceOfPrefix<T>(s: seq<T>, m: nat, a: nat, b: nat)
    requires a <= b <= m <= |s|
    ensures s[..m][a..b] == s[a..b]
  {
  }

  lemma NextMod(n: nat)
    ensures (n % SERIAL + 1) % SERIAL == (n + 1) % SERIAL
  {
  }

  class Responder {
    const session: Session
    const segmentLen: nat
    var out: seq<OutPdu>

    constructor (session: Session, segmentLen: nat)
      requires segmentLen > 0
      ensures this.session == session && this.segmentLen == segmentLen && out == []
    {
      this.session, this.segmentLen, out := session, segmentLen, [];
    }

    /** The body of the splitting loop: PDU n, with the status if it is the last and may carry it. */
    method SendSegment(cmd: Command, ghost n: nat, dataSN: nat, offset: nat, transferLen: nat,
                       overflow: bool, underflow: bool, residual: nat) returns (sentStatus: bool, ghost p: OutPdu)
      requires segmentLen > 0 && (cmd.immediate || session.open > 0)
      requires transferLen == |DataToSend(cmd)| && offset == Place(n, segmentLen) < transferLen && dataSN == n % SERIAL
      requires overflow <==> |cmd.data| > cmd.transferLen
      requires underflow <==> |cmd.data| < cmd.transferLen
      requires residual == if underflow then cmd.transferLen - |cmd.data| else |cmd.data| - cmd.transferLen
      modifies this`out, session`stat, session`max, session`open
      ensures out == old(out) + [p] && Segment(p, n, DataToSend(cmd), segmentLen) && p.taskTag == cmd.taskTag
      ensures sentStatus <==> offset + segmentLen >= transferLen && StatusInData(cmd)
      ensures HasStatus(p) <==> sentStatus
      ensures !sentStatus ==> session.Now() == old(session.Now())
      ensures sentStatus ==> Step(old(session.Now()), Built(cmd.immediate)) == Goes(session.Now())
      ensures sentStatus ==> CarriesStatus(p, cmd, old(session.stat), session.exp, session.max)
    {
      var len := Min(segmentLen, transferLen - offset);
      var f := offset + len == transferLen;
      sentStatus := f && StatusInData(cmd);
      var statSN: serial := 0;
      if sentStatus {
        statSN := session.TakeStatus(cmd.immediate);
      }
      var pdu := DataInPdu(f, sentStatus, sentStatus && overflow, sentStatus && underflow,
                           if sentStatus then cmd.status else 0, cmd.taskTag,
                           statSN, session.exp, session.max, dataSN, offset, if sentStatus then residual else 0,
                           cmd.data[offset..offset + len]);
      out := out + [pdu];
      p := pdu;
      SliceOfPrefix(cmd.data, transferLen, offset, offset + len);
    }

    /** istgt_iscsi_transfer_in_internal: 1 when the last PDU carried the status, else 0. */
    method TransferIn(cmd: Command) returns (rc: int, ghost ps: seq<OutPdu>)
      requires segmentLen > 0 && (cmd.immediate || session.open > 0)
      modifies this`out, session`stat, session`max, session`open
      ensures out == old(out) + ps && Complete(ps, DataToSend(cmd), segmentLen)
      ensures rc == if |cmd.data| > 0 && cmd.transferLen > 0 && cmd.sense == []
                       && cmd.status in {0x00, 0x04, 0x10, 0x14} then 1 else 0
      ensures forall i | 0 <= i < |ps| :: ps[i].DataInPdu? && ps[i].taskTag == cmd.taskTag
      ensures forall i | 0 <= i < |ps| :: HasStatus(ps[i]) <==> i == |ps| - 1 && rc == 1
      ensures rc == 0 ==> session.Now() == old(session.Now())
      ensures rc == 1 ==> Step(old(session.Now()), Built(cmd.immediate)) == Goes(session.Now())
      ensures rc == 1 ==> ps != [] && CarriesStatus(ps[|ps| - 1], cmd, old(session.stat), session.exp, session.max)
    {
      hide Step, Segment, CarriesStatus;
      var transferLen, dataLen := cmd.transferLen, |cmd.data|;
      var overflow, underflow, residual := false, false, 0;
      if dataLen < transferLen {
        residual := transferLen - dataLen;
        transferLen := dataLen;
        underflow := true;
      } else if dataLen > transferLen {
        residual := dataLen - transferLen;
        overflow := true;
      }
      var dataSN, sentStatus, offset := 0, false, 0;
      ghost var out0 := out;
      ps := [];
      while offset < transferLen
        invariant offset == Place(|ps|, segmentLen) && dataSN == |ps| % SERIAL && out == out0 + ps
        invariant Segments(ps, DataToSend(cmd), segmentLen) && (ps != [] ==> transferLen > 0)
        invariant sentStatus <==> ps != [] && offset >= transferLen && StatusInData(cmd)
        invariant forall i | 0 <= i < |ps| :: ps[i].DataInPdu? && ps[i].taskTag == cmd.taskTag
        invariant forall i | 0 <= i < |ps| :: HasStatus(ps[i]) <==> i == |ps| - 1 && sentStatus
        invariant !sentStatus ==> session.Now() == old(session.Now())
        invariant sentStatus ==> Step(old(session.Now()), Built(cmd.immediate)) == Goes(session.Now())
        invariant sentStatus ==> CarriesStatus(ps[|ps| - 1], cmd, old(session.stat), session.exp, session.max)
      {
        ghost var p;
        sentStatus, p := SendSegment(cmd, |ps|, dataSN, offset, transferLen, overflow, underflow, residual);
        IsDataIn(p, |ps|, DataToSend(cmd), segmentLen);
        NextMod(|ps|);
        dataSN := (dataSN + 1) % SERIAL;
        offset := offset + segmentLen;
        ps := ps + [p];
      }
      assert Place(0, segmentLen) == 0 && |DataToSend(cmd)| == transferLen;
      return if sentStatus then 1 else 0, ps;
    }

    static lemma IsDataIn(p: OutPdu, i: nat, data: seq<byte>, segmentLen: nat)
      requires Segment(p, i, data, segmentLen)
      ensures p.DataInPdu?
    {
    }

    /**
     istgt_iscsi_task_response: the data if there is any to send, then a response
     unless the last Data-In already carried the status.
     */
    method TaskResponse(cmd: Command) returns (ghost ps: seq<OutPdu>)
      requires segmentLen > 0 && (cmd.immediate || session.open > 0)
      modifies this`out, session`stat, session`max, session`open
      ensures out == old(out) + ps && ps != []
      ensures forall i | 0 <= i < |ps| :: (ps[i].Response? || ps[i].s) <==> i == |ps| - 1
      ensures var p, short := ps[|ps| - 1], cmd.transferLen - |cmd.data|;
        && p.status == cmd.status && p.taskTag == cmd.taskTag && (p.Response? ==> p.data == cmd.sense)
        && p.statSN == old(session.stat) && p.expCmdSN == session.exp && p.maxCmdSN == session.max
        && (p.underflow <==> cmd.status == 0x00 && short > 0) && (p.overflow <==> cmd.status == 0x00 && short < 0)
        && p.residual == if cmd.status != 0x00 then 0 else if short >= 0 then short else -short
      ensures session.stat == Plus(old(session.stat), 1) && session.exp == old(session.exp)
      ensures session.max == if cmd.immediate then old(session.max) else Plus(old(session.max), 1)
      ensures Step(old(session.Now()), Built(cmd.immediate)) == Goes(session.Now())
      ensures var d, k := DataPart(ps), Min(|cmd.data|, cmd.transferLen);
              if cmd.read && (cmd.status == 0x00 || cmd.sense != [])
              then Payload(d) == cmd.data[..k] && Complete(d, cmd.data[..k], segmentLen) else d == []
      ensures ps[|ps| - 1].DataInPdu? <==>
        cmd.read && cmd.status == 0x00 && cmd.sense == [] && cmd.data != [] && cmd.transferLen > 0
    {
      hide Step, Segment, Place, Payload, Plus, CarriesStatus;
      ps := [];
      if cmd.read && (cmd.status == GOOD || |cmd.sense| != 0) {
        var rc;
        rc, ps := TransferIn(cmd);
        CompleteRun(ps, DataToSend(cmd), segmentLen);
        if rc > 0 {
          BuiltMoves(old(session.Now()), cmd.immediate);
          FinalFields(ps[|ps| - 1], cmd, old(session.stat), session.exp, session.max);
          return;
        }
      }
      ghost var p := SendResponse(cmd);
      NoPayload();
      FinalFields(p, cmd, old(session.stat), session.exp, session.max);
      BuiltMoves(old(session.Now()), cmd.immediate);
      ps := ps + [p];
    }

    /** The SCSI Response of its end. */
    method SendResponse(cmd: Command) returns (ghost p: OutPdu)
      requires cmd.immediate || session.open > 0
      modifies this`out, session`stat, session`max, session`open
      ensures out == old(out) + [p] && p.Response?
      ensures CarriesStatus(p, cmd, old(session.stat), session.exp, session.max)
      ensures Step(old(session.Now()), Built(cmd.immediate)) == Goes(session.Now())
    {
      hide Step, CarriesStatus;
      var overflow, underflow, residual := false, false, 0;
      if cmd.status == GOOD {
        if |cmd.data| < cmd.transferLen {
          residual := cmd.transferLen - |cmd.data|;
          underflow := true;
        } else if |cmd.data| > cmd.transferLen {
          residual := |cmd.data| - cmd.transferLen;
          overflow := true;
        }
      }
      var statSN := session.TakeStatus(cmd.immediate);
      var pdu := Response(overflow, underflow, cmd.status, cmd.taskTag,
                        statSN, session.exp, session.max, residual, cmd.sense);
      ResponseCarries(pdu, cmd, statSN, session.exp, session.max);
      out := out + [pdu];
      p := pdu;
    }

    static lemma FinalFields(p: OutPdu, cmd: Command, statSN: serial, exp: serial, max: serial)
      requires CarriesStatus(p, cmd, statSN, exp, max) && (p.DataInPdu? ==> cmd.status == GOOD)
      ensures p.status == cmd.status && p.taskTag == cmd.taskTag && (p.Response? ==> p.data == cmd.sense)
      ensures p.statSN == statSN && p.expCmdSN == exp && p.maxCmdSN == max
      ensures var short := cmd.transferLen - |cmd.data|;
        && (p.underflow <==> cmd.status == 0x00 && short > 0) && (p.overflow <==> cmd.status == 0x00 && short < 0)
        && p.residual == if cmd.status != 0x00 then 0 else if short >= 0 then short else -short
    {
    }

    static lemma ResponseCarries(p: OutPdu, cmd: Command, statSN: serial, exp: serial, max: serial)
      requires p.Response? && p.status == cmd.status && p.taskTag == cmd.taskTag && p.data == cmd.sense
      requires p.statSN == statSN && p.expCmdSN == exp && p.maxCmdSN == max
      requires p.underflow <==> cmd.status == GOOD && |cmd.data| < cmd.transferLen
      requires p.overflow <==> cmd.status == GOOD && |cmd.data| > cmd.transferLen
      requires p.residual == if p.underflow then cmd.transferLen - |cmd.data|
                             else if p.overflow then |cmd.data| - cmd.transferLen else 0
      ensures CarriesStatus(p, cmd, statSN, exp, max)
    {
    }
  }

  lemma NoPayload()
    ensures Payload([]) == []
  {
  }

  /** The Data-In PDUs of an answer: all of it, or all but the response at its end. */
  function DataPart(ps: seq<OutPdu>): seq<OutPdu> {
    if ps != [] && ps[|ps| - 1].Response? then ps[..|ps| - 1] else ps
  }

  /** The fields of the PDU that completes a command: status, next StatSN, new window and residual count. */
  ghost predicate CarriesStatus(p: OutPdu, cmd: Command, statSN: serial, exp: serial, max: serial) {
    && HasStatus(p) && p.status == cmd.status && p.taskTag == cmd.taskTag
    && p.statSN == statSN && p.expCmdSN == exp && p.maxCmdSN == max
    && (p.Response? ==> p.data == cmd.sense)
    && (cmd.status == GOOD || p.DataInPdu? ==>
          && (p.underflow <==> |cmd.data| < cmd.transferLen) && (p.overflow <==> |cmd.data| > cmd.transferLen)
          && p.residual == if p.underflow then cmd.transferLen - |cmd.data| else |cmd.data| - cmd.transferLen)
    && (cmd.status != GOOD && p.Response? ==> !p.underflow && !p.overflow && p.residual == 0)
  }
}
