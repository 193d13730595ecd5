/**
 The Data-Out side of a connection: the table of R2T tasks that the command
 handler and the Data-Out handler share, and the receive loop of a write that
 hands PDUs of other commands to the Data-Out handler.
 */
module DataOut {
  import opened Bytes
  import opened Names
  import opened Numbers
  import opened Reception
  import opened TransferTrace

  const IOBUF_SLACK := 65536

  /** The command PDU of a write, as far as the transfer needs it. */
  datatype Command = Command(cmdSN: nat, taskTag: nat, transferLen: nat, f: bool, immediate: seq<byte>)

  class R2tTask {
    const cmdSN: nat
    const taskTag: nat
    const transferTag: nat
    const transferLen: nat
    const iobuf: array<byte>
    var offset: nat
    var r2tSN: nat
    var dataSN: nat
    var fBit: bool
    ghost const command: Command
    ghost const start: nat

    constructor (cmd: Command, ghost start: nat)
      requires |cmd.immediate| <= cmd.transferLen
      ensures command == cmd && this.start == start && cmdSN == cmd.cmdSN
      ensures taskTag == transferTag == cmd.taskTag && transferLen == cmd.transferLen
      ensures fresh(iobuf) && iobuf.Length == cmd.transferLen + IOBUF_SLACK
      ensures offset == |cmd.immediate| && iobuf[..offset] == cmd.immediate
      ensures r2tSN == 0 && dataSN == 0 && fBit == cmd.f
    {
      cmdSN, taskTag, transferTag, transferLen := cmd.cmdSN, cmd.taskTag, cmd.taskTag, cmd.transferLen;
      iobuf := new byte[cmd.transferLen + IOBUF_SLACK];
      offset, r2tSN, dataSN, fBit := |cmd.immediate|, 0, 0, cmd.f;
      command, this.start := cmd, start;
      new;
      forall i | 0 <= i < |cmd.immediate| {
        iobuf[i] := cmd.immediate[i];
      }
      assert iobuf[..offset] == cmd.immediate;
    }
  }

  class Connection {
    // negotiated
    const maxR2t: nat
    const firstBurst: nat
    const maxBurst: nat
    const initialR2t: bool
    const maxPending: nat

    // the table: r2tTasks[..pending], with one slot to spare
    const r2tTasks: array<R2tTask?>
    var pending: nat

    // the socket, PDU by PDU, and the queue of PDUs put aside
    var input: seq<Pdu>
    var pendingPdus: seq<Pdu>
    var rejected: seq<Pdu>

    ghost var tasks: seq<R2tTask>
    ghost var trace: seq<Event>

    ghost predicate Table()
      reads this, r2tTasks
    {
      && pending == |tasks| <= maxR2t && r2tTasks.Length == maxR2t + 1 && maxBurst > 0
      && (forall i | 0 <= i < pending :: r2tTasks[i] == tasks[i])
      && (forall t | t in tasks :: t.taskTag == t.transferTag && (t.iobuf as object) != r2tTasks)
      && (forall i, j | 0 <= i < j < |tasks| ::
            tasks[i] != tasks[j] && tasks[i].iobuf != tasks[j].iobuf && tasks[i].transferTag != tasks[j].transferTag)
    }

    /** The terms of a write that goes into a buffer of the given size. */
    ghost function TermsOf(tag: nat, transferLen: nat, room: nat): Terms {
      Terms(tag, transferLen, room, firstBurst, maxBurst, initialR2t, maxPending)
    }

    /** Where the commands of the table stand. */
    ghost function Cursors(): seq<Cursor>
      reads this`tasks, tasks
    {
      CursorsOf(tasks)
    }

    static ghost function CursorsOf(ts: seq<R2tTask>): (cs: seq<Cursor>)
      reads ts
      ensures |cs| == |ts| && forall i | 0 <= i < |ts| :: cs[i] == CursorOf(ts[i])
    {
      seq(|ts|, i requires 0 <= i < |ts| reads ts => CursorOf(ts[i]))
    }

    static ghost function CursorOf(t: R2tTask): Cursor
      reads t
    {
      Cursor(t.transferTag, t.dataSN, t.offset, t.iobuf.Length)
    }

    ghost function ContextOf(cmd: Command, limit: nat): Context {
      Context(cmd.taskTag, cmd.immediate, limit, firstBurst, maxBurst, initialR2t)
    }

    /** What the table entry of a command records about the history since the command. */
    ghost predicate Consistent(t: R2tTask, tr: seq<Event>)
      reads t, t.iobuf
    {
      && t.start <= |tr|
      && t.taskTag == t.transferTag == t.command.taskTag && t.transferLen == t.command.transferLen
      && t.iobuf.Length == t.transferLen + IOBUF_SLACK
      && firstBurst <= |t.command.immediate| < t.transferLen
      && t.offset <= t.iobuf.Length
      && t.iobuf[..t.offset] == t.command.immediate + Received(t.taskTag, tr[t.start..])
      && t.r2tSN == R2ts(t.taskTag, tr[t.start..]) == 1
      && t.dataSN == SinceR2t(t.taskTag, tr[t.start..]) % SERIAL
      && t.fBit == LastF(t.taskTag, t.command.f, tr[t.start..])
      && Owed(t.taskTag, tr[t.start..])
         == Min(maxBurst, t.transferLen - |t.command.immediate|) - |Received(t.taskTag, tr[t.start..])|
      && Disciplined(ContextOf(t.command, t.transferLen), tr[t.start..])
      && Ordered(ContextOf(t.command, t.transferLen), tr[t.start..])
    }

    ghost predicate Valid()
      reads this, r2tTasks, tasks, set t | t in tasks :: t.iobuf
    {
      Table() && forall t | t in tasks :: Consistent(t, trace)
    }

    constructor (maxR2t: nat, firstBurst: nat, maxBurst: nat, initialR2t: bool, maxPending: nat, input: seq<Pdu>)
      requires maxBurst > 0
      ensures Valid() && tasks == [] && trace == [] && fresh(r2tTasks)
      ensures this.input == input && pendingPdus == [] && rejected == []
      ensures this.maxR2t == maxR2t && this.firstBurst == firstBurst && this.maxBurst == maxBurst
      ensures this.initialR2t == initialR2t && this.maxPending == maxPending
    {
      this.maxR2t, this.firstBurst, this.maxBurst := maxR2t, firstBurst, maxBurst;
      this.initialR2t, this.maxPending := initialR2t, maxPending;
      r2tTasks := new R2tTask?[maxR2t + 1](_ => null);
      pending, this.input, pendingPdus, rejected := 0, input, [], [];
      tasks, trace := [], [];
    }

    /** An event of another command keeps a table entry consistent. */
    lemma KeptByOthers(t: R2tTask, tr: seq<Event>, e: Event)
      requires Consistent(t, tr) && !Asks(t.taskTag, e) && !Addressed(t.taskTag, e)
      ensures Consistent(t, tr + [e])
    {
      var c := ContextOf(t.command, t.transferLen);
      Extend(tr, e, t.start);
      Unrelated(c, t.command.f, tr[t.start..], e);
    }

    lemma AllKept(e: Event)
      requires Valid()
      requires forall t | t in tasks :: !Asks(t.taskTag, e) && !Addressed(t.taskTag, e)
      ensures forall t | t in tasks :: Consistent(t, trace + [e])
    {
      forall t | t in tasks
        ensures Consistent(t, trace + [e])
      {
        KeptByOthers(t, trace, e);
      }
    }

    // ---------------------------------------------------------------- the table

    /** istgt_get_transfer_task: the index of the first entry with a transfer tag, or -1. */
    method GetTransferTask(transferTag: nat) returns (idx: int)
      requires Table()
      ensures -1 <= idx < pending
      ensures idx >= 0 ==> tasks[idx].transferTag == transferTag
      ensures idx == -1 ==> forall t | t in tasks :: t.transferTag != transferTag
    {
      for i := 0 to pending
        invariant forall k | 0 <= k < i :: tasks[k].transferTag != transferTag
      {
        if r2tTasks[i].transferTag == transferTag {
          return i;
        }
      }
      return -1;
    }

    /** The shift that closes the gap of a removed entry. */
    method RemoveAt(idx: nat)
      requires Table() && idx < pending
      modifies this`pending, this`tasks, r2tTasks
      ensures Table() && tasks == old(tasks)[..idx] + old(tasks)[idx + 1..]
    {
      var i := idx;
      while i < pending
        invariant idx <= i <= pending && unchanged(this)
        invariant forall k | 0 <= k < idx :: r2tTasks[k] == old(r2tTasks[k])
        invariant forall k | idx <= k < i :: r2tTasks[k] == old(r2tTasks[k + 1])
        invariant forall k | i <= k <= maxR2t :: r2tTasks[k] == old(r2tTasks[k])
      {
        r2tTasks[i] := r2tTasks[i + 1];
        i := i + 1;
      }
      pending := pending - 1;
      r2tTasks[pending] := null;
      tasks := tasks[..idx] + tasks[idx + 1..];
    }

    /** istgt_del_transfer_task: an entry, found by identity, goes. */
    method DelTransferTask(t: R2tTask, ghost k: nat)
      requires Valid() && k < |tasks| && tasks[k] == t
      modifies this`pending, this`tasks, r2tTasks
      ensures Valid() && tasks == old(tasks)[..k] + old(tasks)[k + 1..]
    {
      hide Consistent;
      for i := 0 to pending
        invariant unchanged(this) && unchanged(r2tTasks)
        invariant i <= k
      {
        if r2tTasks[i] == t {
          RemoveAt(i);
          forall u | u in tasks
            ensures Consistent(u, trace)
          {
            assert u in old(tasks);
          }
          return;
        }
      }
    }

    /** istgt_clear_transfer_task: the first entry with a CmdSN goes, the others keep their order. */
    method ClearTransferTask(cmdSN: nat) returns (ghost idx: int)
      requires Valid()
      modifies this`pending, this`tasks, r2tTasks
      ensures Valid() && -1 <= idx < |old(tasks)|
      ensures idx == -1 ==> tasks == old(tasks) && forall t | t in tasks :: t.cmdSN != cmdSN
      ensures idx >= 0 ==> old(tasks)[idx].cmdSN == cmdSN && (forall k | 0 <= k < idx :: old(tasks)[k].cmdSN != cmdSN)
                           && tasks == old(tasks)[..idx] + old(tasks)[idx + 1..]
    {
      hide Consistent;
      idx := -1;
      for i := 0 to pending
        invariant forall k | 0 <= k < i :: tasks[k].cmdSN != cmdSN
        invariant Valid() && unchanged(this) && unchanged(r2tTasks)
      {
        if r2tTasks[i].cmdSN == cmdSN {
          RemoveAt(i);
          idx := i;
          forall t | t in tasks
            ensures Consistent(t, trace)
          {
            assert t in old(tasks);
          }
          return;
        }
      }
    }

    /** istgt_clear_all_transfer_task */
    method ClearAllTransferTasks()
      requires Valid()
      modifies this`pending, this`tasks, r2tTasks
      ensures Valid() && tasks == []
    {
      for i := 0 to pending
        invariant unchanged(this)
      {
        r2tTasks[i] := null;
      }
      pending, tasks := 0, [];
    }

    /** istgt_iscsi_send_r2t: the R2T goes out and the counter advances. */
    method SendR2t(taskTag: nat, transferTag: nat, offset: nat, len: nat, r2tSN: nat) returns (next: nat)
      modifies this`trace
      ensures trace == old(trace) + [Asked(taskTag, transferTag, r2tSN, offset, len)]
      ensures next == (r2tSN + 1) % SERIAL
    {
      trace := trace + [Asked(taskTag, transferTag, r2tSN, offset, len)];
      next := (r2tSN + 1) % SERIAL;
    }

    /** A new entry, right after its first R2T. */
    lemma NewEntry(t: R2tTask, tr: seq<Event>, e: Event)
      requires t.start == |tr| && firstBurst <= |t.command.immediate| < t.transferLen && maxBurst > 0
      requires t.taskTag == t.transferTag == t.command.taskTag && t.transferLen == t.command.transferLen
      requires t.iobuf.Length == t.transferLen + IOBUF_SLACK
      requires t.offset == |t.command.immediate| && t.iobuf[..t.offset] == t.command.immediate
      requires t.r2tSN == 1 && t.dataSN == 0 && t.fBit == t.command.f
      requires e == Asked(t.taskTag, t.taskTag, 0, t.offset, Min(maxBurst, t.transferLen - t.offset))
      ensures Consistent(t, tr + [e])
    {
      var c := ContextOf(t.command, t.transferLen);
      Extend(tr, e, |tr|);
      assert tr[|tr|..] == [];
      Requested(c, t.command.f, [], e);
      assert t.command.immediate + [] == t.command.immediate;
    }

    /**
     istgt_add_transfer_task: a command with more to come than its immediate data
     gets a table entry and its first R2T, if there is room and nothing more may
     come unsolicited.
     */
    method AddTransferTask(cmd: Command) returns (ghost entry: R2tTask?)
      requires Valid() && |cmd.immediate| < cmd.transferLen
      requires forall t | t in tasks :: t.taskTag != cmd.taskTag
      modifies this`pending, this`tasks, this`trace, r2tTasks
      ensures Valid()
      ensures entry != null <==> old(pending) < maxR2t && |cmd.immediate| >= firstBurst
      ensures entry == null ==> tasks == old(tasks) && trace == old(trace)
      ensures entry != null ==> fresh(entry) && fresh(entry.iobuf) && tasks == old(tasks) + [entry]
      ensures entry != null ==> entry.command == cmd && entry.start == |old(trace)|
      ensures entry != null ==>
        trace == old(trace) + [Asked(cmd.taskTag, cmd.taskTag, 0, |cmd.immediate|,
                                     Min(maxBurst, cmd.transferLen - |cmd.immediate|))]
    {
      hide Consistent;
      entry := null;
      if pending >= maxR2t {
        return;
      }
      var offset := |cmd.immediate|;
      if offset >= firstBurst {
        var len := Min(maxBurst, cmd.transferLen - offset);
        var r2tTask := new R2tTask(cmd, |trace|);
        entry := r2tTask;
        ghost var before, e := trace, Asked(cmd.taskTag, cmd.taskTag, 0, offset, len);
        AllKept(e);
        var idx := pending;
        pending := pending + 1;
        r2tTasks[idx] := r2tTask;
        tasks := tasks + [r2tTask];
        var next := SendR2t(cmd.taskTag, r2tTask.transferTag, r2tTask.offset, len, r2tTask.r2tSN);
        r2tTask.r2tSN := next;
        NewEntry(r2tTask, before, e);
        forall t | t in old(tasks)
          ensures t != r2tTask && t.iobuf != r2tTask.iobuf && t.transferTag != cmd.taskTag && Consistent(t, trace)
        {
        }
      }
    }

    // ---------------------------------------------------------------- the Data-Out handler

    /** The checks of istgt_iscsi_op_data on a PDU for a table entry. */
    predicate Acceptable(t: R2tTask, pdu: Pdu)
      requires pdu.DataOut?
      reads t
    {
      pdu.dataSN == t.dataSN && pdu.taskTag == t.taskTag && pdu.offset == t.offset
      && pdu.offset + |pdu.data| <= t.iobuf.Length
    }

    /** A table entry after the handler stored the payload of the next Data-Out. */
    lemma EntryAdvanced(t: R2tTask, tr: seq<Event>, pdu: Pdu, stored: seq<byte>)
      requires t.start <= |tr| && pdu.DataOut? && pdu.taskTag == pdu.transferTag == t.taskTag
      requires t.taskTag == t.transferTag == t.command.taskTag && t.transferLen == t.command.transferLen
      requires t.iobuf.Length == t.transferLen + IOBUF_SLACK
      requires firstBurst <= |t.command.immediate| < t.transferLen
      requires stored == t.command.immediate + Received(t.taskTag, tr[t.start..]) && pdu.offset == |stored|
      requires t.r2tSN == R2ts(t.taskTag, tr[t.start..]) == 1
      requires Owed(t.taskTag, tr[t.start..])
            == Min(maxBurst, t.transferLen - |t.command.immediate|) - |Received(t.taskTag, tr[t.start..])|
      requires Disciplined(ContextOf(t.command, t.transferLen), tr[t.start..])
      requires Ordered(ContextOf(t.command, t.transferLen), tr[t.start..])
      requires pdu.dataSN == SinceR2t(t.taskTag, tr[t.start..]) % SERIAL
      requires t.offset == |stored| + |pdu.data| <= t.iobuf.Length && t.iobuf[..t.offset] == stored + pdu.data
      requires t.dataSN == (pdu.dataSN + 1) % SERIAL && t.fBit == pdu.f
      ensures Consistent(t, tr + [Got(pdu)])
    {
      hide Received, R2ts, SinceR2t, Owed, Closed, R2tsRight, Disciplined, Ordered, LastF;
      var c := ContextOf(t.command, t.transferLen);
      Extend(tr, Got(pdu), t.start);
      Accepted(c, t.command.f, tr[t.start..], Got(pdu));
      assert stored + pdu.data
          == t.command.immediate + (Received(t.taskTag, tr[t.start..]) + pdu.data);
    }

    /**
     istgt_iscsi_op_data: a PDU without a table entry is rejected, a PDU that is
     not the next one of its entry is an error, any other is stored.
     */
    method OpData(pdu: Pdu) returns (rc: int)
      requires Valid() && pdu.DataOut?
      modifies this`trace, this`rejected, tasks, set t | t in tasks :: t.iobuf
      ensures trace == old(trace) + [Got(pdu)]
      ensures rc == 0 ==> Valid()
      ensures rc == 0 || rc == -1
      ensures rc == 0 <==> forall t | t in tasks && t.transferTag == pdu.transferTag :: old(Acceptable(t, pdu))
      ensures rejected == if exists t :: t in tasks && t.transferTag == pdu.transferTag then old(rejected)
                          else old(rejected) + [pdu]
      ensures rc == 0 <==> Elsewhere(old(Cursors()), pdu).Some?
      ensures rc == 0 ==> Cursors() == Elsewhere(old(Cursors()), pdu).value
      ensures rc == 0 ==>
        forall t | t in tasks :: t.fBit == if t.transferTag == pdu.transferTag then pdu.f else old(t.fBit)
    {
      hide Consistent, Elsewhere;
      ghost var before, e, cs := trace, Got(pdu), Cursors();
      var idx := GetTransferTask(pdu.transferTag);
      ElsewhereAt(cs, pdu, if idx == -1 then |cs| else idx);
      if idx == -1 {
        AllKept(e);
        rejected := rejected + [pdu];
        trace := trace + [e];
        return 0;
      }
      trace := trace + [e];
      var t := r2tTasks[idx];
      assert t in tasks;
      assert forall u | u in tasks && u.transferTag == pdu.transferTag :: u == t;
      if pdu.dataSN != t.dataSN {
        return -1;
      }
      if pdu.taskTag != t.taskTag {
        return -1;
      }
      if pdu.offset != t.offset {
        return -1;
      }
      if pdu.offset + |pdu.data| > t.iobuf.Length {
        return -1;
      }
      StoreAt(idx, pdu, before);
      return 0;
    }

    /** The PDU is the next one of the entry at idx; the history before it is given. */
    method StoreAt(idx: nat, pdu: Pdu, ghost before: seq<Event>)
      requires Table() && idx < |tasks| && pdu.DataOut? && trace == before + [Got(pdu)]
      requires forall t | t in tasks :: Consistent(t, before)
      requires pdu.transferTag == tasks[idx].transferTag && Acceptable(tasks[idx], pdu)
      modifies tasks[idx], tasks[idx].iobuf
      ensures Valid() && tasks[idx].fBit == pdu.f
      ensures CursorOf(tasks[idx])
           == Cursor(pdu.transferTag, (pdu.dataSN + 1) % SERIAL, pdu.offset + |pdu.data|, tasks[idx].iobuf.Length)
      ensures Cursors() == old(Cursors())[idx := CursorOf(tasks[idx])]
    {
      hide Consistent;
      var t := r2tTasks[idx];
      StoreNext(t, pdu, before);
      forall u | u in tasks && u != t
        ensures Consistent(u, trace)
      {
        KeptByOthers(u, before, Got(pdu));
      }
    }

    /** Tags differ, so a tag stands for one place of the table. */
    static lemma CursorAt(cs: seq<Cursor>, tag: nat, i: nat)
      requires i <= |cs| && (i < |cs| ==> cs[i].tag == tag)
      requires forall j | 0 <= j < |cs| && j != i :: cs[j].tag != tag
      ensures IndexOf(cs, tag) == i
    {
    }

    static lemma ElsewhereAt(cs: seq<Cursor>, pdu: Pdu, i: nat)
      requires pdu.DataOut? && i <= |cs| && (i < |cs| ==> cs[i].tag == pdu.transferTag)
      requires forall j | 0 <= j < |cs| && j != i :: cs[j].tag != pdu.transferTag
      ensures i == |cs| ==> Elsewhere(cs, pdu) == Some(cs)
      ensures i < |cs| ==>
        Elsewhere(cs, pdu) ==
          if pdu.dataSN != cs[i].dataSN || pdu.taskTag != cs[i].tag || pdu.offset != cs[i].offset
             || pdu.offset + |pdu.data| > cs[i].room then None
          else Some(cs[i := cs[i].(dataSN := (pdu.dataSN + 1) % SERIAL, offset := pdu.offset + |pdu.data|)])
    {
      CursorAt(cs, pdu.transferTag, i);
    }

    /** The copy into the task buffer and the update of the counters. */
    method StoreNext(t: R2tTask, pdu: Pdu, ghost before: seq<Event>)
      requires Consistent(t, before) && pdu.DataOut? && pdu.transferTag == t.transferTag && Acceptable(t, pdu)
      modifies t, t.iobuf
      ensures Consistent(t, before + [Got(pdu)])
      ensures t.dataSN == (pdu.dataSN + 1) % SERIAL && t.offset == pdu.offset + |pdu.data| && t.fBit == pdu.f
    {
      ghost var stored := t.iobuf[..t.offset];
      var data, offset := t.iobuf, t.offset;
      forall i | 0 <= i < |pdu.data| {
        data[offset + i] := pdu.data[i];
      }
      assert t.iobuf[..offset] == stored;
      assert t.iobuf[..offset + |pdu.data|] == stored + pdu.data;
      t.offset := offset + |pdu.data|;
      t.dataSN := (t.dataSN + 1) % SERIAL;
      t.fBit := pdu.f;
      EntryAdvanced(t, before, pdu, stored);
    }

    // ---------------------------------------------------------------- the transfer of one command

    /** What the receive loop knows about its own command, given the history tr since the command. */
    ghost predicate Progress(c: Context, tr: seq<Event>, buf: seq<byte>, r2tSN: nat, expDataSN: nat) {
      && buf == c.immediate + Received(c.tag, tr)
      && r2tSN == R2ts(c.tag, tr) % SERIAL
      && expDataSN == SinceR2t(c.tag, tr) % SERIAL
      && Disciplined(c, tr)
    }

    lemma ProgressR2ts(c: Context, tr: seq<Event>, buf: seq<byte>, r2tSN: nat, expDataSN: nat)
      requires Progress(c, tr, buf, r2tSN, expDataSN)
      ensures R2tsRight(c, tr)
    {
    }

    /** The R2T the loop sends. */
    lemma ProgressAsked(c: Context, tr: seq<Event>, buf: seq<byte>, r2tSN: nat, expDataSN: nat, len: nat, e: Event)
      requires Progress(c, tr, buf, r2tSN, expDataSN)
      requires e == Asked(c.tag, c.tag, r2tSN, |buf|, len) && 0 < len <= c.maxBurst && |buf| + len <= c.limit
      ensures Progress(c, tr + [e], buf, (r2tSN + 1) % SERIAL, 0)
      ensures BurstOpen(c.tag, tr + [e])
      ensures Ordered(c, tr + [e]) <==> Ordered(c, tr) && if R2ts(c.tag, tr) == 0
                then c.initialR2t || |buf| >= c.firstBurst else !BurstOpen(c.tag, tr)
      ensures BurstOpen(c.tag, tr) ==> R2ts(c.tag, tr) > 0
    {
      hide Received, R2ts, SinceR2t, Owed, Closed, R2tsRight, Disciplined, Ordered, LastF;
      Requested(c, false, tr, e);
    }

    /** The Data-Out the loop stores. */
    lemma ProgressStored(c: Context, tr: seq<Event>, buf: seq<byte>, r2tSN: nat, expDataSN: nat, pdu: Pdu)
      requires Progress(c, tr, buf, r2tSN, expDataSN)
      requires pdu.DataOut? && pdu.taskTag == pdu.transferTag == c.tag
      requires pdu.dataSN == expDataSN && pdu.offset == |buf|
      ensures Progress(c, tr + [Got(pdu)], buf + pdu.data, r2tSN, (expDataSN + 1) % SERIAL)
      ensures Ordered(c, tr + [Got(pdu)]) == Ordered(c, tr)
      ensures R2ts(c.tag, tr + [Got(pdu)]) == R2ts(c.tag, tr)
      ensures BurstOpen(c.tag, tr + [Got(pdu)]) ==> BurstOpen(c.tag, tr) && !pdu.f
    {
      hide Received, R2ts, SinceR2t, Owed, Closed, R2tsRight, Disciplined, Ordered, LastF;
      Accepted(c, false, tr, Got(pdu));
    }

    /** A PDU of anything else. */
    lemma ProgressOther(c: Context, tr: seq<Event>, buf: seq<byte>, r2tSN: nat, expDataSN: nat, pdu: Pdu)
      requires Progress(c, tr, buf, r2tSN, expDataSN)
      requires pdu.DataOut? ==> pdu.taskTag != c.tag || pdu.transferTag != c.tag
      ensures Progress(c, tr + [Got(pdu)], buf, r2tSN, expDataSN)
      ensures Ordered(c, tr + [Got(pdu)]) == Ordered(c, tr)
      ensures R2ts(c.tag, tr + [Got(pdu)]) == R2ts(c.tag, tr)
      ensures BurstOpen(c.tag, tr + [Got(pdu)]) == BurstOpen(c.tag, tr)
    {
      hide Received, R2ts, SinceR2t, Owed, Closed, R2tsRight, Disciplined, Ordered, LastF;
      Unrelated(c, false, tr, Got(pdu));
    }

    /** The PDUs that are not Data-Out: the ones the loop puts aside. */
    static function PutAside(ps: seq<Pdu>): seq<Pdu> {
      if ps == [] then []
      else if ps[|ps| - 1].DataOut? then PutAside(ps[..|ps| - 1])
      else PutAside(ps[..|ps| - 1]) + [ps[|ps| - 1]]
    }

    lemma NothingPutAside()
      ensures PutAside([]) == []
    {
    }

    lemma PutAsideStep(ps: seq<Pdu>, p: Pdu)
      ensures PutAside(ps + [p]) == if p.DataOut? then PutAside(ps) else PutAside(ps) + [p]
    {
      assert (ps + [p])[..|ps|] == ps;
    }

    /** The books of the receive loop after the next PDU of the socket. */
    lemma Accounted(tr0: seq<Event>, before: seq<Event>, pdus0: seq<Pdu>, stream: seq<Pdu>, news: seq<Pdu>,
                    left: seq<Pdu>, pdu: Pdu)
      requires tr0 <= before && Pdus(before) == pdus0 + news && stream == news + left && left != [] && pdu == left[0]
      ensures tr0 <= before + [Got(pdu)] && Pdus(before + [Got(pdu)]) == pdus0 + (news + [pdu])
      ensures stream == (news + [pdu]) + left[1..]
      ensures PutAside(news + [pdu]) == if pdu.DataOut? then PutAside(news) else PutAside(news) + [pdu]
    {
      hide Pdus, PutAside;
      Extend(before, Got(pdu), 0);
      PutAsideStep(news, pdu);
      assert (pdus0 + news) + [pdu] == pdus0 + (news + [pdu]);
    }

    /** A Data-Out of a command without a table entry leaves the table as it is. */
    lemma AllKeptOwn(tr: seq<Event>, pdu: Pdu)
      requires Table() && pdu.DataOut? && forall t | t in tasks :: Consistent(t, tr)
      requires forall t | t in tasks :: t.transferTag != pdu.transferTag
      ensures forall t | t in tasks :: Consistent(t, tr + [Got(pdu)])
    {
      forall t | t in tasks
        ensures Consistent(t, tr + [Got(pdu)])
      {
        KeptByOthers(t, tr, Got(pdu));
      }
    }

    /** Whatever PDU comes in, it breaks no rule on R2Ts. */
    lemma GotKeepsR2ts(c: Context, tr: seq<Event>, pdu: Pdu)
      ensures Ordered(c, tr + [Got(pdu)]) == Ordered(c, tr)
      ensures R2tsRight(c, tr + [Got(pdu)]) == R2tsRight(c, tr)
    {
      if Addressed(c.tag, Got(pdu)) {
        Accepted(c, false, tr, Got(pdu));
      } else {
        Unrelated(c, false, tr, Got(pdu));
      }
    }

    /**
     A PDU of the receive loop that is not for its command: Data-Out goes to the
     handler, anything else to the queue of PDUs put aside.
     */
    method HandOver(pdu: Pdu, ghost c: Context, ghost start: nat, ghost buf: seq<byte>,
                    ghost r2tSN: nat, ghost expDataSN: nat)
      returns (rc: int)
      requires Valid() && start <= |trace| && Progress(c, trace[start..], buf, r2tSN, expDataSN)
      requires pdu.DataOut? ==> pdu.taskTag != c.tag || pdu.transferTag != c.tag
      modifies this`trace, this`rejected, this`pendingPdus, tasks, set t | t in tasks :: t.iobuf
      ensures trace == old(trace) + [Got(pdu)]
      ensures rc == 0 ==> Valid() && pendingPdus == if pdu.DataOut? then old(pendingPdus) else old(pendingPdus) + [pdu]
      ensures rc == 0 || rc == -1
      ensures Progress(c, trace[start..], buf, r2tSN, expDataSN)
      ensures Ordered(c, trace[start..]) == old(Ordered(c, trace[start..]))
      ensures BurstOpen(c.tag, trace[start..]) == old(BurstOpen(c.tag, trace[start..]))
      ensures pdu.DataOut? ==> (rc == 0 <==> Elsewhere(old(Cursors()), pdu).Some?)
      ensures pdu.DataOut? && rc == 0 ==> Cursors() == Elsewhere(old(Cursors()), pdu).value
      ensures !pdu.DataOut? ==> (rc == 0 <==> |old(pendingPdus)| <= maxPending) && Cursors() == old(Cursors())
    {
      hide Consistent, Disciplined, Ordered, Received, R2ts, SinceR2t, BurstOpen, Progress;
      hide Elsewhere, Connection.Cursors;
      Extend(trace, Got(pdu), start);
      ProgressOther(c, trace[start..], buf, r2tSN, expDataSN, pdu);
      if pdu.DataOut? {
        rc := OpData(pdu);
      } else {
        AllKept(Got(pdu));
        trace := trace + [Got(pdu)];
        if |pendingPdus| > maxPending {
          return -1;
        }
        pendingPdus := pendingPdus + [pdu];
        return 0;
      }
    }

    /** The payload of the command's own next Data-Out goes into the buffer. */
    method StoreOwn(data: array<byte>, offset: nat, pdu: Pdu, ghost c: Context, ghost tr: seq<Event>,
                    ghost r2tSN: nat, ghost expDataSN: nat)
      requires pdu.DataOut? && pdu.taskTag == pdu.transferTag == c.tag
      requires offset + |pdu.data| <= data.Length && Progress(c, tr, data[..offset], r2tSN, expDataSN)
      requires pdu.dataSN == expDataSN && pdu.offset == offset
      modifies data
      ensures Progress(c, tr + [Got(pdu)], data[..offset + |pdu.data|], r2tSN, (expDataSN + 1) % SERIAL)
    {
      hide Progress;
      ghost var buf := data[..offset];
      ProgressStored(c, tr, buf, r2tSN, expDataSN, pdu);
      forall i | 0 <= i < |pdu.data| {
        data[offset + i] := pdu.data[i];
      }
      assert data[..offset] == buf;
      assert data[..offset + |pdu.data|] == buf + pdu.data;
    }

    /** The head of the loop: an R2T goes out if none is outstanding and nothing more may come unsolicited. */
    method AskIfDue(tag: nat, offset: nat, transferLen: nat, len0: int, r2tFlag0: bool, r2tSN0: nat, expDataSN0: nat,
                    ghost c: Context, ghost start: nat, ghost buf: seq<byte>, ghost early: bool, ghost k: Terms)
      returns (len: int, r2tFlag: bool, r2tSN: nat, expDataSN: nat)
      requires k == TermsOf(tag, transferLen, k.room)
      requires Valid() && start <= |trace| && forall t | t in tasks :: t.transferTag != c.tag
      requires c.tag == tag && c.firstBurst == firstBurst && c.maxBurst == maxBurst && c.initialR2t == initialR2t
      requires offset == |buf| < transferLen <= c.limit && offset + len0 <= transferLen
      requires Progress(c, trace[start..], buf, r2tSN0, expDataSN0)
      requires early <==> !r2tFlag0 && BurstOpen(c.tag, trace[start..])
      requires early ==> initialR2t || offset >= firstBurst
      modifies this`trace
      ensures Valid() && old(trace) <= trace && Pdus(trace) == old(Pdus(trace))
      ensures offset + len <= transferLen && Progress(c, trace[start..], buf, r2tSN, expDataSN)
      ensures r2tFlag || !BurstOpen(c.tag, trace[start..])
      ensures Ordered(c, trace[start..]) <==> old(Ordered(c, trace[start..])) && !early
      ensures AfterAsking(k, Mark(offset, len0, r2tFlag0, expDataSN0)) == Mark(offset, len, r2tFlag, expDataSN)
    {
      hide Consistent, Disciplined, R2tsRight, Ordered, Received, R2ts, SinceR2t, Pdus, BurstOpen, Progress;
      len, r2tFlag, r2tSN, expDataSN := len0, r2tFlag0, r2tSN0, expDataSN0;
      if !r2tFlag && (initialR2t || offset >= firstBurst) {
        len := Min(maxBurst, transferLen - offset);
        ghost var e := Asked(tag, tag, r2tSN, offset, len);
        AllKept(e);
        ProgressAsked(c, trace[start..], buf, r2tSN, expDataSN, len, e);
        Extend(trace, e, start);
        r2tSN := SendR2t(tag, tag, offset, len, r2tSN);
        r2tFlag := true;
        expDataSN := 0;
      }
    }

    /** A Data-Out of the command itself comes off the socket. */
    method NoteOwn(pdu: Pdu, ghost c: Context, ghost start: nat)
      requires Valid() && start <= |trace| && pdu.DataOut? && forall t | t in tasks :: t.transferTag != pdu.transferTag
      modifies this`trace
      ensures Valid() && trace == old(trace) + [Got(pdu)] && trace[start..] == old(trace)[start..] + [Got(pdu)]
      ensures Ordered(c, trace[start..]) == old(Ordered(c, trace[start..]))
      ensures R2tsRight(c, trace[start..]) == old(R2tsRight(c, trace[start..]))
    {
      hide Consistent, R2tsRight, Ordered;
      Extend(trace, Got(pdu), start);
      GotKeepsR2ts(c, trace[start..], pdu);
      AllKeptOwn(trace, pdu);
      trace := trace + [Got(pdu)];
    }

    /** The rest of the loop: a Data-Out of the command itself. */
    method TakeOwn(data: array<byte>, transferLen: nat, offset0: nat, len0: int, r2tFlag0: bool, expDataSN0: nat,
                   pdu: Pdu, ghost c: Context, ghost start: nat, ghost r2tSN: nat)
      returns (rc: int, offset: nat, len: int, r2tFlag: bool, expDataSN: nat)
      requires Valid() && start <= |trace| && pdu.DataOut? && pdu.taskTag == pdu.transferTag == c.tag
      requires (data as object) != r2tTasks && forall t | t in tasks :: t.transferTag != c.tag && t.iobuf != data
      requires transferLen <= data.Length && offset0 < transferLen && offset0 + len0 <= transferLen
      requires Progress(c, trace[start..], data[..offset0], r2tSN, expDataSN0)
      requires r2tFlag0 || !BurstOpen(c.tag, trace[start..])
      modifies this`trace, data
      ensures trace == old(trace) + [Got(pdu)] && (rc == 0 || rc == -1)
      ensures Ordered(c, trace[start..]) == old(Ordered(c, trace[start..])) && R2tsRight(c, trace[start..])
      ensures rc == 0 ==> Valid() && offset <= data.Length && offset + len <= transferLen
      ensures rc == 0 ==> Progress(c, trace[start..], data[..offset], r2tSN, expDataSN)
      ensures rc == 0 ==> r2tFlag || !BurstOpen(c.tag, trace[start..])
      ensures rc == 0 && offset >= transferLen && pdu.f ==> len == 0
      ensures var mark := Mark(offset0, len0, r2tFlag0, expDataSN0);
              var next := AfterOwn(TermsOf(c.tag, transferLen, data.Length), mark, pdu);
              if rc == 0 then next == Some(Mark(offset, len, r2tFlag, expDataSN)) else next == None
    {
      hide Consistent, Disciplined, R2tsRight, Ordered, Received, R2ts, SinceR2t, BurstOpen, Progress;
      rc, offset, len, r2tFlag, expDataSN := -1, offset0, len0, r2tFlag0, expDataSN0;
      ghost var mine := trace[start..];
      ProgressR2ts(c, mine, data[..offset], r2tSN, expDataSN);
      NoteOwn(pdu, c, start);
      if pdu.dataSN != expDataSN {
        return;
      }
      if pdu.offset != offset {
        return;
      }
      if pdu.offset + |pdu.data| > data.Length {
        return;
      }
      ProgressStored(c, mine, data[..offset], r2tSN, expDataSN, pdu);
      StoreOwn(data, offset, pdu, c, mine, r2tSN, expDataSN);
      offset := offset + |pdu.data|;
      len := len - |pdu.data|;
      expDataSN := (expDataSN + 1) % SERIAL;
      if !r2tFlag && offset > firstBurst {
        return;
      }
      if pdu.f && len != 0 {
        if offset < transferLen {
          r2tFlag := false;
          rc := 0;
        }
        return;
      }
      if !pdu.f && len == 0 {
        return;
      }
      if len == 0 {
        r2tFlag := false;
      }
      rc := 0;
    }

    /** One PDU of the receive loop: of another command, or of the command itself. */
    method TakePdu(tag: nat, data: array<byte>, transferLen: nat, offset0: nat, len0: int, r2tFlag0: bool,
                   expDataSN0: nat, fBit0: bool, ghost c: Context, ghost start: nat, ghost r2tSN: nat, ghost k: Terms)
      returns (rc: int, offset: nat, len: int, r2tFlag: bool, expDataSN: nat, fBit: bool, ghost pdu: Pdu)
      requires Valid() && start <= |trace| && input != [] && c.tag == tag && k == TermsOf(tag, transferLen, data.Length)
      requires (data as object) != r2tTasks && forall t | t in tasks :: t.transferTag != c.tag && t.iobuf != data
      requires transferLen <= data.Length && offset0 < transferLen && offset0 + len0 <= transferLen
      requires Progress(c, trace[start..], data[..offset0], r2tSN, expDataSN0)
      requires r2tFlag0 || !BurstOpen(c.tag, trace[start..])
      requires AfterAsking(k, Mark(offset0, len0, r2tFlag0, expDataSN0)) == Mark(offset0, len0, r2tFlag0, expDataSN0)
      modifies this`trace, this`rejected, this`input, this`pendingPdus
      modifies data, tasks, set t | t in tasks :: t.iobuf
      ensures pdu == old(input)[0] && input == old(input)[1..] && trace == old(trace) + [Got(pdu)]
      ensures rc == 0 || rc == -1
      ensures Ordered(c, trace[start..]) == old(Ordered(c, trace[start..])) && R2tsRight(c, trace[start..])
      ensures rc == 0 ==> Valid() && offset <= data.Length && offset + len <= transferLen
      ensures rc == 0 ==> pendingPdus == if pdu.DataOut? then old(pendingPdus) else old(pendingPdus) + [pdu]
      ensures rc == 0 ==> Progress(c, trace[start..], data[..offset], r2tSN, expDataSN)
      ensures rc == 0 ==> r2tFlag || !BurstOpen(c.tag, trace[start..])
      ensures rc == 0 ==> (offset >= transferLen && fBit ==> len == 0)
      ensures old(Succeeds(k, Mark(offset0, len0, r2tFlag0, expDataSN0), Cursors(), |pendingPdus|, input, fBit0))
        == (rc == 0 && Succeeds(k, Mark(offset, len, r2tFlag, expDataSN), Cursors(), |pendingPdus|, input, fBit))
    {
      hide Consistent, Disciplined, R2tsRight, Ordered, Received, R2ts, SinceR2t, BurstOpen, Pdus, PutAside, Progress;
      hide Succeeds, AfterAsking, AfterOwn, Elsewhere, Connection.Cursors;
      offset, len, r2tFlag, expDataSN, fBit := offset0, len0, r2tFlag0, expDataSN0, fBit0;
      Round(k, Mark(offset, len, r2tFlag, expDataSN), Cursors(), |pendingPdus|, input, fBit);
      var next := input[0];
      pdu := next;
      input := input[1..];
      if !next.DataOut? || next.taskTag != tag || next.transferTag != tag {
        rc := HandOver(next, c, start, data[..offset], r2tSN, expDataSN);
        ProgressR2ts(c, trace[start..], data[..offset], r2tSN, expDataSN);
        return;
      }
      fBit := next.f;
      rc, offset, len, r2tFlag, expDataSN :=
        TakeOwn(data, transferLen, offset, len, r2tFlag, expDataSN, next, c, start, r2tSN);
    }

    /**
     The receive loop of istgt_iscsi_transfer_out. It ends well only when the
     data is complete; every PDU it takes from the socket is in the history.
     early says that the loop starts by asking although the last burst is open.
     */
    method ReceiveLoop(tag: nat, data: array<byte>, transferLen: nat, offset0: nat, len0: int, r2tFlag0: bool,
                       r2tSN0: nat, expDataSN0: nat, ghost c: Context, ghost start: nat, ghost early: bool)
      returns (rc: int, ghost news: seq<Pdu>)
      requires Valid() && start <= |trace|
      requires (data as object) != r2tTasks && forall t | t in tasks :: t.transferTag != c.tag && t.iobuf != data
      requires c.tag == tag && c.firstBurst == firstBurst && c.maxBurst == maxBurst && c.initialR2t == initialR2t
      requires transferLen <= data.Length && offset0 < transferLen <= c.limit && offset0 + len0 <= transferLen
      requires Progress(c, trace[start..], data[..offset0], r2tSN0, expDataSN0)
      requires early <==> !r2tFlag0 && BurstOpen(c.tag, trace[start..])
      requires early ==> initialR2t || offset0 >= firstBurst
      modifies this`trace, this`rejected, this`input, this`pendingPdus
      modifies data, tasks, set t | t in tasks :: t.iobuf
      ensures old(trace) <= trace
      ensures Pdus(trace) == old(Pdus(trace)) + news && old(input) == news + input
      ensures Ordered(c, trace[start..]) <==> old(Ordered(c, trace[start..])) && !early
      ensures R2tsRight(c, trace[start..])
      ensures rc == 0 || rc == -1
      ensures rc == 0 ==> Valid() && pendingPdus == old(pendingPdus) + PutAside(news)
      ensures rc == 0 ==> exists r2tSN, expDataSN :: Progress(c, trace[start..], data[..transferLen], r2tSN, expDataSN)
      ensures rc == 0 <==> Succeeds(TermsOf(tag, transferLen, data.Length), Mark(offset0, len0, r2tFlag0, expDataSN0),
                                    old(Cursors()), |old(pendingPdus)|, old(input), false)
    {
      hide Consistent, Disciplined, R2tsRight, Ordered, Received, R2ts, SinceR2t, BurstOpen, Pdus, PutAside, Progress;
      hide Succeeds, AfterAsking, AfterOwn, Elsewhere, Connection.Cursors;
      ghost var k, all := TermsOf(tag, transferLen, data.Length),
                          Succeeds(TermsOf(tag, transferLen, data.Length), Mark(offset0, len0, r2tFlag0, expDataSN0),
                                   Cursors(), |pendingPdus|, input, false);
      var offset: nat, len, r2tFlag, r2tSN: nat, expDataSN: nat := offset0, len0, r2tFlag0, r2tSN0, expDataSN0;
      var fBit := false;
      ghost var tr0, pdus0, stream, ordered, first := trace, Pdus(trace), input, Ordered(c, trace[start..]), early;
      news := [];
      NothingPutAside();
      while offset < transferLen
        invariant Valid() && tr0 <= trace
        invariant offset <= data.Length && offset + len <= transferLen
        invariant Progress(c, trace[start..], data[..offset], r2tSN, expDataSN)
        invariant Pdus(trace) == pdus0 + news && stream == news + input
        invariant pendingPdus == old(pendingPdus) + PutAside(news)
        invariant first <==> !r2tFlag && BurstOpen(c.tag, trace[start..])
        invariant first ==> early && offset == offset0
        invariant Ordered(c, trace[start..]) == (ordered && (early ==> first))
        invariant offset >= transferLen && fBit ==> len == 0
        invariant all == Succeeds(k, Mark(offset, len, r2tFlag, expDataSN), Cursors(), |pendingPdus|, input, fBit)
        decreases |input|
      {
        ghost var mark := Mark(offset, len, r2tFlag, expDataSN);
        len, r2tFlag, r2tSN, expDataSN :=
          AskIfDue(tag, offset, transferLen, len, r2tFlag, r2tSN, expDataSN, c, start, data[..offset], first, k);
        first := false;
        ProgressR2ts(c, trace[start..], data[..offset], r2tSN, expDataSN);
        AskingIsFirst(k, mark, Cursors(), |pendingPdus|, input, fBit);
        // transfer by segment
        if input == [] {
          return -1, news;
        }
        ghost var left, before, pdu := input, trace, input[0];
        rc, offset, len, r2tFlag, expDataSN, fBit, pdu :=
          TakePdu(tag, data, transferLen, offset, len, r2tFlag, expDataSN, fBit, c, start, r2tSN, k);
        Accounted(tr0, before, pdus0, stream, news, left, pdu);
        news := news + [pdu];
        if rc < 0 {
          return -1, news;
        }
      }
      ProgressR2ts(c, trace[start..], data[..offset], r2tSN, expDataSN);
      Over(k, Mark(offset, len, r2tFlag, expDataSN), Cursors(), |pendingPdus|, input, fBit);
      // the F bit of the last PDU
      if !fBit {
        return -1, news;
      }
      return 0, news;
    }

    /** With immediate data of at most FirstBurstLength, a burst is over once that and MaxBurstLength are in. */
    lemma FirstBurstOver(t: R2tTask, tr: seq<Event>)
      requires Consistent(t, tr) && |t.command.immediate| <= firstBurst && t.offset >= firstBurst + maxBurst
      ensures !BurstOpen(t.taskTag, tr[t.start..])
    {
      hide Received, R2ts, SinceR2t, Owed, Disciplined, Ordered, LastF;
      assert |t.iobuf[..t.offset]| == |t.command.immediate| + |Received(t.taskTag, tr[t.start..])|;
    }

    /** What a table entry tells the receive loop that takes over from it. */
    lemma Resumed(t: R2tTask, tr: seq<Event>, limit: nat, c: Context)
      requires Consistent(t, tr) && t.transferLen <= limit && c == ContextOf(t.command, limit)
      ensures Progress(c, tr[t.start..], t.iobuf[..t.offset], t.r2tSN, t.dataSN)
      ensures Ordered(c, tr[t.start..]) && t.offset == Offset(c, tr[t.start..])
      ensures t.fBit == LastF(c.tag, t.command.f, tr[t.start..])
      ensures t.start <= |tr| && t.offset <= t.iobuf.Length && t.taskTag == t.transferTag == c.tag
    {
      hide Received, R2ts, SinceR2t, Owed, Disciplined, Ordered, LastF;
      WiderLimit(ContextOf(t.command, t.transferLen), limit, tr[t.start..]);
      assert |t.iobuf[..t.offset]| == Offset(c, tr[t.start..]);
    }

    /** The part of istgt_iscsi_transfer_out for a command with a table entry. */
    method ResumeTransfer(t: R2tTask, ghost k: nat, data: array<byte>, transferLen: nat,
                          ghost c: Context, ghost early: bool)
      returns (rc: int, ghost news: seq<Pdu>)
      requires Valid() && k < |tasks| && tasks[k] == t && c == ContextOf(t.command, Max(t.transferLen, transferLen))
      requires (data as object) != r2tTasks && (forall u | u in tasks :: u.iobuf != data)
      requires t.offset <= data.Length && transferLen <= data.Length
      requires early <==> firstBurst + maxBurst <= t.offset < transferLen && BurstOpen(c.tag, trace[t.start..])
      modifies this`pending, this`tasks, r2tTasks
      modifies this`trace, this`rejected, this`input, this`pendingPdus, data, tasks, set u | u in tasks :: u.iobuf
      ensures tasks == old(tasks)[..k] + old(tasks)[k + 1..]
      ensures old(trace) <= trace && Pdus(trace) == old(Pdus(trace)) + news && old(input) == news + input
      ensures Ordered(c, trace[t.start..]) <==> !early
      ensures R2tsRight(c, trace[t.start..])
      ensures rc == 0 || rc == -1
      ensures rc == 0 ==> Valid() && pendingPdus == old(pendingPdus) + PutAside(news)
      ensures rc == 0 ==> Assembled(c, trace[t.start..], data[..], transferLen)
      ensures rc == 0 && old(t.offset) < transferLen ==> Offset(c, trace[t.start..]) == transferLen
      ensures rc == 0 && old(t.offset) == transferLen ==> LastF(c.tag, t.command.f, trace[t.start..])
      ensures old(t.offset) >= transferLen ==> trace == old(trace)
      ensures rc == 0 <==>
        old(ResumedWell(CursorOf(t), t.fBit, OtherCursors(t.transferTag), transferLen, data.Length, input))
    {
      hide Consistent, Disciplined, R2tsRight, Ordered, Received, R2ts, SinceR2t, BurstOpen, Pdus, PutAside;
      hide Progress, LastF;
      hide Succeeds;
      OthersAt(k);
      Resumed(t, trace, c.limit, c);
      ProgressR2ts(c, trace[t.start..], t.iobuf[..t.offset], t.r2tSN, t.dataSN);
      NothingPutAside();
      news := [];
      var offset, r2tSN, expDataSN, fBit, r2tFlag := t.offset, t.r2tSN, t.dataSN, t.fBit, true;
      ghost var buf := t.iobuf[..offset];
      forall i | 0 <= i < offset {
        data[i] := t.iobuf[i];
      }
      assert data[..offset] == buf;
      forall u | u in tasks
        ensures Consistent(u, trace)
      {
      }
      DelTransferTask(t, k);
      forall u | u in tasks
        ensures u.transferTag != t.transferTag && u.iobuf != data && u in old(tasks)
      {
        Others(old(tasks), k, u);
      }
      if offset < transferLen {
        if offset >= firstBurst + maxBurst {
          // need more data
          r2tFlag := false;
        }
        var len := Min(maxBurst, transferLen - offset);
        rc, news :=
          ReceiveLoop(t.transferTag, data, transferLen, offset, len, r2tFlag, r2tSN, expDataSN, c, t.start, early);
        if rc == 0 {
          AssembledInFull(c, trace[t.start..], data[..], transferLen);
        }
        return;
      } else if offset == transferLen {
        if !fBit {
          return -1, news;
        }
      }
      AssembledSoFar(c, trace[t.start..], data[..], offset, transferLen, r2tSN, expDataSN);
      return 0, news;
    }

    /** The commands of the table without the first one with a tag. */
    ghost function OtherCursors(tag: nat): seq<Cursor>
      reads this`tasks, tasks
    {
      var cs := Cursors();
      var i := IndexOf(cs, tag);
      if i < |cs| then cs[..i] + cs[i + 1..] else cs
    }

    lemma OthersAt(k: nat)
      requires Table() && k < |tasks|
      ensures OtherCursors(tasks[k].transferTag) == CursorsOf(tasks[..k] + tasks[k + 1..])
    {
      CursorAt(Cursors(), tasks[k].transferTag, k);
    }

    /** When a write that resumes from its entry ends well. */
    ghost predicate ResumedWell(at: Cursor, fBit: bool, others: seq<Cursor>, transferLen: nat, room: nat,
                                stream: seq<Pdu>)
      reads this`pendingPdus
    {
      var k := TermsOf(at.tag, transferLen, room);
      if at.offset < transferLen
      then Succeeds(k, ResumedMark(k, at.offset, at.dataSN), others, |pendingPdus|, stream, false)
      else at.offset == transferLen ==> fBit
    }

    /** When a write without an entry ends well. */
    ghost predicate FreshWell(cmd: Command, cs: seq<Cursor>, transferLen: nat, room: nat, stream: seq<Pdu>)
      reads this`pendingPdus
    {
      var k := TermsOf(cmd.taskTag, transferLen, room);
      && (cmd.immediate == [] || (|cmd.immediate| <= firstBurst && |cmd.immediate| <= room))
      && if |cmd.immediate| < transferLen
         then Succeeds(k, FreshMark(k, |cmd.immediate|), cs, |pendingPdus|, stream, false)
         else cmd.f
    }

    static lemma Others(ts: seq<R2tTask>, k: nat, u: R2tTask)
      requires k < |ts| && u in ts[..k] + ts[k + 1..]
      ensures exists j :: 0 <= j < |ts| && j != k && ts[j] == u
    {
      if u in ts[..k] {
        var j :| 0 <= j < k && ts[..k][j] == u;
        assert ts[j] == u;
      } else {
        var j :| 0 <= j < |ts| - k - 1 && ts[k + 1..][j] == u;
        assert ts[k + 1 + j] == u;
      }
    }

    lemma AssembledSoFar(c: Context, tr: seq<Event>, buf: seq<byte>, offset: nat, transferLen: nat,
                         r2tSN: nat, expDataSN: nat)
      requires transferLen <= offset <= |buf| && Progress(c, tr, buf[..offset], r2tSN, expDataSN)
      ensures Assembled(c, tr, buf, transferLen) && Offset(c, tr) == offset
    {
      assert buf[..transferLen] == buf[..offset][..transferLen];
      assert |buf[..offset]| == Offset(c, tr);
    }

    lemma AssembledInFull(c: Context, tr: seq<Event>, buf: seq<byte>, transferLen: nat)
      requires transferLen <= |buf|
      requires exists r2tSN, expDataSN :: Progress(c, tr, buf[..transferLen], r2tSN, expDataSN)
      ensures Assembled(c, tr, buf, transferLen) && Offset(c, tr) == transferLen
    {
      var r2tSN, expDataSN :| Progress(c, tr, buf[..transferLen], r2tSN, expDataSN);
      AssembledSoFar(c, tr, buf, transferLen, transferLen, r2tSN, expDataSN);
    }

    /** The part of istgt_iscsi_transfer_out for a command without a table entry. */
    method FreshTransfer(cmd: Command, data: array<byte>, transferLen: nat, ghost c: Context)
      returns (rc: int, ghost news: seq<Pdu>)
      requires Valid() && c == ContextOf(cmd, transferLen) && forall u | u in tasks :: u.transferTag != cmd.taskTag
      requires (data as object) != r2tTasks && (forall u | u in tasks :: u.iobuf != data) && transferLen <= data.Length
      modifies this`trace, this`rejected, this`input, this`pendingPdus, data, tasks, set u | u in tasks :: u.iobuf
      ensures old(trace) <= trace && Pdus(trace) == old(Pdus(trace)) + news && old(input) == news + input
      ensures Ordered(c, trace[|old(trace)|..]) && R2tsRight(c, trace[|old(trace)|..])
      ensures rc == 0 || rc == -1
      ensures rc == 0 ==> Valid() && pendingPdus == old(pendingPdus) + PutAside(news)
      ensures rc == 0 ==> Assembled(c, trace[|old(trace)|..], data[..], transferLen)
      ensures rc == 0 && |cmd.immediate| < transferLen ==> Offset(c, trace[|old(trace)|..]) == transferLen
      ensures rc == 0 && |cmd.immediate| >= transferLen ==> cmd.f
      ensures |cmd.immediate| >= transferLen ==> trace == old(trace)
      ensures rc == 0 <==> old(FreshWell(cmd, Cursors(), transferLen, data.Length, input))
    {
      hide Consistent, BurstOpen, Pdus, PutAside, Progress, Succeeds;
      NothingPutAside();
      news := [];
      ghost var start := |trace|;
      assert trace[start..] == [];
      NothingYet(c);
      var dataLen, offset := |cmd.immediate|, 0;
      if dataLen != 0 {
        if dataLen > firstBurst {
          return -1, news;
        }
        if offset + dataLen > data.Length {
          return -1, news;
        }
        forall i | 0 <= i < dataLen {
          data[i] := cmd.immediate[i];
        }
        offset := dataLen;
      }
      assert data[..offset] == cmd.immediate;
      forall u | u in tasks
        ensures Consistent(u, trace)
      {
      }
      if offset < transferLen {
        var len := Min(firstBurst, transferLen - offset);
        rc, news := ReceiveLoop(cmd.taskTag, data, transferLen, offset, len, false, 0, 0, c, start, false);
        if rc == 0 {
          AssembledInFull(c, trace[start..], data[..], transferLen);
        }
        return;
      }
      if !cmd.f {
        return -1, news;
      }
      AssembledSoFar(c, [], data[..], offset, transferLen, 0, 0);
      return 0, news;
    }

    lemma NothingYet(c: Context)
      ensures Progress(c, [], c.immediate, 0, 0) && Ordered(c, []) && !BurstOpen(c.tag, [])
    {
      assert c.immediate + [] == c.immediate;
    }

    /**
     istgt_iscsi_transfer_out. On success the buffer holds the immediate data of
     the command followed by every payload addressed to its tag since it arrived,
     in the order of the socket. c, start and commandF say which command that is.
     */
    method TransferOut(cmd: Command, data: array<byte>, transferLen: nat)
      returns (rc: int, ghost news: seq<Pdu>, ghost c: Context, ghost start: nat, ghost commandF: bool)
      requires Valid() && (data as object) != r2tTasks && (forall u | u in tasks :: u.iobuf != data)
      requires forall u | u in tasks && u.transferTag == cmd.taskTag :: u.offset <= data.Length
      modifies this`pending, this`tasks, r2tTasks
      modifies this`trace, this`rejected, this`input, this`pendingPdus, data, tasks, set u | u in tasks :: u.iobuf
      ensures forall u | u in old(tasks) && u.transferTag == cmd.taskTag ::
        c == ContextOf(u.command, Max(u.transferLen, transferLen)) && start == u.start && commandF == u.command.f
      ensures (forall u | u in old(tasks) :: u.transferTag != cmd.taskTag) ==>
        c == ContextOf(cmd, transferLen) && start == |old(trace)| && commandF == cmd.f
      ensures start <= |old(trace)| && old(trace) <= trace
      ensures Pdus(trace) == old(Pdus(trace)) + news && old(input) == news + input
      ensures rc == 0 || rc == -1
      ensures rc == 0 ==> Valid() && pendingPdus == old(pendingPdus) + PutAside(news)
      ensures R2tsRight(c, trace[start..])
      ensures rc == 0 ==> Assembled(c, trace[start..], data[..], transferLen)
      ensures rc == 0 && Offset(c, old(trace)[start..]) < transferLen ==> Offset(c, trace[start..]) == transferLen
      ensures rc == 0 && Offset(c, old(trace)[start..]) == transferLen ==> LastF(c.tag, commandF, trace[start..])
      ensures Offset(c, old(trace)[start..]) >= transferLen ==> trace == old(trace)
      ensures transferLen <= data.Length ==>
        (Ordered(c, trace[start..]) <==> !AsksTooEarly(c, old(trace)[start..], transferLen))
      ensures forall u | u in old(tasks) && u.transferTag == cmd.taskTag ::
        (rc == 0 <==> transferLen <= data.Length
                      && old(ResumedWell(CursorOf(u), u.fBit, OtherCursors(cmd.taskTag),
                                         transferLen, data.Length, input)))
      ensures (forall u | u in old(tasks) :: u.transferTag != cmd.taskTag) ==>
        (rc == 0 <==> transferLen <= data.Length && old(FreshWell(cmd, Cursors(), transferLen, data.Length, input)))
    {
      hide Consistent, Received, R2ts, SinceR2t, BurstOpen, Pdus, PutAside, Progress, Disciplined;
      hide Connection.FreshWell, Connection.ResumedWell, Connection.OtherCursors, Connection.Cursors;
      NothingPutAside();
      rc, news := -1, [];
      var idx := GetTransferTask(cmd.taskTag);
      if idx >= 0 {
        var t := r2tTasks[idx];
        assert t in tasks && forall u | u in tasks && u.transferTag == cmd.taskTag :: u == t;
        c, start, commandF := ContextOf(t.command, Max(t.transferLen, transferLen)), t.start, t.command.f;
        Resumed(t, trace, c.limit, c);
        ProgressR2ts(c, trace[start..], t.iobuf[..t.offset], t.r2tSN, t.dataSN);
        if transferLen > data.Length {
          return;
        }
        rc, news := ResumeTransfer(t, idx, data, transferLen, c, AsksTooEarly(c, trace[start..], transferLen));
      } else {
        c, start, commandF := ContextOf(cmd, transferLen), |trace|, cmd.f;
        assert trace[start..] == [];
        NothingYet(c);
        if transferLen > data.Length {
          return;
        }
        rc, news := FreshTransfer(cmd, data, transferLen, c);
      }
    }

    /** The guard under which a resumed transfer asks again although its first burst is still open. */
    ghost predicate AsksTooEarly(c: Context, tr: seq<Event>, transferLen: nat) {
      c.firstBurst + c.maxBurst <= Offset(c, tr) < transferLen && BurstOpen(c.tag, tr)
    }

    /** The guard is never met when the immediate data kept to FirstBurstLength. */
    lemma NeverTooEarly(t: R2tTask, transferLen: nat)
      requires Valid() && t in tasks && |t.command.immediate| <= firstBurst
      ensures !AsksTooEarly(ContextOf(t.command, Max(t.transferLen, transferLen)), trace[t.start..], transferLen)
    {
      var c := ContextOf(t.command, Max(t.transferLen, transferLen));
      Resumed(t, trace, c.limit, c);
      if t.offset >= firstBurst + maxBurst {
        FirstBurstOver(t, trace);
      }
    }

    /** It is met when more came immediately: three octets with a FirstBurstLength of one, right after the first R2T. */
    lemma TooEarlyAfterLongImmediate(immediate: seq<byte>)
      requires |immediate| == 3
      ensures AsksTooEarly(Context(7, immediate, 8, 1, 2, true), [Asked(7, 7, 0, 3, 2)], 8)
    {
      var c, e := Context(7, immediate, 8, 1, 2, true), Asked(7, 7, 0, 3, 2);
      assert [] + [e] == [e];
      Requested(c, true, [], e);
    }
  }

  /** A buffer starts with the immediate data and the payload that followed, as far as the transfer goes. */
  ghost predicate Assembled(c: Context, tr: seq<Event>, buf: seq<byte>, transferLen: nat) {
    transferLen <= |buf| && transferLen <= Offset(c, tr)
    && buf[..transferLen] == (c.immediate + Received(c.tag, tr))[..transferLen]
    && Disciplined(c, tr)
  }
}
