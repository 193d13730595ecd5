/**
 The command queue of a LUN and the worker that serves the LUNs of a unit: tasks
 enter by their attribute, a clear takes out the tasks of one initiator port
 through a second queue, and the worker picks the next LUN with work in turn.
 */
module CommandQueue {
  import opened Names
  import opened LinkedQueue

  const HEAD_OF_QUEUE := 3

  datatype Task = Task(cmdSN: nat, initiatorPort: string, id: nat)

  datatype QueueResult = QueueOk | QueueFull

  /** istgt_lu_disk_queue: the part that decides about the queue. */
  method QueueTask(queue: Queue<Task>, task: Task, attribute: nat, maxq: nat) returns (r: QueueResult)
    requires queue.Valid()
    modifies queue.repr
    ensures queue.Valid() && fresh(queue.repr - old(queue.repr))
    ensures r == QueueFull <==> |old(queue.contents)| > maxq
    ensures queue.contents == if r == QueueFull then old(queue.contents)
                              else if attribute == HEAD_OF_QUEUE then [task] + old(queue.contents)
                              else old(queue.contents) + [task]
  {
    var rc := queue.Count();
    if rc > maxq {
      return QueueFull;
    }
    if attribute == HEAD_OF_QUEUE {
      queue.EnqueueFirst(task);
    } else {
      queue.Enqueue(task);
    }
    return QueueOk;
  }

  // ---------------------------------------------------------------- clearing

  /** The tasks a clear takes: those of the port, all of them or those with a CmdSN. */
  predicate Cleared(t: Task, port: string, allCmds: bool, cmdSN: nat) {
    (allCmds || t.cmdSN == cmdSN) && SameName(t.initiatorPort, port)
  }

  function Select(ts: seq<Task>, port: string, allCmds: bool, cmdSN: nat, cleared: bool): (r: seq<Task>)
    ensures |r| <= |ts|
  {
    if ts == [] then []
    else (if Cleared(ts[0], port, allCmds, cmdSN) == cleared then [ts[0]] else [])
         + Select(ts[1..], port, allCmds, cmdSN, cleared)
  }

  /** What a clear takes and leaves is told apart by the test alone. */
  lemma {:induction false} SelectMeans(ts: seq<Task>, port: string, allCmds: bool, cmdSN: nat, cleared: bool)
    ensures forall t :: t in Select(ts, port, allCmds, cmdSN, cleared) <==>
      t in ts && cleared == (Lower(t.initiatorPort) == Lower(port) && (!allCmds ==> t.cmdSN == cmdSN))
  {
    if ts != [] {
      SelectMeans(ts[1..], port, allCmds, cmdSN, cleared);
    }
  }

  /** Taking one task off the front and putting it where it belongs. */
  lemma SelectFront(ts: seq<Task>, kept: seq<Task>, gone: seq<Task>, port: string, allCmds: bool, cmdSN: nat)
    requires ts != []
    ensures Cleared(ts[0], port, allCmds, cmdSN) ==>
      && kept + Select(ts, port, allCmds, cmdSN, false) == kept + Select(ts[1..], port, allCmds, cmdSN, false)
      && gone + Select(ts, port, allCmds, cmdSN, true) == gone + [ts[0]] + Select(ts[1..], port, allCmds, cmdSN, true)
    ensures !Cleared(ts[0], port, allCmds, cmdSN) ==>
      && kept + Select(ts, port, allCmds, cmdSN, false) == kept + [ts[0]] + Select(ts[1..], port, allCmds, cmdSN, false)
      && gone + Select(ts, port, allCmds, cmdSN, true) == gone + Select(ts[1..], port, allCmds, cmdSN, true)
  {
    hide Cleared;
    Assoc(kept, [ts[0]], Select(ts[1..], port, allCmds, cmdSN, false));
    Assoc(gone, [ts[0]], Select(ts[1..], port, allCmds, cmdSN, true));
    assert forall s: seq<Task> :: [] + s == s;
  }

  /** Every task is kept or destroyed, once. */
  lemma {:induction false} SelectPartitions(ts: seq<Task>, port: string, allCmds: bool, cmdSN: nat)
    ensures multiset(Select(ts, port, allCmds, cmdSN, true)) + multiset(Select(ts, port, allCmds, cmdSN, false))
         == multiset(ts)
  {
    hide Cleared;
    if ts != [] {
      var rest := ts[1..];
      SelectPartitions(rest, port, allCmds, cmdSN);
      var taken, left := Select(rest, port, allCmds, cmdSN, true), Select(rest, port, allCmds, cmdSN, false);
      SelectFront(ts, [], [], port, allCmds, cmdSN);
      assert ts == [ts[0]] + rest;
      assert [] + taken == taken && [] + left == left && [] + [ts[0]] == [ts[0]];
      hide Select;
      OneMore(ts[0], taken, left, rest);
    }
  }

  lemma OneMore<T>(x: T, a: seq<T>, b: seq<T>, c: seq<T>)
    requires multiset(a) + multiset(b) == multiset(c)
    ensures multiset([x] + a) + multiset(b) == multiset([x] + c)
    ensures multiset(a) + multiset([x] + b) == multiset([x] + c)
  {
  }

  lemma Assoc<T>(a: seq<T>, b: seq<T>, c: seq<T>)
    ensures a + (b + c) == a + b + c
  {
  }

  /** The first loop: what is cleared is destroyed, the rest moves to the other queue. */
  method Drain(queue: Queue<Task>, saved: Queue<Task>, port: string, allCmds: bool, cmdSN: nat, ghost tasks: seq<Task>)
    returns (ghost destroyed: seq<Task>)
    requires queue.Valid() && saved.Valid() && queue.repr !! saved.repr
    requires saved.contents == [] && tasks == queue.contents
    modifies queue.repr, saved.repr
    ensures queue.Valid() && saved.Valid() && queue.repr !! saved.repr
    ensures queue.contents == []
    ensures saved.contents == Select(tasks, port, allCmds, cmdSN, false)
    ensures destroyed == Select(tasks, port, allCmds, cmdSN, true)
    ensures queue.repr <= old(queue.repr) && fresh(saved.repr - old(saved.repr))
  {
    hide SameName, Queue.Linked, Select;
    destroyed := [];
    while true
      invariant queue.Valid() && saved.Valid() && queue.repr !! saved.repr
      invariant queue.repr <= old(queue.repr)
      invariant fresh(saved.repr - old(saved.repr))
      invariant Select(tasks, port, allCmds, cmdSN, false)
             == saved.contents + Select(queue.contents, port, allCmds, cmdSN, false)
      invariant Select(tasks, port, allCmds, cmdSN, true)
             == destroyed + Select(queue.contents, port, allCmds, cmdSN, true)
      decreases |queue.contents|
    {
      ghost var before, kept, gone := queue.contents, saved.contents, destroyed;
      var task := queue.Dequeue();
      if task == None {
        break;
      }
      SelectFront(before, kept, gone, port, allCmds, cmdSN);
      if (allCmds || task.value.cmdSN == cmdSN) && SameName(task.value.initiatorPort, port) {
        destroyed := destroyed + [task.value];
        continue;
      }
      saved.Enqueue(task.value);
    }
  }

  /** The second loop: everything moves back behind what the queue holds. */
  method Refill(queue: Queue<Task>, saved: Queue<Task>)
    requires queue.Valid() && saved.Valid() && queue.repr !! saved.repr
    modifies queue.repr, saved.repr
    ensures queue.Valid() && saved.Valid() && saved.contents == []
    ensures fresh(queue.repr - old(queue.repr)) && saved.repr <= old(saved.repr)
    ensures queue.contents == old(queue.contents) + old(saved.contents)
  {
    hide Queue.Linked;
    while true
      invariant queue.Valid() && saved.Valid() && queue.repr !! saved.repr
      invariant saved.repr <= old(saved.repr)
      invariant fresh(queue.repr - old(queue.repr))
      invariant queue.contents + saved.contents == old(queue.contents) + old(saved.contents)
      decreases |saved.contents|
    {
      var task := saved.Dequeue();
      if task == None {
        break;
      }
      queue.Enqueue(task.value);
    }
  }

  /** istgt_lu_disk_queue_clear_internal, up to the waiting task: destroyed lists the tasks taken out, in order. */
  method Clear(queue: Queue<Task>, port: string, allCmds: bool, cmdSN: nat)
    returns (ok: bool, ghost destroyed: seq<Task>)
    requires queue.Valid()
    modifies queue.repr
    ensures queue.Valid() && fresh(queue.repr - old(queue.repr))
    ensures queue.contents == Select(old(queue.contents), port, allCmds, cmdSN, false)
    ensures destroyed == Select(old(queue.contents), port, allCmds, cmdSN, true)
    ensures ok
  {
    hide Queue.Linked, Select;
    var saved := new Queue();
    destroyed := Drain(queue, saved, port, allCmds, cmdSN, queue.contents);
    Refill(queue, saved);
    var left := saved.Count();
    ok := left == 0;
    saved.Destroy();
  }

  // ---------------------------------------------------------------- serving the LUNs of a unit

  /** What a slot of a unit holds; a storage LUN may have no disk behind it. */
  datatype Lun = Absent | Unsupported | Storage(queue: Queue?<Task>)

  ghost function Waiting(l: Lun): nat
    reads if l.Storage? && l.queue != null then {l.queue} else {}
  {
    if l.Storage? && l.queue != null then |l.queue.contents| else 0
  }

  /** How far slot k is ahead of the cursor on a ring of n slots. */
  function Ahead(cursor: nat, k: nat, n: nat): nat
    requires cursor < n && k < n
  {
    if cursor <= k then k - cursor else k - cursor + n
  }

  /** The slots that take part, and where a scan starts: a unit without LUNs still looks at slot 0. */
  function Slots(maxlun: nat): nat {
    if maxlun == 0 then 1 else maxlun
  }

  function Start(cursor: nat, maxlun: nat): (i: nat)
    ensures i < Slots(maxlun)
  {
    if cursor >= maxlun then 0 else cursor
  }

  /** Slot k is the first one with work, in cyclic order from the cursor. */
  ghost predicate First(waiting: seq<nat>, cursor: nat, k: nat) {
    && cursor < |waiting| && k < |waiting| && waiting[k] > 0
    && forall j | 0 <= j < |waiting| && waiting[j] > 0 :: Ahead(cursor, k, |waiting|) <= Ahead(cursor, j, |waiting|)
  }

  /** One slot further on; the slot so far ahead is the only one. */
  lemma AheadNext(start: nat, i: nat, n: nat)
    requires start < n && i < n
    ensures Ahead(start, i, n) + 1 < n ==> Ahead(start, if i + 1 >= n then 0 else i + 1, n) == Ahead(start, i, n) + 1
    ensures Ahead(start, i, n) + 1 == n ==> (if i + 1 >= n then 0 else i + 1) == start
    ensures forall j | 0 <= j < n && Ahead(start, j, n) == Ahead(start, i, n) :: j == i
  {
  }

  lemma FirstUnique(waiting: seq<nat>, cursor: nat, a: nat, b: nat)
    requires First(waiting, cursor, a) && First(waiting, cursor, b)
    ensures a == b
  {
  }

  /** One turn of the worker: the slot served, if any, and where the next scan begins. */
  ghost predicate Turn(waiting: seq<nat>, maxlun: nat, cursor: nat, served: Option<nat>, next: nat) {
    match served
    case None => (forall j | 0 <= j < |waiting| :: waiting[j] == 0) && next == Start(cursor, maxlun)
    case Some(k) => First(waiting, Start(cursor, maxlun), k) && next == k + 1
  }

  /** Turns in a row; what waits may change in any way between two of them. */
  ghost predicate Turns(work: seq<seq<nat>>, maxlun: nat, cursors: seq<nat>, served: seq<Option<nat>>) {
    && |cursors| == |work| + 1 && |served| == |work|
    && (forall t | 0 <= t < |work| :: |work[t]| == Slots(maxlun))
    && (forall t | 0 <= t < |work| :: Turn(work[t], maxlun, cursors[t], served[t], cursors[t + 1]))
  }

  /** Each turn that passes over a slot with work brings the worker nearer to it. */
  lemma Nearer(waiting: seq<nat>, maxlun: nat, cursor: nat, served: Option<nat>, next: nat, k: nat)
    requires |waiting| == Slots(maxlun) && Turn(waiting, maxlun, cursor, served, next)
    requires k < |waiting| && waiting[k] > 0 && served != Some(k)
    ensures Ahead(Start(next, maxlun), k, Slots(maxlun)) < Ahead(Start(cursor, maxlun), k, Slots(maxlun))
  {
    assert served.Some?;
  }

  lemma {:induction false} ServedWithin(work: seq<seq<nat>>, maxlun: nat, cursors: seq<nat>,
                                        served: seq<Option<nat>>, k: nat)
    requires Turns(work, maxlun, cursors, served) && k < Slots(maxlun)
    requires forall t | 0 <= t < |work| :: work[t][k] > 0
    requires |work| > Ahead(Start(cursors[0], maxlun), k, Slots(maxlun))
    ensures Some(k) in served[..Ahead(Start(cursors[0], maxlun), k, Slots(maxlun)) + 1]
    decreases |work|
  {
    var d := Ahead(Start(cursors[0], maxlun), k, Slots(maxlun));
    assert Turn(work[0], maxlun, cursors[0], served[0], cursors[1]);
    if served[0] == Some(k) {
      assert served[..d + 1][0] == Some(k);
    } else {
      Nearer(work[0], maxlun, cursors[0], served[0], cursors[1], k);
      assert Turns(work[1..], maxlun, cursors[1..], served[1..]);
      ServedWithin(work[1..], maxlun, cursors[1..], served[1..], k);
      var d' := Ahead(Start(cursors[1], maxlun), k, Slots(maxlun));
      var t :| 0 <= t <= d' && served[1..][..d' + 1][t] == Some(k);
      assert served[..d + 1][t + 1] == Some(k);
    }
  }

  /** A LUN that never runs empty is served within as many turns as there are LUNs, whatever else is queued. */
  lemma BoundedBypass(work: seq<seq<nat>>, maxlun: nat, cursors: seq<nat>, served: seq<Option<nat>>, k: nat)
    requires Turns(work, maxlun, cursors, served) && k < maxlun
    requires forall t | 0 <= t < |work| :: work[t][k] > 0
    requires |work| >= maxlun
    ensures Some(k) in served[..maxlun]
  {
    ServedWithin(work, maxlun, cursors, served, k);
  }

  class Unit {
    const maxlun: nat
    const lun: seq<Lun>

    constructor (maxlun: nat, lun: seq<Lun>)
      requires |lun| >= Slots(maxlun)
      ensures this.maxlun == maxlun && this.lun == lun
    {
      this.maxlun, this.lun := maxlun, lun;
    }

    /** The queues of the unit. */
    function Queues(): set<object> {
      set i | 0 <= i < |lun| && lun[i].Storage? && lun[i].queue != null :: lun[i].queue
    }

    ghost predicate Valid()
      reads Queues()
    {
      |lun| >= Slots(maxlun) && forall i | 0 <= i < |lun| && lun[i].Storage? && lun[i].queue != null ::
        lun[i].queue.Counted()
    }

    /** How many tasks wait in each slot that takes part. */
    ghost function Work(): (w: seq<nat>)
      requires Valid()
      reads Queues()
      ensures |w| == Slots(maxlun)
      ensures forall i | 0 <= i < |w| :: w[i] == Waiting(lun[i])
    {
      seq(Slots(maxlun), i requires 0 <= i < Slots(maxlun) reads Queues() => Waiting(lun[i]))
    }

    /** istgt_lu_disk_queue_count: the work of the first slot that has any, or none. */
    method QueueCount(cursor: nat) returns (qcnt: int, chosen: nat)
      requires Valid()
      ensures qcnt == 0 ==> chosen == Start(cursor, maxlun) && forall j | 0 <= j < Slots(maxlun) :: Work()[j] == 0
      ensures qcnt != 0 ==> First(Work(), Start(cursor, maxlun), chosen) && qcnt == Work()[chosen]
    {
      var i: nat := cursor;
      chosen := cursor;
      if i >= maxlun {
        chosen := 0;
        i := 0;
      }
      ghost var start := chosen;
      ghost var n, w := Slots(maxlun), Work();
      qcnt := 0;
      var luns := maxlun;
      while luns >= 0
        invariant -1 <= luns <= maxlun && i < n && qcnt == 0 && chosen == start
        invariant forall j | 0 <= j < n && Ahead(start, j, n) < maxlun - luns :: w[j] == 0
        invariant if maxlun - luns < n then Ahead(start, i, n) == maxlun - luns else luns == -1 || i == start
      {
        if lun[i].Storage? && lun[i].queue != null {
          qcnt := lun[i].queue.Count();
          if qcnt > 0 {
            chosen := i;
            break;
          }
        }
        AheadNext(start, i, n);
        i := i + 1;
        if i >= maxlun {
          i := 0;
        }
        luns := luns - 1;
      }
    }

    /** A turn of luworker up to the dequeue: the cursor moves past the LUN it serves. */
    method NextLun(cursor: nat) returns (served: Option<nat>, next: nat)
      requires Valid()
      ensures Turn(Work(), maxlun, cursor, served, next)
    {
      var qcnt, lun := QueueCount(cursor);
      if qcnt == 0 {
        return None, lun;
      }
      return Some(lun), lun + 1;
    }
  }
}
