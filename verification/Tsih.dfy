/**
 The session handles of a target: a table of slots, a 16-bit counter that wraps,
 and a bounded number of attempts to find a handle that is not in use.
 */
module Tsih {
  import opened Names

  const MAX_LU_TSIH := 256
  const RETRY := 10

  datatype Slot = Slot(tag: int, tsih: nat, port: Option<string>)

  const EMPTY := Slot(0, 0, None)

  datatype State = State(slots: seq<Slot>, maxtsih: int, last: nat)

  // ---------------------------------------------------------------- one call as a function of the table

  predicate Holds(slot: Slot, tsih: nat) {
    slot.port.Some? && slot.tsih == tsih
  }

  predicate Taken(slots: seq<Slot>, tsih: nat) {
    exists i | 1 <= i < |slots| :: Holds(slots[i], tsih)
  }

  predicate Usable(slots: seq<Slot>, tsih: nat) {
    tsih != 0 && !Taken(slots, tsih)
  }

  /** The candidate after a number of steps of the 16-bit counter. */
  function Candidate(last: nat, steps: nat): (c: nat)
    ensures c < 0x1_0000
  {
    (last + steps) % 0x1_0000
  }

  /** How many candidates are looked at: up to the first usable one, at most the given number. */
  function Attempts(slots: seq<Slot>, last: nat, most: nat): (n: nat)
    requires most > 0
    ensures 0 < n <= most
    ensures forall k | 1 <= k < n :: !Usable(slots, Candidate(last, k))
    ensures n < most ==> Usable(slots, Candidate(last, n))
  {
    if most == 1 then 1
    else
      var n := Attempts(slots, last, most - 1);
      if n == most - 1 && !Usable(slots, Candidate(last, n)) then most else n
  }

  /** The first free slot after the reserved one, or the end. */
  function FirstFree(slots: seq<Slot>, from: nat): (f: nat)
    requires from <= |slots|
    ensures from <= f <= |slots|
    ensures forall i | from <= i < f :: slots[i].port.Some?
    ensures f < |slots| ==> slots[f].port == None
    decreases |slots| - from
  {
    if from == |slots| || slots[from].port == None then from else FirstFree(slots, from + 1)
  }

  function Allocated(s: State, port: string, tag: int): (State, nat)
    requires |s.slots| == MAX_LU_TSIH
  {
    if tag == 0 || s.maxtsih >= MAX_LU_TSIH then (s, 0)
    else
      var n := Attempts(s.slots, s.last, RETRY + 1);
      var tsih := Candidate(s.last, n);
      if !Usable(s.slots, tsih) then (s.(last := tsih), 0)
      else
        var f := FirstFree(s.slots, 1);
        if f == MAX_LU_TSIH then (s.(last := tsih), tsih)
        else (State(s.slots[f := Slot(tag, tsih, Some(port))], s.maxtsih + 1, tsih), tsih)
  }

  /** The first slot with the handle and the port, or the end. */
  function Match(slots: seq<Slot>, from: nat, tsih: nat, port: string): (f: nat)
    requires from <= |slots|
    ensures from <= f <= |slots|
    ensures f < |slots| ==> Holds(slots[f], tsih) && SameName(port, slots[f].port.value)
    ensures forall i | from <= i < f :: !(Holds(slots[i], tsih) && SameName(port, slots[i].port.value))
    decreases |slots| - from
  {
    if from == |slots| || (Holds(slots[from], tsih) && SameName(port, slots[from].port.value)) then from
    else Match(slots, from + 1, tsih, port)
  }

  function Freed(s: State, tsih: nat, port: string): State
    requires |s.slots| == MAX_LU_TSIH
  {
    var f := Match(s.slots, 1, tsih, port);
    if tsih == 0 || f == MAX_LU_TSIH then s else s.(slots := s.slots[f := EMPTY], maxtsih := s.maxtsih - 1)
  }

  // ---------------------------------------------------------------- invariants

  function Live(slots: seq<Slot>): (n: nat)
    ensures n <= |slots|
  {
    if slots == [] then 0 else (if slots[0].port.Some? then 1 else 0) + Live(slots[1..])
  }

  /**
   Slot 0 stays empty, live handles are nonzero 16-bit numbers and no two are
   equal, and the counter of slots is one more than the number of live ones.
   */
  ghost predicate Inv(s: State) {
    && |s.slots| == MAX_LU_TSIH && s.last < 0x1_0000
    && s.slots[0].port == None
    && (forall i | 0 <= i < MAX_LU_TSIH ::
          if s.slots[i].port == None then s.slots[i] == EMPTY else 0 < s.slots[i].tsih < 0x1_0000)
    && (forall i, j | 0 <= i < j < MAX_LU_TSIH ::
          s.slots[i].port.Some? && s.slots[j].port.Some? ==> s.slots[i].tsih != s.slots[j].tsih)
    && s.maxtsih == 1 + Live(s.slots)
  }

  lemma {:induction false} LiveUpdate(slots: seq<Slot>, i: nat, x: Slot)
    requires i < |slots|
    ensures Live(slots[i := x]) == Live(slots) - (if slots[i].port.Some? then 1 else 0) + if x.port.Some? then 1 else 0
  {
    if i > 0 {
      LiveUpdate(slots[1..], i - 1, x);
      assert slots[i := x][1..] == slots[1..][i - 1 := x];
    } else {
      assert slots[0 := x][1..] == slots[1..];
    }
  }

  lemma {:induction false} LiveAll(slots: seq<Slot>)
    requires forall i | 0 <= i < |slots| :: slots[i].port.Some?
    ensures Live(slots) == |slots|
  {
    if slots != [] {
      LiveAll(slots[1..]);
    }
  }

  /** Where the capacity check passes a free slot is found. */
  lemma RoomMeansSlot(s: State)
    requires Inv(s) && s.maxtsih < MAX_LU_TSIH
    ensures FirstFree(s.slots, 1) < MAX_LU_TSIH
  {
    if FirstFree(s.slots, 1) == MAX_LU_TSIH {
      LiveAll(s.slots[1..]);
      assert false;
    }
  }

  lemma AllocatedKeeps(s: State, port: string, tag: int)
    requires Inv(s)
    ensures Inv(Allocated(s, port, tag).0)
  {
    if tag != 0 && s.maxtsih < MAX_LU_TSIH {
      RoomMeansSlot(s);
      var f := FirstFree(s.slots, 1);
      var tsih := Candidate(s.last, Attempts(s.slots, s.last, RETRY + 1));
      LiveUpdate(s.slots, f, Slot(tag, tsih, Some(port)));
    }
  }

  lemma FreedKeeps(s: State, tsih: nat, port: string)
    requires Inv(s)
    ensures Inv(Freed(s, tsih, port))
  {
    var f := Match(s.slots, 1, tsih, port);
    if f < MAX_LU_TSIH {
      LiveUpdate(s.slots, f, EMPTY);
    }
  }

  /** The counter value k steps on, when each one before it is 0 or taken. */
  predicate IsNext(slots: seq<Slot>, last: nat, k: nat, tsih: nat) {
    tsih == (last + k) % 0x1_0000
    && forall j | 1 <= j < k :: Passed(slots, last, j)
  }

  predicate Passed(slots: seq<Slot>, last: nat, j: nat) {
    (last + j) % 0x1_0000 == 0 || Taken(slots, (last + j) % 0x1_0000)
  }

  lemma FirstUsable(slots: seq<Slot>, last: nat, n: nat)
    requires forall k | 1 <= k < n :: !Usable(slots, Candidate(last, k))
    ensures IsNext(slots, last, n, Candidate(last, n))
  {
    hide Taken;
    forall j | 1 <= j < n
      ensures Passed(slots, last, j)
    {
      assert !Usable(slots, Candidate(last, j));
    }
  }

  /**
   A handle is given exactly when the tag is not 0, a slot is free and one of the
   next eleven values of the counter is usable; it is then in use nowhere else
   and goes into one empty slot. Otherwise no slot changes.
   */
  lemma AllocatedMeans(s: State, port: string, tag: int, s': State, tsih: nat)
    requires Inv(s) && (s', tsih) == Allocated(s, port, tag)
    ensures tsih != 0 <==> && tag != 0 && s.maxtsih < MAX_LU_TSIH
                           && exists k | 1 <= k <= RETRY + 1 :: Usable(s.slots, Candidate(s.last, k))
    ensures tsih != 0 ==> tsih < 0x1_0000 && !Taken(s.slots, tsih)
    ensures tsih != 0 ==>
      exists f | 1 <= f < MAX_LU_TSIH ::
        s.slots[f] == EMPTY && s'.slots == s.slots[f := Slot(tag, tsih, Some(port))]
    ensures tsih == 0 ==> s'.slots == s.slots && s'.maxtsih == s.maxtsih
    ensures tsih != 0 ==> tsih == s'.last && exists k | 1 <= k <= 11 :: IsNext(s.slots, s.last, k, tsih)
  {
    hide Live;
    if tag != 0 && s.maxtsih < MAX_LU_TSIH {
      RoomMeansSlot(s);
      hide Taken;
      var n := Attempts(s.slots, s.last, RETRY + 1);
      FirstUsable(s.slots, s.last, n);
      assert s.slots[FirstFree(s.slots, 1)] == EMPTY;
    }
  }

  lemma MatchIff(slots: seq<Slot>, h: nat, port: string)
    requires slots != []
    ensures Match(slots, 1, h, port) < |slots| <==>
      exists i | 1 <= i < |slots| :: Holds(slots[i], h) && Lower(slots[i].port.value) == Lower(port)
  {
    var f := Match(slots, 1, h, port);
    if f < |slots| {
      assert Holds(slots[f], h) && Lower(slots[f].port.value) == Lower(port);
    }
  }

  /** Only the slot with the handle and the port is emptied; every other live handle stays. */
  lemma FreedMeans(s: State, tsih: nat, port: string, h: nat)
    requires Inv(s) && h != 0
    ensures Taken(Freed(s, tsih, port).slots, h)
       <==> Taken(s.slots, h)
            && !(h == tsih && exists i | 1 <= i < MAX_LU_TSIH ::
                   Holds(s.slots[i], h) && Lower(s.slots[i].port.value) == Lower(port))
    ensures forall i | 0 <= i < MAX_LU_TSIH && !(Holds(s.slots[i], tsih) && SameName(port, s.slots[i].port.value)) ::
      Freed(s, tsih, port).slots[i] == s.slots[i]
  {
    hide Live, SameName;
    MatchIff(s.slots, h, port);
    var f := Match(s.slots, 1, tsih, port);
    var after := Freed(s, tsih, port).slots;
    if Taken(s.slots, h) {
      var i :| 1 <= i < |s.slots| && Holds(s.slots[i], h);
      if i != f {
        assert Holds(after[i], h);
      }
    }
  }

  /** A handle given and freed by the same port leaves the table as it was. */
  lemma AllocateThenFree(s: State, port: string, tag: int)
    requires Inv(s) && Allocated(s, port, tag).1 != 0
    ensures Freed(Allocated(s, port, tag).0, Allocated(s, port, tag).1, port).slots == s.slots
    ensures Freed(Allocated(s, port, tag).0, Allocated(s, port, tag).1, port).maxtsih == s.maxtsih
  {
    hide Live;
    var (s', tsih) := Allocated(s, port, tag);
    RoomMeansSlot(s);
    var f := FirstFree(s.slots, 1);
    assert forall i | 1 <= i < |s.slots| :: !Holds(s.slots[i], tsih);
    assert Holds(s'.slots[f], tsih) && SameName(port, s'.slots[f].port.value);
    assert Match(s'.slots, 1, tsih, port) == f;
    assert s.slots[f := Slot(tag, tsih, Some(port))][f := EMPTY] == s.slots;
  }

  // ---------------------------------------------------------------- runs

  datatype Event = Login(port: string, tag: int) | Logout(tsih: nat, port: string)

  function After(s: State, e: Event): State
    requires |s.slots| == MAX_LU_TSIH
  {
    match e
    case Login(port, tag) => Allocated(s, port, tag).0
    case Logout(tsih, port) => Freed(s, tsih, port)
  }

  function Run(s: State, es: seq<Event>): (r: State)
    requires |s.slots| == MAX_LU_TSIH
    ensures |r.slots| == MAX_LU_TSIH
  {
    if es == [] then s else After(Run(s, es[..|es| - 1]), es[|es| - 1])
  }

  const START := State(seq(MAX_LU_TSIH, _ => EMPTY), 1, 0)

  lemma {:induction false} LiveNone(slots: seq<Slot>)
    requires forall i | 0 <= i < |slots| :: slots[i].port == None
    ensures Live(slots) == 0
  {
    if slots != [] {
      LiveNone(slots[1..]);
    }
  }

  lemma {:induction false} EveryRun(es: seq<Event>)
    ensures Inv(Run(START, es))
  {
    if es == [] {
      LiveNone(START.slots);
    } else {
      EveryRun(es[..|es| - 1]);
      var before := Run(START, es[..|es| - 1]);
      match es[|es| - 1]
      case Login(port, tag) => AllocatedKeeps(before, port, tag);
      case Logout(tsih, port) => FreedKeeps(before, tsih, port);
    }
  }

  // ---------------------------------------------------------------- the target

  class Target {
    const slots: array<Slot>
    var maxtsih: int
    var last: nat

    ghost function Table(): State
      reads this, slots
    {
      State(slots[..], maxtsih, last)
    }

    /** The initial table of istgt_lu_add_unit. */
    constructor ()
      ensures fresh(slots) && Table() == START && Inv(Table())
    {
      slots := new Slot[MAX_LU_TSIH](_ => EMPTY);
      maxtsih, last := 1, 0;
      new;
      assert slots[..] == START.slots;
      LiveNone(slots[..]);
    }

    /** The search for the handle among the live slots. */
    method Found(tsih: nat) returns (found: bool)
      requires slots.Length == MAX_LU_TSIH
      ensures found <==> Taken(slots[..], tsih)
    {
      var i := 1;
      while i < MAX_LU_TSIH
        invariant 1 <= i <= MAX_LU_TSIH
        invariant forall j | 1 <= j < i :: !Holds(slots[..][j], tsih)
      {
        if slots[i].port.Some? && slots[i].tsih == tsih {
          assert Holds(slots[..][i], tsih);
          return true;
        }
        i := i + 1;
      }
      found := false;
    }

    /** The attempts: the counter moves on until a handle is usable or no retry is left. */
    method NextHandle() returns (tsih: nat, ghost n: nat)
      requires slots.Length == MAX_LU_TSIH && last < 0x1_0000
      modifies this`last
      ensures n == Attempts(slots[..], old(last), RETRY + 1) && last == Candidate(old(last), n)
      ensures tsih == if Usable(slots[..], last) then last else 0
    {
      hide Taken, Candidate, Attempts;
      NextCandidate(last, 0);
      var retry := RETRY;
      n := 0;
      while true
        invariant n + retry == RETRY && 0 <= retry
        invariant last == Candidate(old(last), n)
        invariant forall k | 1 <= k <= n :: !Usable(slots[..], Candidate(old(last), k))
        decreases retry
      {
        NextCandidate(old(last), n);
        last := (last + 1) % 0x1_0000;
        tsih := last;
        n := n + 1;
        if tsih != 0 {
          var found := Found(tsih);
          if !found {
            AttemptsIs(slots[..], old(last), RETRY + 1, n);
            return;
          }
        }
        if retry == 0 {
          AttemptsIs(slots[..], old(last), RETRY + 1, n);
          return 0, n;
        }
        retry := retry - 1;
      }
    }

    /** istgt_lu_allocate_tsih */
    method AllocateTsih(port: string, tag: int) returns (tsih: nat)
      requires Inv(Table())
      modifies this, slots
      ensures (Table(), tsih) == Allocated(old(Table()), port, tag)
      ensures Inv(Table())
    {
      hide Live, Taken, Attempts;
      AllocatedKeeps(Table(), port, tag);
      if tag == 0 {
        return 0;
      }
      if maxtsih >= MAX_LU_TSIH {
        return 0;
      }
      RoomMeansSlot(Table());
      ghost var n;
      tsih, n := NextHandle();
      if tsih == 0 {
        return 0;
      }
      var i := 1;
      ghost var before := slots[..];
      while i < MAX_LU_TSIH
        invariant 1 <= i <= MAX_LU_TSIH && slots[..] == before
        invariant FirstFree(before, 1) == FirstFree(before, i)
      {
        if slots[i].port == None {
          slots[i] := Slot(tag, tsih, Some(port));
          maxtsih := maxtsih + 1;
          break;
        }
        i := i + 1;
      }
    }

    /** istgt_lu_free_tsih */
    method FreeTsih(tsih: nat, port: string)
      requires Inv(Table())
      modifies this, slots
      ensures Table() == Freed(old(Table()), tsih, port)
      ensures Inv(Table())
    {
      hide Live;
      FreedKeeps(Table(), tsih, port);
      if tsih == 0 {
        return;
      }
      var i := 1;
      while i < MAX_LU_TSIH
        invariant 1 <= i <= MAX_LU_TSIH && Table() == old(Table())
        invariant Match(slots[..], 1, tsih, port) == Match(slots[..], i, tsih, port)
      {
        if slots[i].port.Some? && slots[i].tsih == tsih {
          if SameName(port, slots[i].port.value) {
            slots[i] := EMPTY;
            maxtsih := maxtsih - 1;
            break;
          }
        }
        i := i + 1;
      }
    }
  }

  lemma NextCandidate(last: nat, n: nat)
    ensures Candidate(last, n + 1) == (Candidate(last, n) + 1) % 0x1_0000
    ensures last < 0x1_0000 ==> Candidate(last, 0) == last
  {
  }

  lemma AttemptsIs(slots: seq<Slot>, last: nat, most: nat, n: nat)
    requires 0 < n <= most
    requires forall k | 1 <= k < n :: !Usable(slots, Candidate(last, k))
    requires n < most ==> Usable(slots, Candidate(last, n))
    ensures Attempts(slots, last, most) == n
  {
    hide Usable, Candidate;
  }
}
