/**
 Persistent reservations of one logical unit (section 6.12 of SPC-3): a fixed
 table of registrations, one reservation, the service actions of PERSISTENT
 RESERVE OUT, and RESERVE(6)/RELEASE(6) built on them.
 */
module Reservation {

  import opened Names

  const MAX_LU_RESERVE := 256
  const EXCLUSIVE_ACCESS := 3
  const TYPES := {1, 3, 5, 6, 7, 8}
  const WRITE_EXCLUSIVE_ALL_REGISTRANTS := 7
  const EXCLUSIVE_ACCESS_ALL_REGISTRANTS := 8
  const LU_SCOPE := 0

  // ---------------------------------------------------------------- state

  /** An entry of the table; a free one owns no strings. */
  datatype Slot = Slot(key: nat, initiatorPort: Option<string>, targetPort: Option<string>,
                       pgIdx: int, pgTag: int, allTpg: bool)

  const FREE: Slot := Slot(0, None, None, 0, 0, false)

  predicate OwnsNothing(s: Slot) {
    s.initiatorPort.None? && s.targetPort.None?
  }

  predicate Registered(s: Slot) {
    s.initiatorPort.Some? && s.targetPort.Some?
  }

  datatype State = State(regs: seq<Slot>, rsvPort: Option<string>, rsvKey: nat, rsvScope: nat, rsvType: nat,
                         generation: nat)

  /** The I_T nexus a command comes from; login has put the names in lower case. */
  datatype Nexus = Nexus(initiatorPort: string, targetPort: string, pgIdx: int, pgTag: int)

  predicate LowerCase(n: Nexus) {
    Lower(n.initiatorPort) == n.initiatorPort && Lower(n.targetPort) == n.targetPort
  }

  datatype Status = Good | Conflict | Check(asc: nat, ascq: nat)

  datatype Action = Register | Reserve | Release | Clear | Preempt | PreemptAndAbort | RegisterAndIgnore | Unsupported

  datatype Request = Request(action: Action, scope: nat, kind: nat, key: nat, actionKey: nat,
                             aptpl: bool, allTgPt: bool)

  // ---------------------------------------------------------------- lookup and removal

  predicate Matches(s: Slot, initiatorPort: string, targetPort: string, key: nat) {
    && (key == 0 || s.key == key)
    && s.initiatorPort == Some(initiatorPort)
    && (s.allTpg || s.targetPort == Some(targetPort))
  }

  /** The first matching registration. */
  function Find(regs: seq<Slot>, n: Nexus, key: nat): Option<Slot> {
    if regs == [] then None
    else if Matches(regs[0], n.initiatorPort, n.targetPort, key) then Some(regs[0])
    else Find(regs[1..], n, key)
  }

  /** Which registrations a removal takes: those of a port and key, or all others. */
  datatype Removal = Of(initiatorPort: Option<string>, targetPort: Option<string>, key: nat)
                   | Others(initiatorPort: Option<string>, targetPort: Option<string>, key: nat)

  predicate NamesPort(port: Option<string>, given: Option<string>) {
    given.None? || (port.Some? && SameName(port.value, given.value))
  }

  predicate Goes(r: Removal, s: Slot) {
    match r
    case Of(ip, tp, key) =>
      (key == 0 || s.key == key) && NamesPort(s.initiatorPort, ip) && (s.allTpg || NamesPort(s.targetPort, tp))
    case Others(ip, tp, key) =>
      !(key == 0 || s.key == key) && !NamesPort(s.initiatorPort, ip) && !(s.allTpg || NamesPort(s.targetPort, tp))
  }

  /** What a removal leaves, in order. */
  function Left(r: Removal, regs: seq<Slot>): seq<Slot> {
    if regs == [] then []
    else (if Goes(r, regs[0]) then [] else [regs[0]]) + Left(r, regs[1..])
  }

  function OfNexus(n: Nexus): Removal {
    Of(Some(n.initiatorPort), Some(n.targetPort), 0)
  }

  // ---------------------------------------------------------------- the service actions

  predicate ScopeAndTypeOk(q: Request) {
    q.scope == LU_SCOPE && q.kind in TYPES
  }

  const INVALID_CDB := Check(0x24, 0x00)
  const INVALID_PARAMETER := Check(0x26, 0x00)
  const INVALID_RELEASE := Check(0x26, 0x04)
  const NO_RESOURCES := Check(0x55, 0x04)
  const INTERNAL := Check(0x44, 0x00)

  function Bumped(s: State): State {
    s.(generation := (s.generation + 1) % 0x1_0000_0000)
  }

  function Unreserved(s: State): State {
    s.(rsvPort := None, rsvKey := 0, rsvScope := 0, rsvType := 0)
  }

  function Reserved(s: State, n: Nexus, q: Request): State {
    s.(rsvPort := Some(Lower(n.initiatorPort)), rsvKey := q.key, rsvScope := q.scope, rsvType := q.kind)
  }

  function NewSlot(n: Nexus, q: Request): Slot {
    Slot(q.actionKey, Some(Lower(n.initiatorPort)), Some(Lower(n.targetPort)), n.pgIdx, n.pgTag, q.allTgPt)
  }

  /** do_register */
  function Registering(s: State, n: Nexus, q: Request): (State, Status) {
    if |s.regs| >= MAX_LU_RESERVE then (s, NO_RESOURCES)
    else
      (Bumped(s.(regs := s.regs + [NewSlot(n, q)],
                 rsvKey := if q.key != 0 && s.rsvKey == q.key then q.actionKey else s.rsvKey)),
       Good)
  }

  function RegisterOut(s: State, n: Nexus, q: Request): (State, Status) {
    if q.aptpl then (s, INVALID_PARAMETER)
    else if Find(s.regs, n, 0).None? then
      if q.key != 0 then (s, Conflict) else if q.actionKey == 0 then (s, Good) else Registering(s, n, q)
    else if Find(s.regs, n, q.key).None? then (s, Conflict)
    else
      var t := s.(regs := Left(OfNexus(n), s.regs));
      if q.actionKey == 0 then (t, Good) else Registering(t, n, q)
  }

  function RegisterAndIgnoreOut(s: State, n: Nexus, q: Request): (State, Status) {
    if q.aptpl then (s, INVALID_PARAMETER)
    else if Find(s.regs, n, 0).None? && q.actionKey == 0 then (s, Good)
    else
      var t := s.(regs := Left(OfNexus(n), s.regs));
      if q.actionKey == 0 then (t, Good) else Registering(t, n, q)
  }

  predicate HeldBy(s: State, n: Nexus, registration: Slot) {
    registration.key == s.rsvKey && s.rsvPort.Some? && SameName(s.rsvPort.value, n.initiatorPort)
  }

  function ReserveOut(s: State, n: Nexus, q: Request): (State, Status) {
    var found := Find(s.regs, n, q.key);
    if found.None? then (s, Conflict)
    else if s.rsvKey != 0 then (s, if HeldBy(s, n, found.value) then Good else Conflict)
    else if !ScopeAndTypeOk(q) then (s, INVALID_CDB)
    else (Reserved(s, n, q), Good)
  }

  function ReleaseOut(s: State, n: Nexus, q: Request): (State, Status) {
    var found := Find(s.regs, n, q.key);
    if found.None? then (s, Conflict)
    else if s.rsvKey == 0 then (s, Good)
    else if !HeldBy(s, n, found.value) then (s, INVALID_RELEASE)
    else if !ScopeAndTypeOk(q) then (s, INVALID_CDB)
    else if s.rsvScope != q.scope || s.rsvType != q.kind then (s, INVALID_RELEASE)
    else (Unreserved(s), Good)
  }

  function ClearOut(s: State, n: Nexus): (State, Status) {
    if Find(s.regs, n, 0).None? then (s, Conflict) else (Unreserved(s).(regs := []), Good)
  }

  predicate AllRegistrants(s: State) {
    s.rsvType == WRITE_EXCLUSIVE_ALL_REGISTRANTS || s.rsvType == EXCLUSIVE_ACCESS_ALL_REGISTRANTS
  }

  /** The new reservation of a preemption; aborted says whether the abort it may ask for went through. */
  function TakenOver(s: State, n: Nexus, q: Request, aborted: bool): (State, Status) {
    if !ScopeAndTypeOk(q) then (s, INVALID_CDB)
    else
      (Bumped(Reserved(s, n, q)),
       if q.action.PreemptAndAbort? && s.rsvPort.Some? && !aborted then INTERNAL else Good)
  }

  function PreemptOut(s: State, n: Nexus, q: Request, aborted: bool): (State, Status) {
    var byKey := s.(regs := Left(Of(None, None, q.actionKey), s.regs));
    var others := s.(regs := Left(Others(Some(n.initiatorPort), Some(n.targetPort), q.key), s.regs));
    if Find(s.regs, n, 0).None? then (s, Conflict)
    else if s.rsvKey == 0 then (Bumped(byKey), Good)
    else if AllRegistrants(s) then
      if q.actionKey != 0 then (Bumped(byKey), Good) else TakenOver(others, n, q, aborted)
    else if Find(s.regs, n, q.key).None? || q.actionKey != s.rsvKey then
      if q.actionKey != 0 then (byKey, Good) else (s, INVALID_PARAMETER)
    else TakenOver(byKey, n, q, aborted)
  }

  /** PERSISTENT RESERVE OUT without SPEC_I_PT. */
  function Out(s: State, n: Nexus, q: Request, aborted: bool): (State, Status) {
    match q.action
    case Register => RegisterOut(s, n, q)
    case Reserve => ReserveOut(s, n, q)
    case Release => ReleaseOut(s, n, q)
    case Clear => ClearOut(s, n)
    case Preempt => PreemptOut(s, n, q, aborted)
    case PreemptAndAbort => PreemptOut(s, n, q, aborted)
    case RegisterAndIgnore => RegisterAndIgnoreOut(s, n, q)
    case Unsupported => (s, INVALID_CDB)
  }

  // ---------------------------------------------------------------- invariant over every run

  predicate SamePorts(a: Slot, b: Slot) {
    a.initiatorPort == b.initiatorPort && a.targetPort == b.targetPort
  }

  ghost predicate Invariant(s: State) {
    && |s.regs| <= MAX_LU_RESERVE
    && (forall i | 0 <= i < |s.regs| :: s.regs[i].key != 0 && Registered(s.regs[i])
          && Lower(s.regs[i].initiatorPort.value) == s.regs[i].initiatorPort.value
          && Lower(s.regs[i].targetPort.value) == s.regs[i].targetPort.value)
    && (forall i, j | 0 <= i < j < |s.regs| :: !SamePorts(s.regs[i], s.regs[j]))
    && (s.rsvKey != 0 ==> s.rsvPort.Some? && s.rsvScope == LU_SCOPE && s.rsvType in TYPES)
  }

  /** A removal keeps exactly the entries it does not take, in their order. */
  lemma {:induction false} LeftKeeps(r: Removal, regs: seq<Slot>)
    ensures |Left(r, regs)| <= |regs|
    ensures forall x :: x in Left(r, regs) <==> x in regs && !Goes(r, x)
    ensures (exists x :: x in regs && Goes(r, x)) ==> |Left(r, regs)| < |regs|
    ensures (forall x | x in regs :: !Goes(r, x)) ==> Left(r, regs) == regs
  {
    if regs != [] {
      LeftKeeps(r, regs[1..]);
      assert regs == [regs[0]] + regs[1..];
    }
  }

  lemma {:induction false} LeftDistinct(r: Removal, regs: seq<Slot>)
    requires forall i, j | 0 <= i < j < |regs| :: !SamePorts(regs[i], regs[j])
    ensures forall i, j | 0 <= i < j < |Left(r, regs)| :: !SamePorts(Left(r, regs)[i], Left(r, regs)[j])
  {
    if regs != [] {
      LeftDistinct(r, regs[1..]);
      LeftKeeps(r, regs[1..]);
      var rest := Left(r, regs[1..]);
      forall j | 0 <= j < |rest|
        ensures !SamePorts(regs[0], rest[j])
      {
        assert rest[j] in regs[1..];
      }
    }
  }

  lemma {:induction false} LeftConcat(r: Removal, a: seq<Slot>, b: seq<Slot>)
    ensures Left(r, a + b) == Left(r, a) + Left(r, b)
  {
    if a == [] {
      assert a + b == b;
    } else {
      assert (a + b)[1..] == a[1..] + b;
      LeftConcat(r, a[1..], b);
      var first := if Goes(r, a[0]) then [] else [a[0]];
      assert (first + Left(r, a[1..])) + Left(r, b) == first + (Left(r, a[1..]) + Left(r, b));
    }
  }

  /** Removal twice is removal once. */
  lemma LeftStable(r: Removal, regs: seq<Slot>)
    ensures Left(r, Left(r, regs)) == Left(r, regs)
  {
    LeftKeeps(r, regs);
    LeftKeeps(r, Left(r, regs));
  }

  lemma {:induction false} FindMeans(regs: seq<Slot>, n: Nexus, key: nat)
    ensures Find(regs, n, key).None? <==> forall x | x in regs :: !Matches(x, n.initiatorPort, n.targetPort, key)
    ensures Find(regs, n, key).Some? ==>
              Find(regs, n, key).value in regs && Matches(Find(regs, n, key).value, n.initiatorPort, n.targetPort, key)
  {
    if regs != [] {
      FindMeans(regs[1..], n, key);
      assert regs == [regs[0]] + regs[1..];
    }
  }

  lemma RemovalKeepsInvariant(s: State, r: Removal)
    requires Invariant(s)
    ensures Invariant(s.(regs := Left(r, s.regs)))
  {
    LeftKeeps(r, s.regs);
    LeftDistinct(r, s.regs);
    forall i | 0 <= i < |Left(r, s.regs)|
      ensures Left(r, s.regs)[i] in s.regs
    {
      assert Left(r, s.regs)[i] in Left(r, s.regs);
    }
  }

  /** After a port's registrations are removed, or when it has none, a new one repeats no pair of ports. */
  lemma RegisteringKeepsInvariant(s: State, n: Nexus, q: Request)
    requires Invariant(s) && q.actionKey != 0
    requires forall x | x in s.regs ::
      !(x.initiatorPort == Some(Lower(n.initiatorPort)) && x.targetPort == Some(Lower(n.targetPort)))
    ensures Invariant(Registering(s, n, q).0)
  {
    LowerTwice(n.initiatorPort);
    LowerTwice(n.targetPort);
  }

  lemma UnregisteredPort(regs: seq<Slot>, n: Nexus)
    requires LowerCase(n) && Find(regs, n, 0).None?
    ensures forall x | x in regs ::
      !(x.initiatorPort == Some(Lower(n.initiatorPort)) && x.targetPort == Some(Lower(n.targetPort)))
  {
    FindMeans(regs, n, 0);
  }

  lemma RemovedPort(regs: seq<Slot>, n: Nexus)
    ensures forall x | x in Left(OfNexus(n), regs) ::
              !(x.initiatorPort == Some(Lower(n.initiatorPort)) && x.targetPort == Some(Lower(n.targetPort)))
  {
    LeftKeeps(OfNexus(n), regs);
    LowerTwice(n.initiatorPort);
    LowerTwice(n.targetPort);
  }

  lemma OutKeepsInvariant(s: State, n: Nexus, q: Request, aborted: bool)
    requires Invariant(s) && LowerCase(n)
    ensures Invariant(Out(s, n, q, aborted).0)
  {
    hide Invariant, Left, Find;
    match q.action
    case Register =>
      RemovalKeepsInvariant(s, OfNexus(n));
      RemovedPort(s.regs, n);
      if q.actionKey != 0 {
        RegisteringKeepsInvariant(s.(regs := Left(OfNexus(n), s.regs)), n, q);
        if Find(s.regs, n, 0).None? {
          UnregisteredPort(s.regs, n);
          RegisteringKeepsInvariant(s, n, q);
        }
      }
    case RegisterAndIgnore =>
      RemovalKeepsInvariant(s, OfNexus(n));
      RemovedPort(s.regs, n);
      if q.actionKey != 0 {
        RegisteringKeepsInvariant(s.(regs := Left(OfNexus(n), s.regs)), n, q);
      }
    case Preempt => PreemptKeepsInvariant(s, n, q, aborted);
    case PreemptAndAbort => PreemptKeepsInvariant(s, n, q, aborted);
    case Clear => ClearedInvariant(s);
    case Reserve => ReservedInvariant(s, n, q);
    case Release => ReservedInvariant(s, n, q);
    case Unsupported =>
  }

  lemma ClearedInvariant(s: State)
    ensures Invariant(Unreserved(s).(regs := []))
  {
  }

  lemma ReservedInvariant(s: State, n: Nexus, q: Request)
    requires Invariant(s)
    ensures Invariant(Unreserved(s)) && Invariant(Bumped(s))
    ensures ScopeAndTypeOk(q) ==> Invariant(Reserved(s, n, q)) && Invariant(Bumped(Reserved(s, n, q)))
  {
  }

  lemma PreemptKeepsInvariant(s: State, n: Nexus, q: Request, aborted: bool)
    requires Invariant(s)
    ensures Invariant(PreemptOut(s, n, q, aborted).0)
  {
    hide Invariant, Left, Find;
    var byKey := s.(regs := Left(Of(None, None, q.actionKey), s.regs));
    var others := s.(regs := Left(Others(Some(n.initiatorPort), Some(n.targetPort), q.key), s.regs));
    RemovalKeepsInvariant(s, Of(None, None, q.actionKey));
    RemovalKeepsInvariant(s, Others(Some(n.initiatorPort), Some(n.targetPort), q.key));
    ReservedInvariant(byKey, n, q);
    ReservedInvariant(others, n, q);
  }

  // ---------------------------------------------------------------- RESERVE(6) and RELEASE(6)

  /** The request that registers a derived key, or with key 0 takes the registration back. */
  function RegisterKey(key: nat, actionKey: nat): Request {
    Request(RegisterAndIgnore, 0, 0, key, actionKey, false, false)
  }

  function WithKey(action: Action, key: nat): Request {
    Request(action, LU_SCOPE, EXCLUSIVE_ACCESS, key, 0, false, false)
  }

  function Reported(st: Status): Status {
    if st == Conflict then Conflict else INTERNAL
  }

  function Reserve6(s: State, n: Nexus, derivedKey: nat): (State, Status) {
    var (t, st) := Out(s, n, RegisterKey(0, derivedKey), true);
    if st != Good then (t, Reported(st))
    else
      var (u, su) := Out(t, n, WithKey(Reserve, derivedKey), true);
      if su != Good then (u, Reported(su)) else (u, Good)
  }

  function Release6(s: State, n: Nexus, derivedKey: nat): (State, Status) {
    var (t, st) := Out(s, n, WithKey(Release, derivedKey), true);
    if st != Good then (t, Reported(st))
    else
      var (u, su) := Out(t, n, RegisterKey(derivedKey, 0), true);
      if su != Good then (u, Reported(su)) else (u, Good)
  }

  datatype Command =
    | ReserveOutCommand(nexus: Nexus, request: Request, aborted: bool)
    | Reserve6Command(nexus: Nexus, derivedKey: nat)
    | Release6Command(nexus: Nexus, derivedKey: nat)

  function Step(s: State, c: Command): (State, Status) {
    match c
    case ReserveOutCommand(n, q, aborted) => Out(s, n, q, aborted)
    case Reserve6Command(n, k) => Reserve6(s, n, k)
    case Release6Command(n, k) => Release6(s, n, k)
  }

  function Run(s: State, cs: seq<Command>): State
    decreases |cs|
  {
    if cs == [] then s else Run(Step(s, cs[0]).0, cs[1..])
  }

  const EMPTY: State := State([], None, 0, 0, 0, 0)

  lemma {:induction false} RunKeepsInvariant(s: State, cs: seq<Command>)
    requires Invariant(s) && forall c | c in cs :: LowerCase(c.nexus)
    ensures Invariant(Run(s, cs))
    decreases |cs|
  {
    hide Invariant, Out;
    if cs != [] {
      var c := cs[0];
      match c {
        case ReserveOutCommand(n, q, aborted) => OutKeepsInvariant(s, n, q, aborted);
        case Reserve6Command(n, k) =>
          OutKeepsInvariant(s, n, RegisterKey(0, k), true);
          OutKeepsInvariant(Out(s, n, RegisterKey(0, k), true).0, n, WithKey(Reserve, k), true);
        case Release6Command(n, k) =>
          OutKeepsInvariant(s, n, WithKey(Release, k), true);
          OutKeepsInvariant(Out(s, n, WithKey(Release, k), true).0, n, RegisterKey(k, 0), true);
      }
      RunKeepsInvariant(Step(s, c).0, cs[1..]);
    }
  }

  /** From an empty table, whatever the initiators send: the invariant holds all the time. */
  lemma EveryRun(cs: seq<Command>)
    requires forall c | c in cs :: LowerCase(c.nexus)
    ensures Invariant(Run(EMPTY, cs))
  {
    RunKeepsInvariant(EMPTY, cs);
  }

  // ---------------------------------------------------------------- atomicity

  predicate Atomic(a: Action) {
    a.Register? || a.Reserve? || a.Release? || a.Clear? || a.RegisterAndIgnore?
  }

  /** An action that does not end GOOD has changed nothing, generation included. */
  lemma RefusedUnchanged(s: State, n: Nexus, q: Request, aborted: bool)
    requires |s.regs| <= MAX_LU_RESERVE && Atomic(q.action) && Out(s, n, q, aborted).1 != Good
    ensures Out(s, n, q, aborted).0 == s
  {
    FindMeans(s.regs, n, 0);
    LeftKeeps(OfNexus(n), s.regs);
    if Find(s.regs, n, 0).Some? {
      assert Goes(OfNexus(n), Find(s.regs, n, 0).value);
    }
  }

  /** The state before a preemption lets it take over the reservation, scope and type permitting. */
  predicate Reaches(s: State, n: Nexus, q: Request) {
    && Find(s.regs, n, 0).Some? && s.rsvKey != 0
    && if AllRegistrants(s) then q.actionKey == 0
       else Find(s.regs, n, q.key).Some? && q.actionKey == s.rsvKey
  }

  /** The registrations that such a preemption removes before it looks at scope and type. */
  function Preempted(s: State, n: Nexus, q: Request): Removal {
    if AllRegistrants(s) then Others(Some(n.initiatorPort), Some(n.targetPort), q.key)
    else Of(None, None, q.actionKey)
  }

  /**
   A preemption fails and still changes something exactly when it gets as far as
   taking over and then either its scope or type is wrong and a registration
   matches the removal, or the abort it asks for does not go through.
   */
  lemma PreemptChangesIff(s: State, n: Nexus, q: Request, aborted: bool)
    requires (q.action.Preempt? || q.action.PreemptAndAbort?) && s.generation < 0x1_0000_0000
    ensures Out(s, n, q, aborted).1 != Good && Out(s, n, q, aborted).0 != s <==>
              && Reaches(s, n, q)
              && if ScopeAndTypeOk(q) then q.action.PreemptAndAbort? && s.rsvPort.Some? && !aborted
                 else exists x :: x in s.regs && Goes(Preempted(s, n, q), x)
  {
    hide Find, Left, Goes;
    LeftKeeps(Others(Some(n.initiatorPort), Some(n.targetPort), q.key), s.regs);
    LeftKeeps(Of(None, None, q.actionKey), s.regs);
  }

  /** When a preemption fails at all, by the state before it. */
  lemma PreemptFailsIff(s: State, n: Nexus, q: Request, aborted: bool)
    requires q.action.Preempt? || q.action.PreemptAndAbort?
    ensures Out(s, n, q, aborted).1 != Good <==>
              || Find(s.regs, n, 0).None?
              || (s.rsvKey != 0 && q.actionKey == 0 && !Reaches(s, n, q))
              || (Reaches(s, n, q) && (ScopeAndTypeOk(q) ==> q.action.PreemptAndAbort? && s.rsvPort.Some? && !aborted))
  {
    hide Find, Left, Goes;
  }

  /** Such a preemption: one registration is gone although the command was refused. */
  lemma PreemptNotAtomic()
    ensures var n := Nexus("i", "t", 0, 1);
            var s := State([Slot(5, Some("i"), Some("t"), 0, 1, false)], Some("i"), 5, 0, 3, 1);
            var out := Out(s, n, Request(Preempt, 1, 3, 5, 5, false, false), true);
            out.1 == INVALID_CDB && out.0.regs == []
  {
  }

  // ---------------------------------------------------------------- who may do what

  /** A registration of the nexus, for one target port or all of them, with the key, or with any key if it is 0. */
  predicate IsOf(x: Slot, n: Nexus, key: nat) {
    (key != 0 ==> x.key == key) && x.initiatorPort == Some(n.initiatorPort)
    && (x.targetPort == Some(n.targetPort) || x.allTpg)
  }

  /** The first such registration. */
  predicate FirstOf(regs: seq<Slot>, n: Nexus, key: nat, i: nat) {
    i < |regs| && IsOf(regs[i], n, key) && forall j | 0 <= j < i :: !IsOf(regs[j], n, key)
  }

  ghost predicate Registrant(regs: seq<Slot>, n: Nexus, key: nat) {
    exists i :: 0 <= i < |regs| && IsOf(regs[i], n, key)
  }

  function Where(regs: seq<Slot>, n: Nexus, key: nat): (i: nat)
    ensures i == |regs| || FirstOf(regs, n, key, i)
    ensures forall j | 0 <= j < i :: !IsOf(regs[j], n, key)
  {
    if regs == [] || IsOf(regs[0], n, key) then 0 else 1 + Where(regs[1..], n, key)
  }

  /** A lookup gives the first registration of the nexus with the key. */
  lemma {:induction false} FindIs(regs: seq<Slot>, n: Nexus, key: nat)
    ensures Find(regs, n, key).Some? <==> Registrant(regs, n, key)
    ensures Find(regs, n, key).Some? ==>
      FirstOf(regs, n, key, Where(regs, n, key)) && Find(regs, n, key) == Some(regs[Where(regs, n, key)])
  {
    FindWhere(regs, n, key);
    hide Find, IsOf;
    var i := Where(regs, n, key);
    if i < |regs| {
      assert IsOf(regs[i], n, key);
    }
  }

  lemma {:induction false} FindWhere(regs: seq<Slot>, n: Nexus, key: nat)
    ensures Find(regs, n, key) == if Where(regs, n, key) < |regs| then Some(regs[Where(regs, n, key)]) else None
  {
    if regs != [] {
      FindWhere(regs[1..], n, key);
    }
  }

  predicate Named(port: Option<string>, name: string) {
    port.Some? && Lower(port.value) == Lower(name)
  }

  /** What removals leave: all but the nexus's, all but those with a key, all but those of other nexuses and keys. */
  lemma RemovalMeans(regs: seq<Slot>, n: Nexus, key: nat)
    ensures forall x :: x in Left(OfNexus(n), regs) <==>
      x in regs && !(Named(x.initiatorPort, n.initiatorPort) && (Named(x.targetPort, n.targetPort) || x.allTpg))
    ensures forall x :: x in Left(Of(None, None, key), regs) <==> x in regs && x.key != key && key != 0
    ensures forall x :: x in Left(Others(Some(n.initiatorPort), Some(n.targetPort), key), regs) <==>
      x in regs && (x.key == key || key == 0 || Named(x.initiatorPort, n.initiatorPort)
                    || Named(x.targetPort, n.targetPort) || x.allTpg)
  {
    LeftKeeps(OfNexus(n), regs);
    LeftKeeps(Of(None, None, key), regs);
    LeftKeeps(Others(Some(n.initiatorPort), Some(n.targetPort), key), regs);
  }

  /** The reservation of a state: holder, key, scope and type. */
  function Reservation4(s: State): (Option<string>, nat, nat, nat) {
    (s.rsvPort, s.rsvKey, s.rsvScope, s.rsvType)
  }

  const NONE: (Option<string>, nat, nat, nat) := (None, 0, 0, 0)

  /** The registration that a lookup finds has the key of the reservation and the sender is its holder. */
  ghost predicate Holder(s: State, n: Nexus, key: nat) {
    && (exists i: nat :: FirstOf(s.regs, n, key, i) && s.regs[i].key == s.rsvKey)
    && Named(s.rsvPort, n.initiatorPort)
  }

  lemma HolderIff(s: State, n: Nexus, key: nat)
    ensures Holder(s, n, key) <==> Find(s.regs, n, key).Some? && HeldBy(s, n, Find(s.regs, n, key).value)
  {
    hide Find, IsOf;
    FindIs(s.regs, n, key);
    if Holder(s, n, key) {
      var i: nat :| FirstOf(s.regs, n, key, i) && s.regs[i].key == s.rsvKey;
      assert Where(s.regs, n, key) == i;
    }
  }

  /**
   A RELEASE ends a reservation if and only if it comes from its holder and names the
   scope and type that are reserved; then nothing else changes. Otherwise nothing
   changes at all, and the answer says why.
   */
  lemma ReleaseEndsIff(s: State, n: Nexus, q: Request, aborted: bool)
    requires Invariant(s) && q.action.Release?
    ensures var (t, st) := Out(s, n, q, aborted);
      && (s.rsvKey != 0 ==>
            && (t.rsvKey == 0 <==> Holder(s, n, q.key) && q.scope == s.rsvScope && q.kind == s.rsvType)
            && (t.rsvKey == 0 <==> st == Good)
            && (st == Good ==> Reservation4(t) == NONE)
            && (st == Check(0x24, 0x00) <==> Holder(s, n, q.key) && !(q.scope == 0 && q.kind in {1, 3, 5, 6, 7, 8})))
      && (s.rsvKey == 0 ==> t == s && st in {Good, Conflict})
      && t.regs == s.regs && t.generation == s.generation
      && (st != Good ==> t == s && st in {Conflict, Check(0x24, 0x00), Check(0x26, 0x04)})
      && (st == Conflict <==> !Registrant(s.regs, n, q.key))
  {
    hide Find;
    FindIs(s.regs, n, q.key);
    HolderIff(s, n, q.key);
  }

  /**
   A RESERVE takes a free unit for its sender if it is registered with the key and
   names LU scope and a known type; on a reserved unit it changes nothing, and ends
   GOOD for the holder alone.
   */
  lemma ReserveMeans(s: State, n: Nexus, q: Request, aborted: bool)
    requires Invariant(s) && LowerCase(n) && q.action.Reserve?
    ensures var (t, st) := Out(s, n, q, aborted);
      && t.regs == s.regs && t.generation == s.generation
      && (s.rsvKey == 0 ==>
            (st == Good <==> Registrant(s.regs, n, q.key) && q.scope == 0 && q.kind in {1, 3, 5, 6, 7, 8}))
      && (s.rsvKey == 0 && st == Good ==> Reservation4(t) == (Some(n.initiatorPort), q.key, q.scope, q.kind))
      && (s.rsvKey != 0 ==> t == s && (st == Good <==> Holder(s, n, q.key)))
      && (st != Good ==> t == s && st == if !Registrant(s.regs, n, q.key) || s.rsvKey != 0 then Conflict
                                         else Check(0x24, 0x00))
  {
    hide Find, Invariant;
    FindIs(s.regs, n, q.key);
    HolderIff(s, n, q.key);
  }

  /** A CLEAR of any registered nexus leaves no reservation and no registration. */
  lemma ClearMeans(s: State, n: Nexus, q: Request, aborted: bool)
    requires q.action.Clear?
    ensures var (t, st) := Out(s, n, q, aborted);
      && (st == Good <==> Registrant(s.regs, n, 0)) && t.generation == s.generation
      && (st == Good ==> Reservation4(t) == NONE && t.regs == [])
      && (st != Good ==> t == s && st == Conflict)
  {
    hide Find;
    FindIs(s.regs, n, 0);
  }

  /** The registration that a REGISTER leaves. */
  function RegisteredAs(n: Nexus, q: Request): Slot {
    Slot(q.actionKey, Some(n.initiatorPort), Some(n.targetPort), n.pgIdx, n.pgTag, q.allTgPt)
  }

  /**
   REGISTER and REGISTER AND IGNORE EXISTING KEY: when they end GOOD, that the
   registrations of the nexus are replaced by one with the new key, or by none if it
   is 0, and that the reservation changes its key alone, and only from the key that
   the request names.
   */
  lemma RegisterMeans(s: State, n: Nexus, q: Request, aborted: bool)
    requires Invariant(s) && LowerCase(n) && (q.action.Register? || q.action.RegisterAndIgnore?)
    ensures var (t, st) := Out(s, n, q, aborted);
      && (st == Good <==>
            && !q.aptpl
            && (if Registrant(s.regs, n, 0) then q.action.RegisterAndIgnore? || Registrant(s.regs, n, q.key)
                else (q.action.Register? ==> q.key == 0)
                     && (q.actionKey != 0 ==> |s.regs| < 256)))
      && (st != Good ==> t == s
                         && st == if q.aptpl then Check(0x26, 0x00)
                                  else if Registrant(s.regs, n, 0) || (q.action.Register? && q.key != 0) then Conflict
                                  else Check(0x55, 0x04))
      && (st == Good ==>
            && t.regs == Left(OfNexus(n), s.regs) + (if q.actionKey == 0 then [] else [RegisteredAs(n, q)])
            && t.generation == (if q.actionKey == 0 then s.generation else (s.generation + 1) % 0x1_0000_0000)
            && Reservation4(t) == (s.rsvPort, if q.key != 0 && q.key == s.rsvKey && q.actionKey != 0 then q.actionKey
                                              else s.rsvKey, s.rsvScope, s.rsvType))
  {
    hide Find, Left, IsOf, FirstOf, Where, Registrant, HoldsSlot, Invariant, Lower;
    SizeWithin(s);
    FindIs(s.regs, n, 0);
    FindIs(s.regs, n, q.key);
    NothingFoundAfter(s.regs, n, 0);
    if Find(s.regs, n, 0).None? {
      NothingToRemove(s.regs, n, s);
    }
  }

  lemma SizeWithin(s: State)
    requires Invariant(s)
    ensures |s.regs| <= MAX_LU_RESERVE && (s.rsvKey != 0 ==> s.rsvPort.Some?)
  {
  }

  /** The preemption takes the reservation for its sender. */
  ghost predicate Takes(s: State, n: Nexus, q: Request) {
    Registrant(s.regs, n, 0) && s.rsvKey != 0
    && if s.rsvType == 7 || s.rsvType == 8 then q.actionKey == 0
       else q.actionKey == s.rsvKey && Registrant(s.regs, n, q.key)
  }

  /**
   PREEMPT and PREEMPT AND ABORT: whose reservation it is afterwards, and which
   registrations are gone. With all registrants a preemption with key 0 removes those
   of other nexuses and keys; any other one removes those with the key it names.
   */
  lemma PreemptMeans(s: State, n: Nexus, q: Request, aborted: bool)
    requires Invariant(s) && LowerCase(n) && (q.action.Preempt? || q.action.PreemptAndAbort?)
    ensures var (t, st) := Out(s, n, q, aborted);
            var ok := q.scope == 0 && q.kind in {1, 3, 5, 6, 7, 8};
      && Reservation4(t) == (if Takes(s, n, q) && ok then (Some(n.initiatorPort), q.key, q.scope, q.kind)
                             else Reservation4(s))
      && (Takes(s, n, q) && !ok ==> st == Check(0x24, 0x00) && t.generation == s.generation)
      && (Takes(s, n, q) && ok ==>
            && st == (if q.action.Preempt? || aborted then Good else Check(0x44, 0x00))
            && t.generation == (s.generation + 1) % 0x1_0000_0000)
      && (!Takes(s, n, q) ==> (st == Good <==> Registrant(s.regs, n, 0) && (s.rsvKey != 0 ==> q.actionKey != 0)))
      && (!Takes(s, n, q) && st != Good ==>
            t == s && st == if Registrant(s.regs, n, 0) then Check(0x26, 0x00) else Conflict)
      && (!Takes(s, n, q) && st == Good ==>
            t.generation == if s.rsvKey == 0 || s.rsvType == 7 || s.rsvType == 8
                            then (s.generation + 1) % 0x1_0000_0000 else s.generation)
      && (Takes(s, n, q) || st == Good ==>
            t.regs == if Takes(s, n, q) && q.actionKey == 0
                      then Left(Others(Some(n.initiatorPort), Some(n.targetPort), q.key), s.regs)
                      else Left(Of(None, None, q.actionKey), s.regs))
  {
    hide Find, Left, Registrant, IsOf, FirstOf, Where, Invariant, Lower;
    SizeWithin(s);
    FindIs(s.regs, n, 0);
    FindIs(s.regs, n, q.key);
  }

  /**
   RESERVE(6) is exclusive access to the whole unit under the derived key: it ends GOOD
   exactly when that key is not 0, there is room to register or a registration to
   replace, and the unit is free or already held by this port and key. Whoever is
   refused because of another holder gets a conflict.
   */
  lemma Reserve6Means(s: State, n: Nexus, key: nat)
    requires Invariant(s) && LowerCase(n) && key != 0
    ensures var (t, st) := Reserve6(s, n, key);
            var room := Registrant(s.regs, n, 0) || |s.regs| < 256;
            var mine := s.rsvKey == key && Named(s.rsvPort, n.initiatorPort);
      && (st == Good <==> room && (s.rsvKey == 0 || mine))
      && (st == Conflict <==> room && !(s.rsvKey == 0 || mine))
      && (st != Good && st != Conflict ==> st == Check(0x44, 0x00) && t == s)
      && (room ==> t.regs == Left(OfNexus(n), s.regs)
                   + [Slot(key, Some(n.initiatorPort), Some(n.targetPort), n.pgIdx, n.pgTag, false)])
      && (st == Good && s.rsvKey == 0 ==> Reservation4(t) == (Some(n.initiatorPort), key, 0, 3))
      && (room && s.rsvKey != 0 ==> Reservation4(t) == Reservation4(s))
  {
    hide Find, Left, Registrant, FirstOf, Where, Invariant, Lower, IsOf, HoldsSlot, Holder;
    FindIs(s.regs, n, 0);
    var q := RegisterKey(0, key);
    RegisterMeans(s, n, q, true);
    OutKeepsInvariant(s, n, q, true);
    var t := Out(s, n, q, true).0;
    ReserveMeans(t, n, WithKey(Reserve, key), true);
    NothingFoundAfter(s.regs, n, key);
    if Out(s, n, q, true).1 == Good {
      AnewFound(s, n, key, t);
    }
    hide Out;
  }

  /**
   RELEASE(6) ends exclusive access of the whole unit for its holder, or finds no
   reservation, and in both cases removes the registrations of the nexus; otherwise
   it changes nothing.
   */
  lemma Release6Means(s: State, n: Nexus, key: nat)
    requires Invariant(s) && LowerCase(n)
    ensures var (t, st) := Release6(s, n, key);
      && (st == Good <==> Registrant(s.regs, n, key)
                          && (s.rsvKey != 0 ==> Holder(s, n, key) && s.rsvScope == 0 && s.rsvType == 3))
      && (st == Good ==> t.regs == Left(OfNexus(n), s.regs) && t.generation == s.generation
                         && Reservation4(t) == if s.rsvKey == 0 then Reservation4(s) else NONE)
      && (st != Good ==> t == s && st == if Registrant(s.regs, n, key) then Check(0x44, 0x00) else Conflict)
  {
    hide Find, Left, Registrant, FirstOf, Where, Invariant, Lower, IsOf, Holder;
    var q := WithKey(Release, key);
    ReleaseEndsIff(s, n, q, true);
    OutKeepsInvariant(s, n, q, true);
    RegisterMeans(Out(s, n, q, true).0, n, RegisterKey(key, 0), true);
    hide Out;
  }

  /** The new registration is the one of its nexus and key. */
  lemma AnewFound(s: State, n: Nexus, key: nat, t: State)
    requires LowerCase(n) && key != 0 && t.regs == Left(OfNexus(n), s.regs) + [RegisteredAs(n, RegisterKey(0, key))]
    ensures Registrant(t.regs, n, key)
    ensures Holder(t, n, key) <==> t.rsvKey == key && Named(t.rsvPort, n.initiatorPort)
  {
    var x := RegisteredAs(n, RegisterKey(0, key));
    NothingFoundAfter(s.regs, n, key);
    FindLast(Left(OfNexus(n), s.regs), x, n, key);
    hide Find, Left, HoldsSlot;
    FindIs(t.regs, n, key);
    HolderIff(t, n, key);
  }

  /** The commands that may touch the reservation of another. */
  predicate Preempting(c: Command) {
    c.ReserveOutCommand? && (c.request.action.Clear? || c.request.action.Preempt? || c.request.action.PreemptAndAbort?)
  }

  /** A registration whose sender names the key of the reservation and gives a new one. */
  predicate ChangesKey(s: State, c: Command) {
    && c.ReserveOutCommand? && (c.request.action.Register? || c.request.action.RegisterAndIgnore?)
    && c.request.key == s.rsvKey && c.request.actionKey != 0
  }

  function KeyOf(c: Command): nat {
    if c.ReserveOutCommand? then c.request.key else c.derivedKey
  }

  predicate Releases(c: Command) {
    c.Release6Command? || (c.ReserveOutCommand? && c.request.action.Release?)
  }

  /**
   Whatever command comes in, a reservation stays as it is, except that its holder may
   release it, a CLEAR or a preemption of a registered nexus may end it or take it,
   and a registration that names its key may change that key.
   */
  lemma ReservationStays(s: State, c: Command)
    requires Invariant(s) && LowerCase(c.nexus) && s.rsvKey != 0
    ensures Reservation4(Step(s, c).0) != Reservation4(s) ==>
      || (Releases(c) && Holder(s, c.nexus, KeyOf(c)) && Reservation4(Step(s, c).0) == NONE)
      || (Preempting(c) && Registrant(s.regs, c.nexus, 0))
      || (ChangesKey(s, c)
          && Reservation4(Step(s, c).0) == (s.rsvPort, c.request.actionKey, s.rsvScope, s.rsvType))
  {
    hide Find, Left, Invariant, Out;
    match c
    case ReserveOutCommand(n, q, aborted) => OutStays(s, n, q, aborted);
    case Reserve6Command(n, k) =>
      OutKeepsInvariant(s, n, RegisterKey(0, k), true);
      RegisterMeans(s, n, RegisterKey(0, k), true);
      ReserveMeans(Out(s, n, RegisterKey(0, k), true).0, n, WithKey(Reserve, k), true);
    case Release6Command(n, k) =>
      ReleaseEndsIff(s, n, WithKey(Release, k), true);
      OutKeepsInvariant(s, n, WithKey(Release, k), true);
      RegisterMeans(Out(s, n, WithKey(Release, k), true).0, n, RegisterKey(k, 0), true);
  }

  lemma OutStays(s: State, n: Nexus, q: Request, aborted: bool)
    requires Invariant(s) && LowerCase(n) && s.rsvKey != 0
    ensures var c := ReserveOutCommand(n, q, aborted);
            Reservation4(Out(s, n, q, aborted).0) != Reservation4(s) ==>
      || (Releases(c) && Holder(s, n, KeyOf(c)) && Reservation4(Out(s, n, q, aborted).0) == NONE)
      || (Preempting(c) && Registrant(s.regs, n, 0))
      || (ChangesKey(s, c) && Reservation4(Out(s, n, q, aborted).0) == (s.rsvPort, q.actionKey, s.rsvScope, s.rsvType))
  {
    hide Find, Left, Invariant, ReleaseOut, ReserveOut, ClearOut, RegisterOut, RegisterAndIgnoreOut, PreemptOut;
    match q.action
    case Register => RegisterMeans(s, n, q, aborted);
    case RegisterAndIgnore => RegisterMeans(s, n, q, aborted);
    case Reserve => ReserveMeans(s, n, q, aborted);
    case Release => ReleaseEndsIff(s, n, q, aborted);
    case Clear => ClearMeans(s, n, q, aborted);
    case Preempt => PreemptMeans(s, n, q, aborted);
    case PreemptAndAbort => PreemptMeans(s, n, q, aborted);
    case Unsupported =>
  }

  // ---------------------------------------------------------------- RESERVE(6) then RELEASE(6)

  lemma FindLast(regs: seq<Slot>, x: Slot, n: Nexus, key: nat)
    requires Find(regs, n, key).None? && Matches(x, n.initiatorPort, n.targetPort, key)
    ensures Find(regs + [x], n, key) == Some(x)
  {
    if regs != [] {
      assert (regs + [x])[1..] == regs[1..] + [x];
      FindLast(regs[1..], x, n, key);
    }
  }

  lemma FindNoneStronger(regs: seq<Slot>, n: Nexus, key: nat)
    requires Find(regs, n, 0).None?
    ensures Find(regs, n, key).None?
  {
    FindMeans(regs, n, 0);
    FindMeans(regs, n, key);
  }

  lemma LeftOfNew(regs: seq<Slot>, x: Slot, n: Nexus)
    requires LowerCase(n) && Find(regs, n, 0).None? && Goes(OfNexus(n), x)
    requires forall y | y in regs :: Registered(y) && Lower(y.initiatorPort.value) == y.initiatorPort.value
                                     && Lower(y.targetPort.value) == y.targetPort.value
    ensures Left(OfNexus(n), regs + [x]) == regs
  {
    FindMeans(regs, n, 0);
    LeftKeeps(OfNexus(n), regs);
    LeftConcat(OfNexus(n), regs, [x]);
    assert Left(OfNexus(n), [x]) == [] by { assert [x][1..] == []; }
  }

  /** What RESERVE(6) leaves when the port was not registered and nothing was reserved. */
  function AfterReserve6(s: State, n: Nexus, key: nat): State {
    Reserved(Bumped(s.(regs := s.regs + [NewSlot(n, RegisterKey(0, key))])), n, WithKey(Reserve, key))
  }

  lemma Reserve6Succeeds(s: State, n: Nexus, key: nat)
    requires Invariant(s) && LowerCase(n) && Find(s.regs, n, 0).None? && |s.regs| < MAX_LU_RESERVE
    requires s.rsvKey == 0 && key != 0
    ensures Reserve6(s, n, key) == (AfterReserve6(s, n, key), Good)
  {
    NothingToRemove(s.regs, n, s);
    FindNoneStronger(s.regs, n, key);
    FindLast(s.regs, NewSlot(n, RegisterKey(0, key)), n, key);
    hide Invariant, Find, Left;
  }

  lemma Release6Succeeds(s: State, n: Nexus, key: nat)
    requires Invariant(s) && LowerCase(n) && Find(s.regs, n, 0).None? && key != 0
    ensures var (u, st) := Release6(AfterReserve6(s, n, key), n, key);
            st == Good && u.regs == s.regs && u.rsvKey == 0 && u.rsvPort == None
  {
    var x := NewSlot(n, RegisterKey(0, key));
    FindNoneStronger(s.regs, n, key);
    FindLast(s.regs, x, n, key);
    FindLast(s.regs, x, n, 0);
    AllLower(s);
    LeftOfNew(s.regs, x, n);
    LowerTwice(n.initiatorPort);
    hide Invariant, Find, Left;
  }

  /**
   From an unregistered port with room in the table and no reservation, RESERVE(6)
   succeeds exactly when the derived key is not 0, and RELEASE(6) then restores the
   registrations and leaves no reservation.
   */
  lemma ReserveThenRelease(s: State, n: Nexus, key: nat)
    requires Invariant(s) && LowerCase(n) && Find(s.regs, n, 0).None? && |s.regs| < MAX_LU_RESERVE && s.rsvKey == 0
    ensures Reserve6(s, n, key).1 == Good <==> key != 0
    ensures key != 0 ==>
      var (t, _) := Reserve6(s, n, key);
      var (u, st) := Release6(t, n, key);
      t.rsvKey == key && st == Good && u.regs == s.regs && u.rsvKey == 0 && u.rsvPort == None
  {
    if key != 0 {
      Reserve6Succeeds(s, n, key);
      Release6Succeeds(s, n, key);
      hide Reserve6, Release6;
    }
  }

  /** What the nexus holds: its removal takes something. */
  ghost predicate HoldsSlot(regs: seq<Slot>, n: Nexus) {
    exists x :: x in regs && Goes(OfNexus(n), x)
  }

  /** A removal of the nexus leaves nothing that a lookup of it finds. */
  lemma NothingFoundAfter(regs: seq<Slot>, n: Nexus, key: nat)
    ensures Find(Left(OfNexus(n), regs), n, key).None?
    ensures Find(regs, n, key).Some? ==> HoldsSlot(regs, n)
    ensures HoldsSlot(regs, n) <==> Left(OfNexus(n), regs) != regs
    ensures |Left(OfNexus(n), regs)| <= |regs| && (HoldsSlot(regs, n) ==> |Left(OfNexus(n), regs)| < |regs|)
  {
    var left := Left(OfNexus(n), regs);
    LeftKeeps(OfNexus(n), regs);
    FindMeans(regs, n, key);
    FindMeans(left, n, key);
    forall x: Slot | Matches(x, n.initiatorPort, n.targetPort, key)
      ensures Goes(OfNexus(n), x)
    {
    }
  }

  /** Removing and registering anew: the new registration is the one a lookup finds. */
  lemma RegisteredAnew(s: State, n: Nexus, key: nat)
    requires LowerCase(n) && key != 0 && |Left(OfNexus(n), s.regs)| < MAX_LU_RESERVE
    ensures var t := s.(regs := Left(OfNexus(n), s.regs) + [NewSlot(n, RegisterKey(0, key))]);
            && Out(s, n, RegisterKey(0, key), true) == (Bumped(t), Good)
            && Find(t.regs, n, key) == Some(NewSlot(n, RegisterKey(0, key)))
  {
    NothingFoundAfter(s.regs, n, key);
    FindLast(Left(OfNexus(n), s.regs), NewSlot(n, RegisterKey(0, key)), n, key);
    hide Find, Left, Goes;
  }

  /**
   A RESERVE(6) fails and still changes something exactly when its key is 0 and
   the port is registered, which it then no longer is, or when there is room to
   register and the reservation belongs to another key or port.
   */
  lemma Reserve6ChangesIff(s: State, n: Nexus, key: nat)
    requires |s.regs| <= MAX_LU_RESERVE && LowerCase(n) && s.generation < 0x1_0000_0000
    ensures Reserve6(s, n, key).1 != Good && Reserve6(s, n, key).0 != s <==>
              if key == 0 then Find(s.regs, n, 0).Some?
              else && (|s.regs| < MAX_LU_RESERVE || HoldsSlot(s.regs, n)) && s.rsvKey != 0
                   && !(key == s.rsvKey && s.rsvPort.Some? && SameName(s.rsvPort.value, n.initiatorPort))
  {
    hide Left, Find, HoldsSlot;
    NothingFoundAfter(s.regs, n, 0);
    if key != 0 && |Left(OfNexus(n), s.regs)| < MAX_LU_RESERVE {
      RegisteredAnew(s, n, key);
    }
  }

  /** Such a RESERVE(6): the unit is reserved by another port, and the refused one ends up registered. */
  lemma Reserve6NotAtomic()
    ensures var s := State([Slot(5, Some("i"), Some("t"), 0, 1, false)], Some("i"), 5, 0, 3, 1);
            var out := Reserve6(s, Nexus("j", "t", 0, 1), 7);
            out.1 == Conflict && |out.0.regs| == 2
  {
    var s, n := State([Slot(5, Some("i"), Some("t"), 0, 1, false)], Some("i"), 5, 0, 3, 1), Nexus("j", "t", 0, 1);
    assert Left(OfNexus(n), s.regs[1..]) == [];
    assert !NamesPort(Some("i"), Some("j")) by {
      assert Lower("i")[0] == 'i' && Lower("j")[0] == 'j';
    }
    assert Left(OfNexus(n), s.regs) == s.regs;
    RegisteredAnew(s, n, 7);
  }

  /** A RELEASE(6) that does not end GOOD has changed nothing. */
  lemma Release6Unchanged(s: State, n: Nexus, key: nat)
    requires |s.regs| <= MAX_LU_RESERVE && Release6(s, n, key).1 != Good
    ensures Release6(s, n, key).0 == s
  {
    hide Find, Left;
  }

  lemma AllLower(s: State)
    requires Invariant(s)
    ensures forall y | y in s.regs :: Registered(y) && Lower(y.initiatorPort.value) == y.initiatorPort.value
                                      && Lower(y.targetPort.value) == y.targetPort.value
  {
  }

  lemma NothingToRemove(regs: seq<Slot>, n: Nexus, s: State)
    requires Invariant(s) && regs == s.regs && LowerCase(n) && Find(regs, n, 0).None?
    ensures Left(OfNexus(n), regs) == regs
  {
    FindMeans(regs, n, 0);
    LeftKeeps(OfNexus(n), regs);
  }

  // ---------------------------------------------------------------- the code

  /** The reservation part of a disk. */
  class Disk {
    const prKeys: array<Slot>
    var nprKeys: nat
    var prGeneration: nat
    var rsvPort: Option<string>
    var rsvKey: nat
    var rsvScope: nat
    var rsvType: nat

    /** The table: 256 slots, the used ones first and complete, the free ones without strings. */
    ghost predicate Table()
      reads this, prKeys
    {
      && prKeys.Length == MAX_LU_RESERVE && nprKeys <= MAX_LU_RESERVE
      && (forall i | 0 <= i < nprKeys :: Registered(prKeys[i]))
      && (forall i | nprKeys <= i < MAX_LU_RESERVE :: OwnsNothing(prKeys[i]))
    }

    ghost function Now(): State
      requires nprKeys <= prKeys.Length
      reads this, prKeys
    {
      State(prKeys[..nprKeys], rsvPort, rsvKey, rsvScope, rsvType, prGeneration)
    }

    constructor ()
      ensures Table() && Now() == EMPTY && fresh(prKeys)
    {
      prKeys := new Slot[MAX_LU_RESERVE](_ => FREE);
      nprKeys, prGeneration, rsvPort, rsvKey, rsvScope, rsvType := 0, 0, None, 0, 0, 0;
    }

    /** istgt_lu_disk_find_pr_key */
    method FindPrKey(n: Nexus, key: nat) returns (found: Option<Slot>)
      requires Table()
      ensures found == Find(prKeys[..nprKeys], n, key)
    {
      ghost var regs := prKeys[..nprKeys];
      assert regs[0..] == regs;
      for i := 0 to nprKeys
        invariant Find(regs, n, key) == Find(regs[i..], n, key)
      {
        assert regs[i..][0] == prKeys[i] && regs[i..][1..] == regs[i + 1..];
        if key != 0 && prKeys[i].key != key {
          continue;
        }
        if prKeys[i].initiatorPort == Some(n.initiatorPort) {
          if prKeys[i].allTpg || prKeys[i].targetPort == Some(n.targetPort) {
            return Some(prKeys[i]);
          }
        }
      }
      assert regs[nprKeys..] == [];
      return None;
    }

    /** The inner loop of a removal: the entries behind i move down, the last one is cleared. */
    method MoveDown(i: nat)
      requires Table() && i < nprKeys
      modifies this`nprKeys, prKeys
      ensures Table() && nprKeys == old(nprKeys) - 1
      ensures prKeys[..nprKeys] == old(prKeys[..nprKeys])[..i] + old(prKeys[..nprKeys])[i + 1..]
    {
      var j := i;
      while j < nprKeys - 1
        invariant i <= j <= nprKeys - 1 && unchanged(this)
        invariant forall k | 0 <= k < i || j < k < prKeys.Length :: prKeys[k] == old(prKeys[k])
        invariant forall k | i <= k < j :: prKeys[k] == old(prKeys[k + 1])
      {
        prKeys[j] := prKeys[j + 1];
        j := j + 1;
      }
      prKeys[j] := FREE;
      nprKeys := nprKeys - 1;
    }

    /** istgt_lu_disk_remove_pr_key and istgt_lu_disk_remove_other_pr_key: from the end of the array. */
    method Remove(r: Removal)
      requires Table()
      modifies this`nprKeys, prKeys
      ensures Table() && prKeys[..nprKeys] == Left(r, old(prKeys[..nprKeys]))
    {
      if nprKeys == 0 {
        return;
      }
      hide Left, Goes;
      ghost var regs := prKeys[..nprKeys];
      var i: int := nprKeys - 1;
      NothingLeft(r);
      assert regs[i + 1..] == [];
      while i >= 0
        invariant -1 <= i < nprKeys <= |regs| && Table() && i < |regs|
        invariant prKeys[..nprKeys] == regs[..i + 1] + Left(r, regs[i + 1..])
        decreases i
      {
        ghost var rest, before := Left(r, regs[i + 1..]), prKeys[..nprKeys];
        CutOut(regs, i, rest, before);
        assert prKeys[i] == before[i];
        RemoveStep(r, regs, i, prKeys[i]);
        var goes := TakesEntry(r, prKeys[i]);
        if goes {
          MoveDown(i);
        }
        i := i - 1;
      }
      assert regs[0..] == regs && regs[..0] + Left(r, regs) == Left(r, regs);
    }

    lemma NothingLeft(r: Removal)
      ensures Left(r, []) == []
    {
    }

    lemma CutOut(regs: seq<Slot>, i: nat, rest: seq<Slot>, before: seq<Slot>)
      requires i < |regs| && before == regs[..i + 1] + rest
      ensures before[i] == regs[i] && before[..i] + before[i + 1..] == regs[..i] + rest
    {
    }

    lemma RemoveStep(r: Removal, regs: seq<Slot>, i: nat, x: Slot)
      requires i < |regs| && regs[i] == x
      ensures var rest := Left(r, regs[i + 1..]);
              Goes(r, x) ==> Left(r, regs[i..]) == rest
      ensures var rest := Left(r, regs[i + 1..]);
              !Goes(r, x) ==> regs[..i] + Left(r, regs[i..]) == regs[..i + 1] + rest
    {
      assert regs[i..][1..] == regs[i + 1..];
    }

    /** The tests of the two removal loops on one entry. */
    static method TakesEntry(r: Removal, s: Slot) returns (goes: bool)
      ensures goes == Goes(r, s)
    {
      match r
      case Of(ip, tp, key) =>
        if key != 0 && s.key != key {
          return false;
        }
        if ip.Some? && !NamesPort(s.initiatorPort, ip) {
          return false;
        }
        if !s.allTpg && tp.Some? && !NamesPort(s.targetPort, tp) {
          return false;
        }
        return true;
      case Others(ip, tp, key) =>
        if key == 0 || s.key == key {
          return false;
        }
        if ip.None? || NamesPort(s.initiatorPort, ip) {
          return false;
        }
        if s.allTpg || tp.None? || NamesPort(s.targetPort, tp) {
          return false;
        }
        return true;
    }

    /** A reservation, once there is one, names a port. */
    ghost predicate Valid()
      reads this, prKeys
    {
      Table() && (rsvKey != 0 ==> rsvPort.Some?)
    }

    /** do_register: append a registration, follow a changed key, count the generation. */
    method DoRegister(n: Nexus, q: Request) returns (st: Status)
      requires Valid() && q.actionKey != 0
      modifies this, prKeys
      ensures Valid() && (Now(), st) == Registering(old(Now()), n, q)
    {
      var idx := nprKeys;
      if idx >= MAX_LU_RESERVE {
        return NO_RESOURCES;
      }
      ghost var regs := prKeys[..nprKeys];
      if q.key != 0 && rsvKey == q.key {
        rsvKey := q.actionKey;
      }
      prKeys[idx] := Slot(q.actionKey, Some(Lower(n.initiatorPort)), Some(Lower(n.targetPort)),
                          n.pgIdx, n.pgTag, q.allTgPt);
      idx := idx + 1;
      nprKeys := idx;
      assert prKeys[..nprKeys] == regs + [NewSlot(n, q)];
      prGeneration := (prGeneration + 1) % 0x1_0000_0000;
      return Good;
    }

    method DoRegisterOut(n: Nexus, q: Request) returns (st: Status)
      requires Valid()
      modifies this, prKeys
      ensures Valid() && (Now(), st) == RegisterOut(old(Now()), n, q)
    {
      if q.aptpl {
        return INVALID_PARAMETER;
      }
      var found := FindPrKey(n, 0);
      if found.None? {
        if q.key != 0 {
          return Conflict;
        }
      } else {
        found := FindPrKey(n, q.key);
        if found.None? {
          return Conflict;
        }
        Remove(OfNexus(n));
      }
      if q.actionKey == 0 {
        return Good;
      }
      st := DoRegister(n, q);
    }

    method DoRegisterAndIgnoreOut(n: Nexus, q: Request) returns (st: Status)
      requires Valid()
      modifies this, prKeys
      ensures Valid() && (Now(), st) == RegisterAndIgnoreOut(old(Now()), n, q)
    {
      if q.aptpl {
        return INVALID_PARAMETER;
      }
      var found := FindPrKey(n, 0);
      if found.None? {
        if q.actionKey == 0 {
          return Good;
        }
      }
      Remove(OfNexus(n));
      if q.actionKey == 0 {
        return Good;
      }
      st := DoRegister(n, q);
    }

    method DoReserveOut(n: Nexus, q: Request) returns (st: Status)
      requires Valid()
      modifies this`rsvPort, this`rsvKey, this`rsvScope, this`rsvType
      ensures Valid() && (Now(), st) == ReserveOut(old(Now()), n, q)
    {
      FindNoneStronger'(prKeys[..nprKeys], n, q.key);
      var found := FindPrKey(n, 0);
      if found.None? {
        return Conflict;
      }
      found := FindPrKey(n, q.key);
      if found.None? {
        return Conflict;
      }
      if rsvKey != 0 {
        if found.value.key != rsvKey {
          return Conflict;
        }
        if !SameName(rsvPort.value, n.initiatorPort) {
          return Conflict;
        }
        return Good;
      }
      if q.scope != LU_SCOPE {
        return INVALID_CDB;
      }
      if q.kind !in TYPES {
        return INVALID_CDB;
      }
      rsvPort, rsvKey, rsvScope, rsvType := Some(Lower(n.initiatorPort)), q.key, q.scope, q.kind;
      return Good;
    }

    lemma FindNoneStronger'(regs: seq<Slot>, n: Nexus, key: nat)
      ensures Find(regs, n, 0).None? ==> Find(regs, n, key).None?
    {
      if Find(regs, n, 0).None? {
        FindNoneStronger(regs, n, key);
      }
    }

    method DoReleaseOut(n: Nexus, q: Request) returns (st: Status)
      requires Valid()
      modifies this`rsvPort, this`rsvKey, this`rsvScope, this`rsvType
      ensures Valid() && (Now(), st) == ReleaseOut(old(Now()), n, q)
    {
      FindNoneStronger'(prKeys[..nprKeys], n, q.key);
      var found := FindPrKey(n, 0);
      if found.None? {
        return Conflict;
      }
      found := FindPrKey(n, q.key);
      if found.None? {
        return Conflict;
      }
      if rsvKey == 0 {
        return Good;
      }
      if found.value.key != rsvKey {
        return INVALID_RELEASE;
      }
      if !SameName(rsvPort.value, n.initiatorPort) {
        return INVALID_RELEASE;
      }
      if q.scope != LU_SCOPE {
        return INVALID_CDB;
      }
      if q.kind !in TYPES {
        return INVALID_CDB;
      }
      if rsvScope != q.scope || rsvType != q.kind {
        return INVALID_RELEASE;
      }
      rsvPort, rsvKey, rsvScope, rsvType := None, 0, 0, 0;
      return Good;
    }

    method DoClearOut(n: Nexus) returns (st: Status)
      requires Valid()
      modifies this, prKeys
      ensures Valid() && (Now(), st) == ClearOut(old(Now()), n)
    {
      var found := FindPrKey(n, 0);
      if found.None? {
        return Conflict;
      }
      rsvPort, rsvKey, rsvScope, rsvType := None, 0, 0, 0;
      // free the strings of every registration
      for i := 0 to nprKeys
        invariant nprKeys == old(nprKeys) && prGeneration == old(prGeneration)
        invariant rsvPort == None && rsvKey == rsvScope == rsvType == 0
        invariant forall k | 0 <= k < i || nprKeys <= k < MAX_LU_RESERVE :: OwnsNothing(prKeys[k])
      {
        prKeys[i] := prKeys[i].(initiatorPort := None, targetPort := None, pgIdx := 0, pgTag := 0, allTpg := false);
      }
      nprKeys := 0;
      return Good;
    }

    /** The reservation changes hands. */
    method TakeOver(n: Nexus, q: Request, aborted: bool) returns (st: Status)
      requires Valid()
      modifies this`rsvPort, this`rsvKey, this`rsvScope, this`rsvType, this`prGeneration
      ensures Valid() && (Now(), st) == TakenOver(old(Now()), n, q, aborted)
    {
      if q.scope != LU_SCOPE {
        return INVALID_CDB;
      }
      if q.kind !in TYPES {
        return INVALID_CDB;
      }
      var oldRsvPort := rsvPort;
      rsvPort, rsvKey, rsvScope, rsvType := None, 0, 0, 0;
      rsvPort, rsvKey, rsvScope, rsvType := Some(Lower(n.initiatorPort)), q.key, q.scope, q.kind;
      prGeneration := (prGeneration + 1) % 0x1_0000_0000;
      if q.action.PreemptAndAbort? && oldRsvPort.Some? && !aborted {
        return INTERNAL;
      }
      return Good;
    }

    method DoPreemptOut(n: Nexus, q: Request, aborted: bool) returns (st: Status)
      requires Valid()
      modifies this, prKeys
      ensures Valid() && (Now(), st) == PreemptOut(old(Now()), n, q, aborted)
    {
      var found := FindPrKey(n, 0);
      if found.None? {
        return Conflict;
      }
      if rsvKey == 0 {
        Remove(Of(None, None, q.actionKey));
        prGeneration := (prGeneration + 1) % 0x1_0000_0000;
        return Good;
      }
      if rsvType == WRITE_EXCLUSIVE_ALL_REGISTRANTS || rsvType == EXCLUSIVE_ACCESS_ALL_REGISTRANTS {
        if q.actionKey != 0 {
          Remove(Of(None, None, q.actionKey));
          prGeneration := (prGeneration + 1) % 0x1_0000_0000;
          return Good;
        }
        Remove(Others(Some(n.initiatorPort), Some(n.targetPort), q.key));
        st := TakeOver(n, q, aborted);
        return;
      }
      found := FindPrKey(n, q.key);
      if found.None? || q.actionKey != rsvKey {
        if q.actionKey != 0 {
          Remove(Of(None, None, q.actionKey));
          return Good;
        }
        return INVALID_PARAMETER;
      }
      Remove(Of(None, None, q.actionKey));
      st := TakeOver(n, q, aborted);
    }

    /** istgt_lu_disk_scsi_persistent_reserve_out */
    method PersistentReserveOut(n: Nexus, q: Request, aborted: bool) returns (st: Status)
      requires Valid()
      modifies this, prKeys
      ensures Valid() && (Now(), st) == Out(old(Now()), n, q, aborted)
    {
      match q.action
      case Register => st := DoRegisterOut(n, q);
      case Reserve => st := DoReserveOut(n, q);
      case Release => st := DoReleaseOut(n, q);
      case Clear => st := DoClearOut(n);
      case Preempt => st := DoPreemptOut(n, q, aborted);
      case PreemptAndAbort => st := DoPreemptOut(n, q, aborted);
      case RegisterAndIgnore => st := DoRegisterAndIgnoreOut(n, q);
      case Unsupported => st := INVALID_CDB;
    }

    /** istgt_lu_disk_scsi_reserve */
    method ReserveUnit(n: Nexus, derivedKey: nat) returns (st: Status)
      requires Valid()
      modifies this, prKeys
      ensures Valid() && (Now(), st) == Reserve6(old(Now()), n, derivedKey)
    {
      hide Out;
      st := PersistentReserveOut(n, RegisterKey(0, derivedKey), true);
      if st != Good {
        return if st == Conflict then Conflict else INTERNAL;
      }
      st := PersistentReserveOut(n, WithKey(Reserve, derivedKey), true);
      if st != Good {
        return if st == Conflict then Conflict else INTERNAL;
      }
    }

    /** istgt_lu_disk_scsi_release */
    method ReleaseUnit(n: Nexus, derivedKey: nat) returns (st: Status)
      requires Valid()
      modifies this, prKeys
      ensures Valid() && (Now(), st) == Release6(old(Now()), n, derivedKey)
    {
      hide Out;
      st := PersistentReserveOut(n, WithKey(Release, derivedKey), true);
      if st != Good {
        return if st == Conflict then Conflict else INTERNAL;
      }
      st := PersistentReserveOut(n, RegisterKey(derivedKey, 0), true);
      if st != Good {
        return if st == Conflict then Conflict else INTERNAL;
      }
    }
  }
}
