/**
 The command window of a session: StatSN, ExpCmdSN and MaxCmdSN under SCSI
 commands, NOP-Out, task management and the statuses built for them, with the
 serial number comparison of RFC 1982. Section 3.2.2.1 of RFC 3720.
 */
module CommandWindow {
  import opened Names
  import opened Numbers

  const HALF := 0x8000_0000

  type serial = x: int | 0 <= x < SERIAL

  function Plus(a: serial, n: int): serial {
    (a + n) % SERIAL
  }

  /** How far b is ahead of a, going round. */
  function Ahead(a: serial, b: serial): serial {
    (b - a) % SERIAL
  }

  /** SN32_LT */
  predicate Before(a: serial, b: serial) {
    a != b && ((a < b && b - a < HALF) || (a > b && a - b > HALF))
  }

  /** SN32_GT */
  predicate After(a: serial, b: serial) {
    a != b && ((a < b && b - a > HALF) || (a > b && a - b < HALF))
  }

  /** Neither comparison holds at a distance of exactly 2^31; otherwise they are the distance the short way round. */
  lemma CompareByDistance(a: serial, b: serial)
    ensures Before(a, b) <==> 0 < Ahead(a, b) < HALF
    ensures After(a, b) <==> Ahead(a, b) > HALF
    ensures Before(a, b) <==> After(b, a)
  {
    if a <= b {
      assert Ahead(a, b) == b - a;
    } else {
      assert Ahead(a, b) == b - a + SERIAL;
    }
  }

  /** The test of the command handlers on the CmdSN of a non-immediate command. */
  predicate Admits(exp: serial, max: serial, cmdSN: serial) {
    !(Before(cmdSN, exp) || After(cmdSN, max))
  }

  predicate InWindow(exp: serial, max: serial, cmdSN: serial) {
    Ahead(exp, cmdSN) < Width(exp, max)
  }

  /** Commands the initiator may still send. */
  function Width(exp: serial, max: serial): serial {
    Plus(Ahead(exp, max), 1)
  }

  /** The distance between two serials from their distances to a third. */
  lemma AheadOf(exp: serial, a: serial, b: serial)
    ensures var d, m := Ahead(exp, a), Ahead(exp, b); Ahead(a, b) == if d <= m then m - d else m - d + SERIAL
    ensures Ahead(exp, exp) == 0
  {
    AheadIs(exp, a);
    AheadIs(exp, b);
    AheadIs(a, b);
  }

  lemma AheadIs(a: serial, b: serial)
    ensures Ahead(a, b) == if a <= b then b - a else b - a + SERIAL
  {
  }

  lemma AdmitsByDistance(exp: serial, max: serial, cmdSN: serial)
    ensures var d, m := Ahead(exp, cmdSN), Ahead(exp, max);
            Admits(exp, max, cmdSN) <==> d <= HALF && (d <= m || d - m >= HALF) && m - d <= HALF
  {
    var d, m := Ahead(exp, cmdSN), Ahead(exp, max);
    hide Before, After, Ahead;
    CompareByDistance(cmdSN, exp);
    CompareByDistance(cmdSN, max);
    AheadOf(exp, cmdSN, exp);
    AheadOf(exp, cmdSN, max);
  }

  /** The test admits exactly ExpCmdSN..MaxCmdSN if and only if the window holds 2 to 2^31 + 1 commands. */
  lemma AdmitsExactlyTheWindow(exp: serial, max: serial)
    ensures (forall c: serial :: Admits(exp, max, c) <==> InWindow(exp, max, c)) <==> 2 <= Width(exp, max) <= HALF + 1
  {
    hide Admits, InWindow, Ahead, Width, Plus;
    if 2 <= Width(exp, max) <= HALF + 1 {
      forall c: serial
        ensures Admits(exp, max, c) <==> InWindow(exp, max, c)
      {
        AdmitsTheWindow(exp, max, c);
      }
    } else {
      AdmitsAnother(exp, max, if Width(exp, max) <= 1 then HALF else HALF + 1);
    }
  }

  lemma AdmitsTheWindow(exp: serial, max: serial, c: serial)
    requires 2 <= Width(exp, max) <= HALF + 1
    ensures Admits(exp, max, c) <==> InWindow(exp, max, c)
  {
    hide Admits, Ahead, Width;
    NextAhead(exp, max);
    AdmitsByDistance(exp, max, c);
  }

  /** A command exactly half way round, or at the far end of a wider window. */
  lemma AdmitsAnother(exp: serial, max: serial, far: serial)
    requires !(2 <= Width(exp, max) <= HALF + 1) && far == if Width(exp, max) <= 1 then HALF else HALF + 1
    ensures Admits(exp, max, Plus(exp, far)) != InWindow(exp, max, Plus(exp, far))
  {
    hide Admits, Ahead, Width, Plus;
    NextAhead(exp, max);
    AheadPlus(exp, far);
    AdmitsByDistance(exp, max, Plus(exp, far));
  }

  lemma AheadPlus(exp: serial, far: serial)
    ensures Ahead(exp, Plus(exp, far)) == far
  {
    AheadIs(exp, Plus(exp, far));
  }

  lemma NextAhead(exp: serial, max: serial)
    ensures Width(exp, max) == if Ahead(exp, max) == SERIAL - 1 then 0 else Ahead(exp, max) + 1
  {
    hide Ahead;
  }

  // ---------------------------------------------------------------- the session as a state machine

  datatype Request =
    | Scsi(immediate: bool, cmdSN: serial, expStatSN: serial)
    | NopOut(immediate: bool, cmdSN: serial, expStatSN: serial, reserved: bool)
    | Task(immediate: bool, cmdSN: serial, expStatSN: serial)

  /** A request arrives, the status of an accepted SCSI command is built, or the sender thread takes a queued PDU. */
  datatype Event = Arrives(r: Request) | Built(immediate: bool) | Sent

  /**
   deferred holds the I bits of the responses the sender thread still has to
   number; open counts the accepted non-immediate SCSI commands without status.
   */
  datatype State = State(stat: serial, exp: serial, max: serial, depth: nat, useSender: bool,
                         deferred: seq<bool>, open: nat)

  function LoggedIn(cmdSN: serial, expStatSN: serial, depth: nat, useSender: bool): State {
    State(expStatSN, cmdSN, Plus(cmdSN, depth - 1), depth, useSender, [], 0)
  }

  /** A refusal may leave moved counters behind. */
  datatype Outcome = Goes(next: State) | Refused(left: State)

  function CatchUp(stat: serial, expStatSN: serial): serial {
    if After(expStatSN, stat) then expStatSN else stat
  }

  /** The initiator acknowledges too few statuses. */
  predicate Lags(s: State, expStatSN: serial) {
    Before(Plus(expStatSN, Width(s.exp, s.max) + s.depth), s.stat)
  }

  /** The numbers of a NOP-In or task management response. */
  function Respond(s: State, immediate: bool): State {
    if immediate then s.(stat := Plus(s.stat, 1))
    else s.(stat := Plus(s.stat, 1), exp := Plus(s.exp, 1), max := Plus(s.max, 1))
  }

  function RespondOrDefer(s: State, immediate: bool): State {
    if s.useSender then s.(deferred := s.deferred + [immediate]) else Respond(s, immediate)
  }

  function Step(s: State, e: Event): Outcome {
    match e
    case Arrives(Scsi(immediate, cmdSN, expStatSN)) =>
      if immediate && cmdSN != s.exp then Refused(s)
      else if !immediate && !Admits(s.exp, s.max, cmdSN) then Refused(s)
      else
        var t := s.(exp := if !immediate && After(cmdSN, s.exp) then cmdSN else s.exp,
                    stat := CatchUp(s.stat, expStatSN));
        if Lags(t, expStatSN) then Refused(t)
        else if immediate then Goes(t)
        else Goes(t.(exp := Plus(t.exp, 1), open := t.open + 1))
    case Arrives(NopOut(immediate, cmdSN, expStatSN, reserved)) =>
      if immediate && cmdSN != s.exp then Refused(s)
      else if !immediate && !Admits(s.exp, s.max, cmdSN) then Refused(s)
      else
        var t := s.(stat := CatchUp(s.stat, expStatSN));
        if Lags(t, expStatSN) then Refused(t)
        else if reserved then if immediate then Goes(t) else Refused(t)
        else Goes(RespondOrDefer(t, immediate))
    case Arrives(Task(immediate, cmdSN, expStatSN)) =>
      Goes(RespondOrDefer(s.(exp := cmdSN, stat := CatchUp(s.stat, expStatSN)), immediate))
    case Built(immediate) =>
      if immediate then Goes(s.(stat := Plus(s.stat, 1)))
      else if s.open == 0 then Refused(s)
      else Goes(s.(stat := Plus(s.stat, 1), max := Plus(s.max, 1), open := s.open - 1))
    case Sent =>
      if s.deferred == [] then Refused(s) else Goes(Respond(s.(deferred := s.deferred[1..]), s.deferred[0]))
  }

  /**
   A request that carries ExpCmdSN as it stands when the request is handled. The
   initiator numbers ahead of that while the sender thread still has a
   non-immediate response to number; see Numbered below.
   */
  predicate InOrder(s: State, e: Event) {
    e.Arrives? ==> e.r.cmdSN == s.exp
  }

  /** The commands that may still be sent and those that wait for their status make up the queue depth. */
  predicate Conserved(s: State) {
    Width(s.exp, s.max) + s.open == s.depth
  }

  function Run(s: State, es: seq<Event>): Outcome
    decreases |es|
  {
    if es == [] then Goes(s)
    else
      var o := Step(s, es[0]);
      if o.Refused? then o else Run(o.next, es[1..])
  }

  predicate AllInOrder(s: State, es: seq<Event>)
    decreases |es|
  {
    es == [] ||
    (InOrder(s, es[0]) &&
     (var o := Step(s, es[0]);
      o.Goes? ==> AllInOrder(o.next, es[1..])))
  }

  // ---------------------------------------------------------------- conservation

  lemma NextSerial(a: serial)
    ensures Plus(a, 1) == if a == SERIAL - 1 then 0 else a + 1
  {
  }

  lemma WidthIs(exp: serial, max: serial)
    ensures Width(exp, max) == if exp == 0 && max == SERIAL - 1 then 0
                               else if exp <= max + 1 then max + 1 - exp else max + 1 - exp + SERIAL
  {
    NextSerial(Ahead(exp, max));
  }

  lemma WidthMoves(exp: serial, max: serial)
    ensures Width(Plus(exp, 1), Plus(max, 1)) == Width(exp, max)
    ensures Width(exp, max) > 0 ==> Width(Plus(exp, 1), max) == Width(exp, max) - 1
    ensures Width(exp, max) < SERIAL - 1 ==> Width(exp, Plus(max, 1)) == Width(exp, max) + 1
  {
    hide Width, Plus;
    NextSerial(exp);
    NextSerial(max);
    WidthIs(exp, max);
    WidthIs(Plus(exp, 1), max);
    WidthIs(exp, Plus(max, 1));
    WidthIs(Plus(exp, 1), Plus(max, 1));
  }

  /** A different ExpCmdSN leaves a different width. */
  lemma WidthInjective(exp: serial, exp': serial, max: serial)
    requires exp != exp'
    ensures Width(exp, max) != Width(exp', max)
  {
    hide Width;
    WidthIs(exp, max);
    WidthIs(exp', max);
  }

  lemma LoginConserves(cmdSN: serial, expStatSN: serial, depth: nat, useSender: bool)
    requires depth < SERIAL
    ensures Conserved(LoggedIn(cmdSN, expStatSN, depth, useSender))
  {
  }

  /** ExpCmdSN itself is admitted only into a window that is not empty. */
  lemma ExpAdmitted(exp: serial, max: serial)
    ensures !After(exp, exp) && (Admits(exp, max, exp) ==> Width(exp, max) > 0)
  {
    hide Admits, Width;
    AdmitsByDistance(exp, max, exp);
    NextAhead(exp, max);
  }

  lemma StepConserves(s: State, e: Event)
    requires s.depth < SERIAL - 1 && Conserved(s) && InOrder(s, e) && Step(s, e).Goes?
    ensures Conserved(Step(s, e).next) && Step(s, e).next.depth == s.depth
  {
    hide Width, Plus, Admits, After, Lags, CatchUp;
    WidthMoves(s.exp, s.max);
    ExpAdmitted(s.exp, s.max);
  }

  /** Over every run whose requests carry ExpCmdSN, through any number of wrap-arounds. */
  lemma {:induction false} RunConserves(s: State, es: seq<Event>)
    requires s.depth < SERIAL - 1 && Conserved(s) && AllInOrder(s, es) && Run(s, es).Goes?
    ensures Conserved(Run(s, es).next) && Run(s, es).next.depth == s.depth
    decreases |es|
  {
    if es != [] {
      StepConserves(s, es[0]);
      RunConserves(Step(s, es[0]).next, es[1..]);
    }
  }

  /** From login on, in such a run, never more than queue_depth commands wait for a status. */
  lemma UnansweredBounded(cmdSN: serial, expStatSN: serial, depth: nat, useSender: bool, es: seq<Event>)
    requires depth < SERIAL - 1
    requires AllInOrder(LoggedIn(cmdSN, expStatSN, depth, useSender), es)
    requires Run(LoggedIn(cmdSN, expStatSN, depth, useSender), es).Goes?
    ensures Run(LoggedIn(cmdSN, expStatSN, depth, useSender), es).next.open <= depth
  {
    LoginConserves(cmdSN, expStatSN, depth, useSender);
    RunConserves(LoggedIn(cmdSN, expStatSN, depth, useSender), es);
  }

  /**
   Out of order, an accepted SCSI command keeps the balance exactly when the
   window was not empty and the command does not move ExpCmdSN forward.
   */
  lemma ScsiConservesIff(s: State, r: Request)
    requires s.depth < SERIAL - 1 && Conserved(s) && r.Scsi? && Step(s, Arrives(r)).Goes?
    ensures Conserved(Step(s, Arrives(r)).next) <==> r.immediate || (Width(s.exp, s.max) > 0 && !After(r.cmdSN, s.exp))
  {
    hide Width, Plus, Admits;
    WidthMoves(s.exp, s.max);
    if !r.immediate && After(r.cmdSN, s.exp) {
      WidthMoves(r.cmdSN, s.max);
      WidthInjective(s.exp, r.cmdSN, s.max);
      WidthInjective(Plus(s.exp, 1), Plus(r.cmdSN, 1), s.max);
    }
  }

  /** A task management request out of order always breaks it: its CmdSN overwrites ExpCmdSN. */
  lemma TaskConservesIff(s: State, r: Request)
    requires s.depth < SERIAL - 1 && Conserved(s) && r.Task?
    ensures Step(s, Arrives(r)).Goes?
    ensures Conserved(Step(s, Arrives(r)).next) <==> r.cmdSN == s.exp
  {
    hide Width, Plus;
    WidthMoves(s.exp, s.max);
    WidthMoves(r.cmdSN, s.max);
    if r.cmdSN != s.exp {
      WidthInjective(s.exp, r.cmdSN, s.max);
    }
  }

  // ---------------------------------------------------------------- runs as the initiator numbers them

  /** The non-immediate responses that the sender thread has still to number. */
  function Owed(deferred: seq<bool>): nat {
    if deferred == [] then 0 else (if deferred[0] then 0 else 1) + Owed(deferred[1..])
  }

  /** Each request carries the initiator's CmdSN, which a non-immediate one uses up. */
  predicate Numbered(next: serial, es: seq<Event>)
    decreases |es|
  {
    es == [] ||
    ((es[0].Arrives? ==> es[0].r.cmdSN == next)
     && Numbered(NextNumber(next, es[0]), es[1..]))
  }

  /** The responses left to the sender thread, as far as the events alone tell. */
  function Deferring(deferred: seq<bool>, useSender: bool, e: Event): seq<bool> {
    match e
    case Arrives(Scsi(_, _, _)) => deferred
    case Arrives(NopOut(immediate, _, _, reserved)) =>
      if useSender && !reserved then deferred + [immediate] else deferred
    case Arrives(Task(immediate, _, _)) => if useSender then deferred + [immediate] else deferred
    case Built(_) => deferred
    case Sent => if deferred == [] then [] else deferred[1..]
  }

  /** A request whose handling moves ExpCmdSN, or sets it. */
  predicate MovesExp(e: Event) {
    e.Arrives? && (e.r.Task? || (e.r.Scsi? && !e.r.immediate))
  }

  /** No such request arrives while a non-immediate response waits for the sender thread. */
  predicate Patient(deferred: seq<bool>, useSender: bool, es: seq<Event>)
    decreases |es|
  {
    es == [] ||
    ((MovesExp(es[0]) ==> Owed(deferred) == 0) && Patient(Deferring(deferred, useSender, es[0]), useSender, es[1..]))
  }

  /** The balance holds before, after and at every moment of a run. */
  predicate AlwaysConserved(s: State, es: seq<Event>)
    decreases |es|
  {
    Conserved(s) && (es == [] || (Step(s, es[0]).Goes? && AlwaysConserved(Step(s, es[0]).next, es[1..])))
  }

  lemma {:induction false} OwedMore(deferred: seq<bool>, immediate: bool)
    ensures Owed(deferred + [immediate]) == Owed(deferred) + if immediate then 0 else 1
  {
    if deferred == [] {
      assert [immediate][1..] == [];
    } else {
      assert (deferred + [immediate])[1..] == deferred[1..] + [immediate];
      OwedMore(deferred[1..], immediate);
    }
  }

  lemma PlusTwice(a: serial, m: int, n: int)
    ensures Plus(Plus(a, m), n) == Plus(a, m + n)
  {
  }

  /** A command that is ahead of ExpCmdSN by less than half the circle. */
  lemma AheadBy(a: serial, n: nat)
    requires n < HALF
    ensures Ahead(a, Plus(a, n)) == n
    ensures n > 0 ==> After(Plus(a, n), a) && Plus(a, n) != a
    ensures n == 0 ==> Plus(a, n) == a
  {
    CompareByDistance(Plus(a, n), a);
  }

  /**
   A SCSI command with the initiator's next number keeps the balance exactly when
   no response waits to be numbered.
   */
  lemma NumberedScsiIff(s: State, r: Request)
    requires s.depth < SERIAL - 1 && Conserved(s) && r.Scsi? && !r.immediate && Owed(s.deferred) < HALF
    requires r.cmdSN == Plus(s.exp, Owed(s.deferred)) && Step(s, Arrives(r)).Goes?
    ensures Conserved(Step(s, Arrives(r)).next) <==> Owed(s.deferred) == 0
  {
    AheadBy(s.exp, Owed(s.deferred));
    ScsiConservesIff(s, r);
    if Owed(s.deferred) == 0 {
      StepConserves(s, Arrives(r));
    }
  }

  /** A command ahead of ExpCmdSN is admitted only if the window holds its number. */
  lemma AdmittedAhead(s: State, n: nat)
    requires s.depth < HALF - 2 && Conserved(s) && n <= s.depth + 1 && Admits(s.exp, s.max, Plus(s.exp, n))
    ensures n < s.depth
  {
    hide Admits, Plus, Ahead;
    AheadBy(s.exp, n);
    AdmitsByDistance(s.exp, s.max, Plus(s.exp, n));
    NextSerial(Ahead(s.exp, s.max));
  }

  /** The state agrees with the number that the initiator will use next. */
  predicate Follows(s: State, next: serial) {
    next == Plus(s.exp, Owed(s.deferred)) && Owed(s.deferred) <= s.depth + 1
  }

  /** The initiator's number after an event. */
  function NextNumber(next: serial, e: Event): serial {
    if e.Arrives? && !e.r.immediate then Plus(next, 1) else next
  }

  /** What an event leaves to the sender thread, and that a handler waits for nothing else. */
  lemma StepDefers(s: State, e: Event)
    requires Step(s, e).Goes?
    ensures Step(s, e).next.deferred == Deferring(s.deferred, s.useSender, e)
    ensures Step(s, e).next.useSender == s.useSender && Step(s, e).next.depth == s.depth
  {
    hide Admits, Lags, CatchUp, Plus;
  }

  /** A response that is due at once moves both counters; one that is put off is owed. */
  lemma NumberedNopOut(s: State, r: Request)
    requires s.depth < HALF - 2 && Conserved(s) && Follows(s, r.cmdSN) && Step(s, Arrives(r)).Goes?
    requires r.NopOut? && !r.immediate
    ensures Conserved(Step(s, Arrives(r)).next) && Follows(Step(s, Arrives(r)).next, Plus(r.cmdSN, 1))
  {
    hide Admits, Lags, CatchUp, After, Width, Plus, Owed;
    var owed := Owed(s.deferred);
    AdmittedAhead(s, owed);
    OwedMore(s.deferred, false);
    PlusTwice(s.exp, owed, 1);
    PlusTwice(s.exp, 1, owed);
    WidthMoves(s.exp, s.max);
  }

  lemma FollowsAtOnce(s: State, r: Request)
    requires s.depth < HALF - 2 && Conserved(s) && Follows(s, r.cmdSN) && Step(s, Arrives(r)).Goes?
    requires r.cmdSN == s.exp && (r.immediate || Owed(s.deferred) == 0)
    ensures Follows(Step(s, Arrives(r)).next, NextNumber(r.cmdSN, Arrives(r)))
  {
    hide Admits, Lags, CatchUp, After, Width, Plus, Owed;
    ExpAdmitted(s.exp, s.max);
    OwedMore(s.deferred, r.immediate);
    ExpPlusZero(s.exp);
    ExpPlusZero(Plus(s.exp, 1));
  }

  lemma ExpPlusZero(exp: serial)
    ensures Plus(exp, 0) == exp
  {
  }

  lemma NumberedArrival(s: State, r: Request)
    requires s.depth < HALF - 2 && Conserved(s) && Follows(s, r.cmdSN) && Step(s, Arrives(r)).Goes?
    requires MovesExp(Arrives(r)) ==> Owed(s.deferred) == 0
    ensures Conserved(Step(s, Arrives(r)).next)
    ensures Follows(Step(s, Arrives(r)).next, NextNumber(r.cmdSN, Arrives(r)))
  {
    hide Admits, Lags, CatchUp, After, Width, Plus, Owed, Conserved;
    ExpPlusZero(s.exp);
    if r.NopOut? && !r.immediate {
      NumberedNopOut(s, r);
    } else {
      FollowsAtOnce(s, r);
      StepConserves(s, Arrives(r));
    }
  }

  lemma NumberedStep(s: State, next: serial, e: Event)
    requires s.depth < HALF - 2 && Conserved(s) && Follows(s, next) && Step(s, e).Goes?
    requires e.Arrives? ==> e.r.cmdSN == next
    ensures (MovesExp(e) ==> Owed(s.deferred) == 0) ==>
      Conserved(Step(s, e).next) && Follows(Step(s, e).next, NextNumber(next, e))
    ensures MovesExp(e) && Owed(s.deferred) != 0 ==> !Conserved(Step(s, e).next)
  {
    hide Admits, Lags, CatchUp, Width, After;
    AheadBy(s.exp, Owed(s.deferred));
    if e.Arrives? {
      if MovesExp(e) && Owed(s.deferred) != 0 {
        if e.r.Task? {
          TaskConservesIff(s, e.r);
        } else {
          NumberedScsiIff(s, e.r);
        }
      } else {
        NumberedArrival(s, e.r);
      }
    } else {
      StepConserves(s, e);
      if e.Sent? {
        PlusTwice(s.exp, 1, Owed(s.deferred[1..]));
      }
    }
  }

  /**
   A run as the initiator numbers it keeps the balance all the time exactly when
   no SCSI command and no task management request arrives while a response to a
   non-immediate request waits for the sender thread.
   */
  lemma {:induction false} NumberedRunIff(s: State, next: serial, es: seq<Event>)
    requires s.depth < HALF - 2 && Conserved(s) && Follows(s, next) && Numbered(next, es) && Run(s, es).Goes?
    ensures AlwaysConserved(s, es) <==> Patient(s.deferred, s.useSender, es)
    decreases |es|
  {
    hide Conserved, Follows, Step, Owed, MovesExp, Deferring;
    if es != [] {
      NumberedStep(s, next, es[0]);
      StepDefers(s, es[0]);
      if MovesExp(es[0]) ==> Owed(s.deferred) == 0 {
        NumberedRunIff(Step(s, es[0]).next, NextNumber(next, es[0]), es[1..]);
      }
    }
  }

  lemma {:induction false} AlwaysAtEnd(s: State, es: seq<Event>)
    requires AlwaysConserved(s, es)
    ensures Run(s, es).Goes? && Conserved(Run(s, es).next)
    decreases |es|
  {
    hide Conserved, Step;
    if es != [] {
      AlwaysAtEnd(Step(s, es[0]).next, es[1..]);
    }
  }

  lemma {:induction false} DepthStays(s: State, es: seq<Event>)
    requires Run(s, es).Goes?
    ensures Run(s, es).next.depth == s.depth
    decreases |es|
  {
    hide Step;
    if es != [] {
      StepDefers(s, es[0]);
      DepthStays(Step(s, es[0]).next, es[1..]);
    }
  }

  /** Without the sender thread nothing waits, so every run is patient. */
  lemma {:induction false} NothingWaits(es: seq<Event>)
    ensures Patient([], false, es)
    decreases |es|
  {
    if es != [] {
      NothingWaits(es[1..]);
    }
  }

  /** From login on, a patient run as the initiator numbers it never has more than queue_depth commands waiting. */
  lemma NumberedUnanswered(cmdSN: serial, expStatSN: serial, depth: nat, useSender: bool, es: seq<Event>)
    requires depth < HALF - 2 && Numbered(cmdSN, es) && (useSender ==> Patient([], useSender, es))
    requires Run(LoggedIn(cmdSN, expStatSN, depth, useSender), es).Goes?
    ensures Run(LoggedIn(cmdSN, expStatSN, depth, useSender), es).next.open <= depth
  {
    var s := LoggedIn(cmdSN, expStatSN, depth, useSender);
    LoginConserves(cmdSN, expStatSN, depth, useSender);
    AheadBy(cmdSN, 0);
    if !useSender {
      NothingWaits(es);
    }
    NumberedRunIff(s, cmdSN, es);
    AlwaysAtEnd(s, es);
    DepthStays(s, es);
    hide Run, Plus;
  }

  /**
   Three requests in the initiator's order with the sender thread on: the second
   breaks the balance, and when the first is answered the third is refused.
   */
  lemma ImpatientRun()
    ensures var s := LoggedIn(1, 1, 8, true);
            var es := [Arrives(NopOut(false, 1, 1, false)), Arrives(Scsi(false, 2, 1)), Sent];
            && Numbered(1, es + [Arrives(Scsi(false, 3, 1))])
            && Run(s, es[..2]).Goes? && !Conserved(Run(s, es[..2]).next)
            && Run(s, es).Goes? && Step(Run(s, es).next, Arrives(Scsi(false, 3, 1))).Refused?
  {
    var s := LoggedIn(1, 1, 8, true);
    var e0, e1 := Arrives(NopOut(false, 1, 1, false)), Arrives(Scsi(false, 2, 1));
    var e3, s2 := Arrives(Scsi(false, 3, 1)), State(1, 3, 8, 8, true, [false], 1);
    ImpatientSteps();
    hide Step, LoggedIn, Numbered, Conserved;
    RunOfThree(s, e0, e1, Sent);
    assert [e0, e1, Sent][..2] == [e0, e1];
    NumberedCons(3, e3, []);
    NumberedCons(3, Sent, [e3]);
    NumberedCons(2, e1, [Sent, e3]);
    NumberedCons(1, e0, [e1, Sent, e3]);
    assert [e0, e1, Sent] + [e3] == [e0, e1, Sent, e3];
  }

  lemma ImpatientSteps()
    ensures var s1, s2 := State(1, 1, 8, 8, true, [false], 0), State(1, 3, 8, 8, true, [false], 1);
            var s3 := State(2, 4, 9, 8, true, [], 1);
            && Step(LoggedIn(1, 1, 8, true), Arrives(NopOut(false, 1, 1, false))) == Goes(s1)
            && Step(s1, Arrives(Scsi(false, 2, 1))) == Goes(s2) && !Conserved(s2) && Step(s2, Sent) == Goes(s3)
            && Step(s3, Arrives(Scsi(false, 3, 1))).Refused?
  {
    assert [] + [false] == [false];
    assert [false][1..] == [];
  }

  lemma RunOfThree(s: State, e0: Event, e1: Event, e2: Event)
    requires Step(s, e0).Goes? && Step(Step(s, e0).next, e1).Goes?
    ensures Run(s, [e0, e1]) == Step(Step(s, e0).next, e1)
    ensures Run(s, [e0, e1, e2]) == Step(Step(Step(s, e0).next, e1).next, e2)
  {
    hide Step, Run;
    var s1 := Step(s, e0).next;
    RunCons(s, e0, [e1]);
    RunCons(s, e0, [e1, e2]);
    RunCons(s1, e1, []);
    RunCons(s1, e1, [e2]);
    RunCons(Step(s1, e1).next, e2, []);
    RunOfNone(Step(s1, e1).next);
    RunOfNone(if Step(Step(s1, e1).next, e2).Goes? then Step(Step(s1, e1).next, e2).next else s);
    assert [e0] + [e1] == [e0, e1] && [e0] + [e1, e2] == [e0, e1, e2] && [e1] + [e2] == [e1, e2];
    assert [e1] + [] == [e1] && [e2] + [] == [e2];
  }

  lemma RunOfNone(s: State)
    ensures Run(s, []) == Goes(s)
  {
  }

  lemma RunCons(s: State, e: Event, es: seq<Event>)
    ensures Run(s, [e] + es) == if Step(s, e).Refused? then Step(s, e) else Run(Step(s, e).next, es)
  {
    hide Step;
    assert ([e] + es)[1..] == es;
  }

  lemma NumberedCons(next: serial, e: Event, es: seq<Event>)
    requires e.Arrives? ==> e.r.cmdSN == next
    requires es == [] || Numbered(NextNumber(next, e), es)
    ensures Numbered(next, [e] + es)
  {
    assert ([e] + es)[1..] == es;
  }

  // ---------------------------------------------------------------- the numbers of statuses

  /** A status or a response is numbered: at once, when a SCSI status is built, or by the sender thread. */
  predicate UsesNumber(useSender: bool, e: Event) {
    match e
    case Arrives(Scsi(_, _, _)) => false
    case Arrives(NopOut(_, _, _, reserved)) => !useSender && !reserved
    case Arrives(Task(_, _, _)) => !useSender
    case Built(_) => true
    case Sent => true
  }

  /** An ExpStatSN acknowledges no number that has not been used yet. */
  predicate Acknowledges(stat: serial, e: Event) {
    e.Arrives? ==> Ahead(e.r.expStatSN, stat) <= HALF
  }

  function Used(useSender: bool, e: Event): nat {
    if UsesNumber(useSender, e) then 1 else 0
  }

  /** Told from the events: with n numbers used since the first, no request acknowledges more. */
  predicate NoneAhead(first: serial, n: nat, useSender: bool, es: seq<Event>)
    decreases |es|
  {
    es == [] || (Acknowledges(Plus(first, n), es[0])
                 && NoneAhead(first, n + Used(useSender, es[0]), useSender, es[1..]))
  }

  /** StatSN is the first number and the numbers used since, before, after and at every moment of a run. */
  predicate AlwaysCounted(first: serial, n: nat, s: State, es: seq<Event>)
    decreases |es|
  {
    s.stat == Plus(first, n)
    && (es == [] || (Step(s, es[0]).Goes?
                     && AlwaysCounted(first, n + Used(s.useSender, es[0]), Step(s, es[0]).next, es[1..])))
  }

  /** One event moves StatSN by the number it uses, exactly when it does not run ahead. */
  lemma StepCountsIff(s: State, e: Event)
    requires Step(s, e).Goes?
    ensures Step(s, e).next.stat == Plus(s.stat, Used(s.useSender, e)) <==> Acknowledges(s.stat, e)
  {
    hide Admits, Lags, Width, Before;
    ExpPlusZero(s.stat);
    if e.Arrives? {
      var x := e.r.expStatSN;
      CompareByDistance(x, s.stat);
      ExpPlusZero(x);
      if After(x, s.stat) && Plus(x, 1) == Plus(s.stat, 1) {
        PlusInjective(x, s.stat);
      }
    }
  }

  lemma PlusInjective(a: serial, b: serial)
    requires Plus(a, 1) == Plus(b, 1)
    ensures a == b
  {
    NextSerial(a);
    NextSerial(b);
  }

  /**
   Over every run, whatever its order: StatSN counts the statuses and responses
   numbered so far at every moment exactly when no request acknowledges one that
   has not been numbered.
   */
  lemma {:induction false} CountedRunIff(first: serial, n: nat, s: State, es: seq<Event>)
    requires s.stat == Plus(first, n) && Run(s, es).Goes?
    ensures AlwaysCounted(first, n, s, es) <==> NoneAhead(first, n, s.useSender, es)
    decreases |es|
  {
    hide Step, Acknowledges;
    if es != [] {
      StepCountsIff(s, es[0]);
      StepDefers(s, es[0]);
      PlusTwice(first, n, Used(s.useSender, es[0]));
      if Acknowledges(s.stat, es[0]) {
        CountedRunIff(first, n + Used(s.useSender, es[0]), Step(s, es[0]).next, es[1..]);
      }
    }
  }

  /** The number that a status or response carries, behind the acknowledgement that came with its request. */
  function Carried(s: State, e: Event): serial {
    if e.Arrives? then CatchUp(s.stat, e.r.expStatSN) else s.stat
  }

  /** The StatSNs that go out in a run, in order. */
  function StatSNs(s: State, es: seq<Event>): seq<serial>
    decreases |es|
  {
    if es == [] || Step(s, es[0]).Refused? then []
    else (if UsesNumber(s.useSender, es[0]) then [Carried(s, es[0])] else []) + StatSNs(Step(s, es[0]).next, es[1..])
  }

  /** They run without a gap from the first. */
  lemma {:induction false} StatSNsRun(first: serial, n: nat, s: State, es: seq<Event>)
    requires s.stat == Plus(first, n) && Run(s, es).Goes? && NoneAhead(first, n, s.useSender, es)
    ensures forall i | 0 <= i < |StatSNs(s, es)| :: StatSNs(s, es)[i] == Plus(first, n + i)
    decreases |es|
  {
    hide Step, Carried;
    if es != [] {
      var used := Used(s.useSender, es[0]);
      StepCountsIff(s, es[0]);
      StepDefers(s, es[0]);
      PlusTwice(first, n, used);
      CarriedIs(s, es[0]);
      StatSNsRun(first, n + used, Step(s, es[0]).next, es[1..]);
    }
  }

  lemma CarriedIs(s: State, e: Event)
    requires Acknowledges(s.stat, e)
    ensures Carried(s, e) == s.stat
  {
    if e.Arrives? {
      CompareByDistance(e.r.expStatSN, s.stat);
    }
  }

  lemma PlusDistinct(a: serial, i: nat, j: nat)
    requires i < j < i + SERIAL
    ensures Plus(a, i) != Plus(a, j)
  {
    assert (a + j) - (a + i) == j - i;
  }

  /** From login on, fewer than 2^32 consecutive statuses and responses carry different numbers, one after the other. */
  lemma StatusesDiffer(cmdSN: serial, expStatSN: serial, depth: nat, useSender: bool, es: seq<Event>, i: nat, j: nat)
    requires NoneAhead(expStatSN, 0, useSender, es)
    requires Run(LoggedIn(cmdSN, expStatSN, depth, useSender), es).Goes?
    requires i < j < |StatSNs(LoggedIn(cmdSN, expStatSN, depth, useSender), es)| && j < i + SERIAL
    ensures var sns := StatSNs(LoggedIn(cmdSN, expStatSN, depth, useSender), es);
            sns[0] == expStatSN && sns[i] != sns[j] && sns[i + 1] == Plus(sns[i], 1)
  {
    var s := LoggedIn(cmdSN, expStatSN, depth, useSender);
    ExpPlusZero(expStatSN);
    StatSNsRun(expStatSN, 0, s, es);
    PlusDistinct(expStatSN, i, j);
    PlusTwice(expStatSN, i, 1);
  }

  /** A status uses one StatSN and, unless its command was immediate, opens the window by one command. */
  lemma BuiltMoves(s: State, immediate: bool)
    requires Step(s, Built(immediate)).Goes?
    ensures var t := Step(s, Built(immediate)).next;
            t.stat == Plus(s.stat, 1) && t.exp == s.exp && t.max == if immediate then s.max else Plus(s.max, 1)
  {
  }

  // ---------------------------------------------------------------- a slow initiator

  /** In a balanced state there are few enough commands and statuses under way for the sums to stay below 2^31. */
  lemma LagsByDistance(s: State, expStatSN: serial)
    requires s.depth < HALF / 2 && Conserved(s) && Ahead(expStatSN, s.stat) < HALF
    ensures Lags(s, expStatSN) <==> Width(s.exp, s.max) + s.depth < Ahead(expStatSN, s.stat)
  {
    hide Width, Before, Plus, Ahead;
    var w := Width(s.exp, s.max) + s.depth;
    CompareByDistance(Plus(expStatSN, w), s.stat);
    AheadAfter(expStatSN, w, s.stat);
  }

  lemma AheadAfter(a: serial, w: nat, b: serial)
    requires w < SERIAL
    ensures Ahead(Plus(a, w), b) == if w <= Ahead(a, b) then Ahead(a, b) - w else Ahead(a, b) - w + SERIAL
  {
    AheadIs(a, b);
    AheadIs(Plus(a, w), b);
    assert Plus(a, w) == if a + w < SERIAL then a + w else a + w - SERIAL;
  }

  /**
   A SCSI command or NOP-Out with ExpCmdSN is refused exactly when it is not immediate
   and the window is empty, or when more statuses are unacknowledged than the window
   and queue_depth hold together.
   */
  lemma SlowRefusedIff(s: State, r: Request)
    requires s.depth < HALF / 2 && Conserved(s) && Ahead(r.expStatSN, s.stat) < HALF
    requires (r.Scsi? || (r.NopOut? && !r.reserved)) && r.cmdSN == s.exp
    ensures Step(s, Arrives(r)).Refused? <==>
      (!r.immediate && Width(s.exp, s.max) == 0) || Width(s.exp, s.max) + s.depth < Ahead(r.expStatSN, s.stat)
  {
    var x := r.expStatSN;
    LagsByDistance(s, x);
    CompareByDistance(x, s.stat);
    AdmitsByDistance(s.exp, s.max, s.exp);
    NextAhead(s.exp, s.max);
    ExpAdmitted(s.exp, s.max);
    AheadIs(s.exp, s.exp);
    hide Admits, Width, After, Before, Ahead, Lags;
  }

  /**
   Only commands of the window are taken, an immediate one only with ExpCmdSN. A
   NOP-Out that wants no answer is taken, and answered by nothing, exactly if it is
   immediate; otherwise it is refused.
   */
  lemma TakenInWindow(s: State, r: Request)
    requires 2 <= Width(s.exp, s.max) <= HALF + 1 && !r.Task?
    ensures Step(s, Arrives(r)).Goes? ==>
      if r.immediate then r.cmdSN == s.exp else Ahead(s.exp, r.cmdSN) < Width(s.exp, s.max)
    ensures r.NopOut? && r.reserved && Step(s, Arrives(r)).Goes? ==>
      r.immediate && Step(s, Arrives(r)).next == s.(stat := Carried(s, Arrives(r)))
  {
    if !r.immediate {
      AdmitsTheWindow(s.exp, s.max, r.cmdSN);
    }
    hide Admits, Width, After, Before, Ahead, Lags;
  }

  // ---------------------------------------------------------------- the code

  /** The counters of a session with one connection, as the handlers update them. */
  class Session {
    var stat: serial
    var exp: serial
    var max: serial
    const depth: nat
    const useSender: bool
    var resultQueue: seq<bool>
    ghost var open: nat

    ghost function Now(): State
      reads this
    {
      State(stat, exp, max, depth, useSender, resultQueue, open)
    }

    /** The end of a leading login: the first command number and the whole queue depth are open. */
    constructor (cmdSN: serial, expStatSN: serial, queueDepth: nat, useSender: bool)
      ensures Now() == LoggedIn(cmdSN, expStatSN, queueDepth, useSender)
    {
      stat, exp, max := expStatSN, cmdSN, Plus(cmdSN, queueDepth - 1);
      depth, this.useSender, resultQueue, open := queueDepth, useSender, [], 0;
    }

    /** The acknowledgement tests that the SCSI and NOP-Out handlers share. */
    method Acknowledge(expStatSN: serial) returns (rc: int)
      modifies this`stat
      ensures stat == CatchUp(old(stat), expStatSN)
      ensures rc == if Lags(Now(), expStatSN) then -1 else 0
    {
      if After(expStatSN, stat) {
        stat := expStatSN;
      }
      var qCmdSN := Plus(Ahead(exp, max), 1);
      qCmdSN := Plus(qCmdSN, depth);
      SumRoundsOnce(expStatSN, exp, max, depth);
      if Before(Plus(expStatSN, qCmdSN), stat) {
        return -1;
      }
      return 0;
    }

    lemma SumRoundsOnce(a: serial, exp: serial, max: serial, d: nat)
      ensures Plus(a, Plus(Plus(Ahead(exp, max), 1), d)) == Plus(a, Width(exp, max) + d)
    {
    }

    /** The numbering part of istgt_iscsi_op_scsi. */
    method OpScsi(immediate: bool, cmdSN: serial, expStatSN: serial) returns (rc: int)
      modifies this`stat, this`exp, this`open
      ensures rc == 0 || rc == -1
      ensures Step(old(Now()), Arrives(Scsi(immediate, cmdSN, expStatSN)))
           == if rc == 0 then Goes(Now()) else Refused(Now())
    {
      if !immediate {
        if Before(cmdSN, exp) || After(cmdSN, max) {
          return -1;
        }
        if After(cmdSN, exp) {
          exp := cmdSN;
        }
      } else if cmdSN != exp {
        return -1;
      }
      rc := Acknowledge(expStatSN);
      if rc < 0 {
        return;
      }
      if !immediate {
        exp := Plus(exp, 1);
        open := open + 1;
      }
    }

    /** The counters of a NOP-In or task management response: now, or when the sender thread takes it. */
    method Answer(immediate: bool) returns (statSN: Option<serial>)
      modifies this`stat, this`exp, this`max, this`resultQueue
      ensures Now() == RespondOrDefer(old(Now()), immediate)
      ensures useSender ==> statSN == None && stat == old(stat) && exp == old(exp) && max == old(max)
      ensures !useSender ==> statSN == Some(old(stat)) && stat == Plus(old(stat), 1)
    {
      statSN := None;
      if !useSender {
        statSN := Some(stat);
        stat := Plus(stat, 1);
        if !immediate {
          exp := Plus(exp, 1);
          max := Plus(max, 1);
        }
      } else {
        resultQueue := resultQueue + [immediate];
      }
    }

    /** istgt_iscsi_op_nopout */
    method OpNopOut(immediate: bool, cmdSN: serial, expStatSN: serial, reserved: bool)
      returns (rc: int, statSN: Option<serial>)
      modifies this`stat, this`exp, this`max, this`resultQueue
      ensures rc == 0 || rc == -1
      ensures statSN == if rc == 0 && UsesNumber(useSender, Arrives(NopOut(immediate, cmdSN, expStatSN, reserved)))
                        then Some(Carried(old(Now()), Arrives(NopOut(immediate, cmdSN, expStatSN, reserved)))) else None
      ensures Step(old(Now()), Arrives(NopOut(immediate, cmdSN, expStatSN, reserved)))
           == if rc == 0 then Goes(Now()) else Refused(Now())
    {
      statSN := None;
      if !immediate {
        if Before(cmdSN, exp) || After(cmdSN, max) {
          return -1, None;
        }
      } else if cmdSN != exp {
        return -1, None;
      }
      rc := Acknowledge(expStatSN);
      if rc < 0 {
        return;
      }
      if reserved {
        return if immediate then 0 else -1, None;
      }
      statSN := Answer(immediate);
    }

    /** istgt_iscsi_op_task */
    method OpTask(immediate: bool, cmdSN: serial, expStatSN: serial) returns (statSN: Option<serial>)
      modifies this`stat, this`exp, this`max, this`resultQueue
      ensures statSN == if useSender then None
                        else Some(Carried(old(Now()), Arrives(Task(immediate, cmdSN, expStatSN))))
      ensures Step(old(Now()), Arrives(Task(immediate, cmdSN, expStatSN))) == Goes(Now())
    {
      if cmdSN != exp {
        exp := cmdSN;
      }
      if After(expStatSN, stat) {
        stat := expStatSN;
      }
      statSN := Answer(immediate);
    }

    /** istgt_update_pdu on the first queued response. */
    method UpdatePdu() returns (statSN: serial)
      requires resultQueue != []
      modifies this`stat, this`exp, this`max, this`resultQueue
      ensures statSN == old(stat) && stat == Plus(old(stat), 1) && resultQueue == old(resultQueue)[1..]
      ensures Step(old(Now()), Sent) == Goes(Now())
    {
      var immediate := resultQueue[0];
      resultQueue := resultQueue[1..];
      statSN := stat;
      stat := Plus(stat, 1);
      if !immediate {
        exp := Plus(exp, 1);
        max := Plus(max, 1);
      }
    }

    /** The counters of the one PDU that carries the status of a SCSI command. */
    method TakeStatus(immediate: bool) returns (statSN: serial)
      requires immediate || open > 0
      modifies this`stat, this`max, this`open
      ensures statSN == old(stat) && stat == Plus(old(stat), 1)
      ensures max == if immediate then old(max) else Plus(old(max), 1)
      ensures Step(old(Now()), Built(immediate)) == Goes(Now())
    {
      statSN := stat;
      stat := Plus(stat, 1);
      if !immediate {
        max := Plus(max, 1);
        open := open - 1;
      }
    }
  }
}
