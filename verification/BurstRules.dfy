/**
 When a write ends well, said once more of the PDUs alone: the own ones fall into
 bursts, each continuous, numbered from 0 and closed by its F bit.
 */
module BurstRules {
  import opened Bytes
  import opened Names
  import opened Numbers
  import opened Reception
  import opened TransferTrace

  /** Octets that some PDUs carry. */
  function Size(ps: seq<Pdu>): nat {
    if ps == [] then 0
    else Size(ps[..|ps| - 1]) + if ps[|ps| - 1].DataOut? then |ps[|ps| - 1].data| else 0
  }

  /** The first PDU with F, or the end. */
  function FirstF(ps: seq<Pdu>): (j: nat)
    ensures j <= |ps|
    ensures j < |ps| ==> ps[j].DataOut? && ps[j].f
    ensures forall i | 0 <= i < j :: !(ps[i].DataOut? && ps[i].f)
  {
    if ps == [] || (ps[0].DataOut? && ps[0].f) then 0 else 1 + FirstF(ps[1..])
  }

  /** What an R2T at an offset asks for. */
  function Share(k: Terms, from: nat): int {
    Min(k.maxBurst, k.transferLen - from)
  }

  /** PDU i of a burst that starts at an offset and a DataSN continues it. */
  predicate Continues(b: seq<Pdu>, i: nat, from: nat, sn: nat)
    requires i < |b|
  {
    b[i].DataOut? && b[i].dataSN == (sn + i) % SERIAL && b[i].offset == from + Size(b[..i])
  }

  /** After its first i PDUs a burst is neither filled nor is the write complete. */
  predicate Unfilled(k: Terms, b: seq<Pdu>, i: nat, from: nat)
    requires i <= |b|
  {
    Size(b[..i]) != Share(k, from) && from + Size(b[..i]) < k.transferLen
  }

  /**
   A burst: numbered and continuous, F on its last PDU and on no other. It may stop
   short of what was asked, or run past it before it is closed, but it is closed
   where it is filled, and the last burst of a write ends where the write does.
   */
  predicate OneBurst(k: Terms, from: nat, sn: nat, b: seq<Pdu>) {
    && b != []
    && (forall i | 0 <= i < |b| :: Continues(b, i, from, sn) && (b[i].f <==> i == |b| - 1))
    && (forall i | 0 < i < |b| :: Unfilled(k, b, i, from))
    && (from + Size(b) < k.transferLen || Size(b) == Share(k, from))
  }

  /** Bursts one behind the other up to the end of the write; the first may start at a later DataSN. */
  predicate InBursts(k: Terms, from: nat, sn: nat, ps: seq<Pdu>)
    decreases |ps|
  {
    var j := FirstF(ps);
    && j < |ps| && OneBurst(k, from, sn, ps[..j + 1])
    && var to := from + Size(ps[..j + 1]);
       if to >= k.transferLen then j + 1 == |ps| else InBursts(k, to, 0, ps[j + 1..])
  }

  // ---------------------------------------------------------------- one own PDU

  /** Part of a burst. */
  predicate Open(k: Terms, from: nat, sn: nat, done: seq<Pdu>) {
    && (forall i | 0 <= i < |done| :: Continues(done, i, from, sn) && !done[i].f)
    && (forall i | 0 < i <= |done| :: Unfilled(k, done, i, from))
  }

  lemma SizeMore(ps: seq<Pdu>, p: Pdu)
    requires p.DataOut?
    ensures Size(ps + [p]) == Size(ps) + |p.data|
  {
    assert (ps + [p])[..|ps|] == ps;
  }

  lemma Cut<T>(a: seq<T>, p: T, rest: seq<T>)
    ensures forall i | 0 <= i <= |a| :: (a + [p] + rest)[..i] == a[..i] && (a + [p])[..i] == a[..i]
    ensures (a + [p] + rest)[..|a| + 1] == a + [p] && (a + [p])[..|a| + 1] == a + [p]
    ensures (a + [p] + rest)[|a| + 1..] == rest
  {
  }

  lemma {:induction false} FirstFAt(done: seq<Pdu>, p: Pdu, rest: seq<Pdu>)
    requires p.DataOut? && forall i | 0 <= i < |done| :: !(done[i].DataOut? && done[i].f)
    ensures p.f ==> FirstF(done + [p] + rest) == |done|
    ensures !p.f ==> FirstF(done + [p] + rest) == |done| + 1 + FirstF(rest)
  {
    var all := done + [p] + rest;
    if done == [] {
      assert all[0] == p && all[1..] == rest;
    } else {
      assert all[0] == done[0] && all[1..] == done[1..] + [p] + rest;
      FirstFAt(done[1..], p, rest);
    }
  }

  /** Its number and place are those due. */
  predicate IsDue(p: Pdu, from: nat, sn: nat, done: seq<Pdu>) {
    p.DataOut? && p.dataSN == (sn + |done|) % SERIAL && p.offset == from + Size(done)
  }

  lemma ContinuesAt(done: seq<Pdu>, p: Pdu, rest: seq<Pdu>, from: nat, sn: nat)
    ensures forall i | 0 <= i < |done| :: Continues(done + [p] + rest, i, from, sn) == Continues(done, i, from, sn)
    ensures forall i | 0 <= i < |done| :: (done + [p] + rest)[i] == done[i]
    ensures (done + [p] + rest)[|done|] == p
    ensures Continues(done + [p] + rest, |done|, from, sn) == IsDue(p, from, sn, done)
  {
    hide Size;
    Cut(done, p, rest);
  }

  lemma UnfilledAt(k: Terms, done: seq<Pdu>, p: Pdu, rest: seq<Pdu>, from: nat)
    requires p.DataOut?
    ensures forall i | 0 <= i <= |done| :: Unfilled(k, done + [p] + rest, i, from) == Unfilled(k, done, i, from)
    ensures var got := Size(done) + |p.data|;
            Unfilled(k, done + [p] + rest, |done| + 1, from) <==> got != Share(k, from) && from + got < k.transferLen
  {
    hide Size;
    Cut(done, p, rest);
    SizeMore(done, p);
  }

  /** One more PDU without F. */
  lemma OpenMore(k: Terms, from: nat, sn: nat, done: seq<Pdu>, p: Pdu)
    requires Open(k, from, sn, done) && IsDue(p, from, sn, done) && !p.f
    requires var got := Size(done) + |p.data|; got != Share(k, from) && from + got < k.transferLen
    ensures Open(k, from, sn, done + [p])
  {
    hide Continues, Unfilled;
    ContinuesAt(done, p, [], from, sn);
    UnfilledAt(k, done, p, [], from);
    assert done + [p] + [] == done + [p];
  }

  /** A PDU with F closes the burst. */
  lemma ClosedIff(k: Terms, from: nat, sn: nat, done: seq<Pdu>, p: Pdu)
    requires Open(k, from, sn, done) && p.DataOut? && p.f
    ensures var got := Size(done) + |p.data|;
            OneBurst(k, from, sn, done + [p])
            <==> IsDue(p, from, sn, done) && (from + got < k.transferLen || got == Share(k, from))
  {
    hide Continues, Unfilled, IsDue;
    ContinuesAt(done, p, [], from, sn);
    UnfilledAt(k, done, p, [], from);
    SizeMore(done, p);
    assert done + [p] + [] == done + [p];
  }

  lemma FIff(k: Terms, from: nat, sn: nat, done: seq<Pdu>, p: Pdu, rest: seq<Pdu>)
    requires Open(k, from, sn, done) && p.DataOut? && p.f
    ensures var got := Size(done) + |p.data|;
            InBursts(k, from, sn, done + [p] + rest)
            <==> && IsDue(p, from, sn, done) && (from + got < k.transferLen || got == Share(k, from))
                 && if from + got >= k.transferLen then rest == [] else InBursts(k, from + got, 0, rest)
  {
    hide OneBurst, IsDue, Continues, Unfilled, InBursts, Size;
    OpenHasNoF(k, from, sn, done);
    FirstFAt(done, p, rest);
    ClosedIff(k, from, sn, done, p);
    Cut(done, p, rest);
    SizeMore(done, p);
    InBurstsAt(k, from, sn, done + [p] + rest, |done|);
  }

  lemma OpenHasNoF(k: Terms, from: nat, sn: nat, done: seq<Pdu>)
    requires Open(k, from, sn, done)
    ensures forall i | 0 <= i < |done| :: done[i].DataOut? && !done[i].f
  {
    hide Unfilled, Size;
  }

  lemma InBurstsAt(k: Terms, from: nat, sn: nat, ps: seq<Pdu>, j: nat)
    requires j < |ps| && FirstF(ps) == j
    ensures InBursts(k, from, sn, ps) <==>
      && OneBurst(k, from, sn, ps[..j + 1])
      && var to := from + Size(ps[..j + 1]);
         if to >= k.transferLen then j + 1 == |ps| else InBursts(k, to, 0, ps[j + 1..])
  {
    hide OneBurst, Size;
  }

  lemma NoFIff(k: Terms, from: nat, sn: nat, done: seq<Pdu>, p: Pdu, rest: seq<Pdu>)
    requires Open(k, from, sn, done) && p.DataOut? && !p.f && InBursts(k, from, sn, done + [p] + rest)
    ensures IsDue(p, from, sn, done)
    ensures var got := Size(done) + |p.data|; got != Share(k, from) && from + got < k.transferLen
  {
    hide IsDue, Continues, Unfilled, Size;
    var all := done + [p] + rest;
    FirstFAt(done, p, rest);
    var j := FirstF(all);
    ContinuesAt(done, p, rest[..j - |done|], from, sn);
    UnfilledAt(k, done, p, rest[..j - |done|], from);
    assert all[..j + 1] == done + [p] + rest[..j - |done|];
    assert Continues(all[..j + 1], |done|, from, sn);
    assert Unfilled(k, all[..j + 1], |done| + 1, from);
  }

  // ---------------------------------------------------------------- the loop

  /** The loop asks for everything from an offset on. */
  predicate Asking(k: Terms, from: nat) {
    from < k.transferLen <= k.room && k.maxBurst > 0 && (k.initialR2t || from >= k.firstBurst)
  }

  /** Where the loop stands inside a burst. */
  function Place(k: Terms, from: nat, sn: nat, done: seq<Pdu>): Mark {
    Mark(from + Size(done), Share(k, from) - Size(done), true, (sn + |done|) % SERIAL)
  }

  /** Own PDUs: the loop goes on exactly with one that is due and keeps to the rules on F. */
  lemma OwnIff(k: Terms, from: nat, sn: nat, done: seq<Pdu>, p: Pdu)
    requires Asking(k, from) && p.DataOut?
    ensures var got := Size(done) + |p.data|;
            var after := AfterOwn(k, Place(k, from, sn, done), p);
            && (after.Some? <==> && IsDue(p, from, sn, done) && from + got <= k.room
                                 && if p.f then from + got < k.transferLen || got == Share(k, from)
                                    else got != Share(k, from))
            && (after.Some? ==> after.value.offset == from + got)
            && (after.Some? && !p.f ==> after.value == Place(k, from, sn, done + [p]))
            && (after.Some? && p.f && from + got < k.transferLen ==>
                  AfterAsking(k, after.value) == Place(k, from + got, 0, []))
  {
    hide Size, AfterAsking;
    SizeMore(done, p);
    NextNumber(sn + |done|);
    NoOctets();
    var got := Size(done) + |p.data|;
    AskedAnew(k, from + got, Mark(from + got, Share(k, from) - got, false, (sn + |done| + 1) % SERIAL));
  }

  lemma NoOctets()
    ensures Size([]) == 0
  {
  }

  lemma AskedAnew(k: Terms, offset: nat, m: Mark)
    requires m.offset == offset && !m.asked && (k.initialR2t || offset >= k.firstBurst)
    ensures AfterAsking(k, m) == Mark(offset, Share(k, offset), true, 0)
  {
  }

  lemma NextNumber(n: nat)
    ensures (n % SERIAL + 1) % SERIAL == (n + 1) % SERIAL
  {
  }

  lemma OthersCons(k: Terms, cs: seq<Cursor>, waiting: nat, p: Pdu, later: seq<Pdu>)
    ensures OthersInOrder(k, cs, waiting, [p] + later) <==>
              if Mine(k.tag, p) then OthersInOrder(k, cs, waiting, later)
              else if p.DataOut? then
                Elsewhere(cs, p).Some? && OthersInOrder(k, Elsewhere(cs, p).value, waiting, later)
              else waiting <= k.maxPending && OthersInOrder(k, cs, waiting + 1, later)
  {
    hide Elsewhere;
    assert ([p] + later)[1..] == later;
  }

  lemma NothingInOrder(k: Terms, cs: seq<Cursor>, waiting: nat)
    ensures OthersInOrder(k, cs, waiting, []) && OwnPdus(k.tag, []) == []
  {
  }

  lemma OneMore(k: Terms, cs: seq<Cursor>, waiting: nat, done: seq<Pdu>, p: Pdu, later: seq<Pdu>, n: nat)
    requires n <= |later|
    ensures ([p] + later)[..n + 1] == [p] + later[..n]
    ensures var rest := OwnPdus(k.tag, later[..n]);
            done + OwnPdus(k.tag, [p] + later[..n]) == if Mine(k.tag, p) then done + [p] + rest else done + rest
    ensures OthersInOrder(k, cs, waiting, [p] + later[..n]) <==>
              if Mine(k.tag, p) then OthersInOrder(k, cs, waiting, later[..n])
              else if p.DataOut? then
                Elsewhere(cs, p).Some? && OthersInOrder(k, Elsewhere(cs, p).value, waiting, later[..n])
              else waiting <= k.maxPending && OthersInOrder(k, cs, waiting + 1, later[..n])
  {
    hide OwnPdus, OthersInOrder, Elsewhere;
    OthersCons(k, cs, waiting, p, later[..n]);
    OwnFirst(k.tag, p, later[..n]);
    assert done + ([p] + OwnPdus(k.tag, later[..n])) == done + [p] + OwnPdus(k.tag, later[..n]);
    assert [] + OwnPdus(k.tag, later[..n]) == OwnPdus(k.tag, later[..n]);
  }

  /** From inside a burst: a loop that ends well has taken bursts up to the end of the write. */
  lemma {:induction false} BurstsFound(k: Terms, from: nat, sn: nat, done: seq<Pdu>, cs: seq<Cursor>, waiting: nat,
                                       input: seq<Pdu>, lastF: bool) returns (n: nat)
    requires Asking(k, from) && Open(k, from, sn, done) && from + Size(done) < k.transferLen
    requires Succeeds(k, Place(k, from, sn, done), cs, waiting, input, lastF)
    ensures n <= |input| && OthersInOrder(k, cs, waiting, input[..n])
    ensures InBursts(k, from, sn, done + OwnPdus(k.tag, input[..n]))
    decreases |input|
  {
    hide Open, InBursts, IsDue, Elsewhere, OwnPdus, OthersInOrder, Succeeds, AfterOwn, Size;
    var m := Place(k, from, sn, done);
    AskingIsFirst(k, m, cs, waiting, input, lastF);
    Round(k, m, cs, waiting, input, lastF);
    var p, later := input[0], input[1..];
    assert input == [p] + later;
    if Mine(k.tag, p) {
      OwnIff(k, from, sn, done, p);
      var after, to := AfterOwn(k, m, p).value, from + Size(done) + |p.data|;
      if to >= k.transferLen {
        Over(k, after, cs, waiting, later, p.f);
        NothingInOrder(k, cs, waiting);
        FIff(k, from, sn, done, p, []);
        n := 0;
      } else if p.f {
        AskingIsFirst(k, after, cs, waiting, later, p.f);
        NewBurst(k, to, []);
        n := BurstsFound(k, to, 0, [], cs, waiting, later, p.f);
        NewBurst(k, to, OwnPdus(k.tag, later[..n]));
        FIff(k, from, sn, done, p, OwnPdus(k.tag, later[..n]));
      } else {
        OpenMore(k, from, sn, done, p);
        n := BurstsFound(k, from, sn, done + [p], cs, waiting, later, p.f);
      }
    } else if p.DataOut? {
      n := BurstsFound(k, from, sn, done, Elsewhere(cs, p).value, waiting, later, lastF);
    } else {
      n := BurstsFound(k, from, sn, done, cs, waiting + 1, later, lastF);
    }
    OneMore(k, cs, waiting, done, p, later, n);
    n := n + 1;
  }

  /** And bursts up to the end of the write bring it there. */
  lemma {:induction false} BurstsTaken(k: Terms, from: nat, sn: nat, done: seq<Pdu>, cs: seq<Cursor>, waiting: nat,
                                       input: seq<Pdu>, lastF: bool, n: nat)
    requires Asking(k, from) && Open(k, from, sn, done) && from + Size(done) < k.transferLen
    requires n <= |input| && OthersInOrder(k, cs, waiting, input[..n])
    requires InBursts(k, from, sn, done + OwnPdus(k.tag, input[..n]))
    ensures Succeeds(k, Place(k, from, sn, done), cs, waiting, input, lastF)
    decreases |input|
  {
    hide Open, InBursts, IsDue, Elsewhere, OwnPdus, OthersInOrder, Succeeds, AfterOwn, Size;
    var m := Place(k, from, sn, done);
    NotOver(k, from, sn, done);
    assert input[..0] == [];
    Round(k, m, cs, waiting, input, lastF);
    var p, later := input[0], input[1..];
    assert input == [p] + later;
    OneMore(k, cs, waiting, done, p, later, n - 1);
    var rest := OwnPdus(k.tag, later[..n - 1]);
    if Mine(k.tag, p) {
      OwnIff(k, from, sn, done, p);
      var to := from + Size(done) + |p.data|;
      if p.f {
        FIff(k, from, sn, done, p, rest);
      } else {
        NoFIff(k, from, sn, done, p, rest);
      }
      var after := AfterOwn(k, m, p).value;
      if to >= k.transferLen {
        Over(k, after, cs, waiting, later, p.f);
      } else if p.f {
        AskingIsFirst(k, after, cs, waiting, later, p.f);
        NewBurst(k, to, rest);
        BurstsTaken(k, to, 0, [], cs, waiting, later, p.f, n - 1);
      } else {
        OpenMore(k, from, sn, done, p);
        BurstsTaken(k, from, sn, done + [p], cs, waiting, later, p.f, n - 1);
      }
    } else if p.DataOut? {
      BurstsTaken(k, from, sn, done, Elsewhere(cs, p).value, waiting, later, lastF, n - 1);
    } else {
      BurstsTaken(k, from, sn, done, cs, waiting + 1, later, lastF, n - 1);
    }
  }

  /** An open burst is not the end. */
  lemma NotOver(k: Terms, from: nat, sn: nat, done: seq<Pdu>)
    requires Open(k, from, sn, done)
    ensures !InBursts(k, from, sn, done + OwnPdus(k.tag, []))
  {
    assert done + OwnPdus(k.tag, []) == done;
  }

  lemma NewBurst(k: Terms, from: nat, ps: seq<Pdu>)
    ensures Open(k, from, 0, []) && Size([]) == 0 && [] + ps == ps
  {
  }

  // ---------------------------------------------------------------- data that comes unasked, with the own tag

  /** Where unasked data stops. */
  function Limit(k: Terms): int {
    Min(k.firstBurst, k.transferLen)
  }

  /**
   Unasked data up to FirstBurstLength or the end of the write: numbered and
   continuous, never past that place. F is needed on the PDU that gets there when
   it is the end of the write, or when there was no immediate data.
   */
  predicate Opening(k: Terms, start: nat, b: seq<Pdu>) {
    && b != []
    && (forall i | 0 <= i < |b| :: Continues(b, i, start, 0))
    && (forall i | 0 < i < |b| :: start + Size(b[..i]) < Limit(k))
    && start + Size(b) == Limit(k)
    && (start == 0 || k.transferLen <= k.firstBurst ==> b[|b| - 1].DataOut? && b[|b| - 1].f)
  }

  /** The first j PDUs are the unasked ones. */
  predicate OpensWith(k: Terms, start: nat, ps: seq<Pdu>, j: nat)
    requires j <= |ps|
  {
    Opening(k, start, ps[..j])
    && if k.transferLen <= k.firstBurst then j == |ps| else InBursts(k, k.firstBurst, 0, ps[j..])
  }

  predicate OpenStart(k: Terms, start: nat, done: seq<Pdu>) {
    && (forall i | 0 <= i < |done| :: Continues(done, i, start, 0))
    && (forall i | 0 < i <= |done| :: start + Size(done[..i]) < Limit(k))
  }

  /** The loop may not ask yet. */
  predicate Waiting(k: Terms, start: nat) {
    start < Limit(k) && k.transferLen <= k.room && k.maxBurst > 0 && !k.initialR2t
  }

  function StartPlace(k: Terms, start: nat, done: seq<Pdu>): Mark {
    Mark(start + Size(done), Min(k.firstBurst, k.transferLen - start) - Size(done), false, |done| % SERIAL)
  }

  lemma UnaskedIff(k: Terms, start: nat, done: seq<Pdu>, p: Pdu)
    requires Waiting(k, start) && p.DataOut? && start + Size(done) < Limit(k)
    ensures var to := start + Size(done) + |p.data|;
            var after := AfterOwn(k, StartPlace(k, start, done), p);
            && (to < Limit(k) ==> (after.Some? <==> IsDue(p, start, 0, done)))
            && (to < Limit(k) && after.Some? ==> after.value == StartPlace(k, start, done + [p]))
            && (to == Limit(k) ==>
                  (after.Some? <==> IsDue(p, start, 0, done) && (start == 0 || k.transferLen <= k.firstBurst ==> p.f)))
            && (to == Limit(k) < k.transferLen && after.Some? ==>
                  AfterAsking(k, after.value) == Place(k, k.firstBurst, 0, []))
            && (after.Some? ==> after.value.offset == to)
            && (to > Limit(k) && after.Some? ==> to > k.transferLen && !p.f)
  {
    SizeMore(done, p);
    NextNumber(|done|);
  }

  lemma StartMore(k: Terms, start: nat, done: seq<Pdu>, p: Pdu)
    requires OpenStart(k, start, done) && IsDue(p, start, 0, done) && start + Size(done) + |p.data| < Limit(k)
    ensures OpenStart(k, start, done + [p])
  {
    hide Continues, Size;
    ContinuesAt(done, p, [], start, 0);
    Cut(done, p, []);
    SizeMore(done, p);
    assert done + [p] + [] == done + [p];
  }

  lemma OpeningIff(k: Terms, start: nat, done: seq<Pdu>, p: Pdu)
    requires OpenStart(k, start, done) && p.DataOut?
    ensures Opening(k, start, done + [p]) <==>
              && IsDue(p, start, 0, done) && start + Size(done) + |p.data| == Limit(k)
              && (start == 0 || k.transferLen <= k.firstBurst ==> p.f)
  {
    hide Continues, Size, IsDue;
    ContinuesAt(done, p, [], start, 0);
    Cut(done, p, []);
    SizeMore(done, p);
    assert done + [p] + [] == done + [p];
  }

  /** A PDU that is followed by more unasked data leaves it short of its end. */
  lemma OpeningPart(k: Terms, start: nat, done: seq<Pdu>, p: Pdu, rest: seq<Pdu>, j: nat)
    requires |done| + 1 < j <= |done + [p] + rest| && Opening(k, start, (done + [p] + rest)[..j]) && p.DataOut?
    ensures IsDue(p, start, 0, done) && start + Size(done) + |p.data| < Limit(k)
  {
    hide Continues, Size, IsDue;
    var more := rest[..j - |done| - 1];
    assert (done + [p] + rest)[..j] == done + [p] + more;
    ContinuesAt(done, p, more, start, 0);
    Cut(done, p, more);
    SizeMore(done, p);
  }

  lemma {:induction false} StartFound(k: Terms, start: nat, done: seq<Pdu>, cs: seq<Cursor>, waiting: nat,
                                      input: seq<Pdu>, lastF: bool) returns (n: nat, j: nat)
    requires Waiting(k, start) && OpenStart(k, start, done) && start + Size(done) < Limit(k)
    requires Succeeds(k, StartPlace(k, start, done), cs, waiting, input, lastF)
    ensures n <= |input| && OthersInOrder(k, cs, waiting, input[..n])
    ensures |done| < j <= |done + OwnPdus(k.tag, input[..n])|
    ensures OpensWith(k, start, done + OwnPdus(k.tag, input[..n]), j)
    decreases |input|
  {
    hide OpenStart, Opening, InBursts, IsDue, Elsewhere, OwnPdus, OthersInOrder, Succeeds, AfterOwn, Size;
    var m := StartPlace(k, start, done);
    AskingIsFirst(k, m, cs, waiting, input, lastF);
    Round(k, m, cs, waiting, input, lastF);
    var p, later := input[0], input[1..];
    assert input == [p] + later;
    if Mine(k.tag, p) {
      UnaskedIff(k, start, done, p);
      var after, to := AfterOwn(k, m, p).value, start + Size(done) + |p.data|;
      if to >= k.transferLen {
        Over(k, after, cs, waiting, later, p.f);
        NothingInOrder(k, cs, waiting);
        n, j := 0, |done| + 1;
        OpeningIff(k, start, done, p);
      } else if to == Limit(k) {
        AskingIsFirst(k, after, cs, waiting, later, p.f);
        NewBurst(k, to, []);
        n := BurstsFound(k, to, 0, [], cs, waiting, later, p.f);
        NewBurst(k, to, OwnPdus(k.tag, later[..n]));
        j := |done| + 1;
        OpeningIff(k, start, done, p);
      } else {
        StartMore(k, start, done, p);
        n, j := StartFound(k, start, done + [p], cs, waiting, later, p.f);
      }
      Cut(done, p, OwnPdus(k.tag, later[..n]));
    } else if p.DataOut? {
      n, j := StartFound(k, start, done, Elsewhere(cs, p).value, waiting, later, lastF);
    } else {
      n, j := StartFound(k, start, done, cs, waiting + 1, later, lastF);
    }
    OneMore(k, cs, waiting, done, p, later, n);
    n := n + 1;
  }

  lemma {:induction false} StartTaken(k: Terms, start: nat, done: seq<Pdu>, cs: seq<Cursor>, waiting: nat,
                                      input: seq<Pdu>, lastF: bool, n: nat, j: nat)
    requires Waiting(k, start) && OpenStart(k, start, done) && start + Size(done) < Limit(k)
    requires n <= |input| && OthersInOrder(k, cs, waiting, input[..n])
    requires |done| < j <= |done + OwnPdus(k.tag, input[..n])|
    requires OpensWith(k, start, done + OwnPdus(k.tag, input[..n]), j)
    ensures Succeeds(k, StartPlace(k, start, done), cs, waiting, input, lastF)
    decreases |input|
  {
    hide OpenStart, Opening, InBursts, IsDue, Elsewhere, OwnPdus, OthersInOrder, Succeeds, AfterOwn, Size;
    var m := StartPlace(k, start, done);
    NothingInOrder(k, cs, waiting);
    assert input[..0] == [];
    Round(k, m, cs, waiting, input, lastF);
    var p, later := input[0], input[1..];
    assert input == [p] + later;
    OneMore(k, cs, waiting, done, p, later, n - 1);
    var rest := OwnPdus(k.tag, later[..n - 1]);
    if Mine(k.tag, p) {
      UnaskedIff(k, start, done, p);
      var to := start + Size(done) + |p.data|;
      Cut(done, p, rest);
      if j > |done| + 1 {
        OpeningPart(k, start, done, p, rest, j);
        StartMore(k, start, done, p);
        StartTaken(k, start, done + [p], cs, waiting, later, p.f, n - 1, j);
      } else {
        OpeningIff(k, start, done, p);
        var after := AfterOwn(k, m, p).value;
        if to >= k.transferLen {
          Over(k, after, cs, waiting, later, p.f);
        } else {
          AskingIsFirst(k, after, cs, waiting, later, p.f);
          NewBurst(k, to, rest);
          BurstsTaken(k, to, 0, [], cs, waiting, later, p.f, n - 1);
        }
      }
    } else if p.DataOut? {
      StartTaken(k, start, done, Elsewhere(cs, p).value, waiting, later, lastF, n - 1, j);
    } else {
      StartTaken(k, start, done, cs, waiting + 1, later, lastF, n - 1, j);
    }
  }

  // ---------------------------------------------------------------- the two ways a write begins

  /** Some first PDUs of a stream: others in order, and the own ones the whole of a write that is asked for. */
  ghost predicate Completes(k: Terms, from: nat, sn: nat, cs: seq<Cursor>, waiting: nat, input: seq<Pdu>) {
    exists n: nat :: n <= |input| && OthersInOrder(k, cs, waiting, input[..n])
                     && InBursts(k, from, sn, OwnPdus(k.tag, input[..n]))
  }

  /** The same where the initiator may begin unasked. */
  ghost predicate CompletesUnasked(k: Terms, from: nat, cs: seq<Cursor>, waiting: nat, input: seq<Pdu>) {
    exists n: nat, j: nat :: n <= |input| && OthersInOrder(k, cs, waiting, input[..n])
      && j <= |OwnPdus(k.tag, input[..n])| && OpensWith(k, from, OwnPdus(k.tag, input[..n]), j)
  }

  /** A write without a table entry that is to take some data from the socket: whatever comes, when it ends well. */
  lemma FreshIff(k: Terms, immediate: nat, cs: seq<Cursor>, waiting: nat, input: seq<Pdu>)
    requires immediate < k.transferLen <= k.room && k.maxBurst > 0
    ensures Succeeds(k, FreshMark(k, immediate), cs, waiting, input, false)
       <==> if AskedForAll(k, immediate) then Completes(k, immediate, 0, cs, waiting, input)
            else CompletesUnasked(k, immediate, cs, waiting, input)
  {
    hide InBursts, OpensWith, OthersInOrder, OwnPdus, Succeeds;
    var m := FreshMark(k, immediate);
    NewBurst(k, immediate, []);
    if AskedForAll(k, immediate) {
      AskingIsFirst(k, m, cs, waiting, input, false);
      AskedIff(k, immediate, 0, cs, waiting, input);
    } else {
      UnaskedStart(k, immediate);
      if Succeeds(k, m, cs, waiting, input, false) {
        var n, j := StartFound(k, immediate, [], cs, waiting, input, false);
        NewBurst(k, immediate, OwnPdus(k.tag, input[..n]));
      }
      if CompletesUnasked(k, immediate, cs, waiting, input) {
        var n: nat, j: nat :| n <= |input| && OthersInOrder(k, cs, waiting, input[..n])
          && j <= |OwnPdus(k.tag, input[..n])| && OpensWith(k, immediate, OwnPdus(k.tag, input[..n]), j);
        NewBurst(k, immediate, OwnPdus(k.tag, input[..n]));
        StartTaken(k, immediate, [], cs, waiting, input, false, n, j);
      }
    }
  }

  lemma UnaskedStart(k: Terms, start: nat)
    ensures OpenStart(k, start, []) && Size([]) == 0
    ensures FreshMark(k, start) == StartPlace(k, start, [])
    ensures forall ps: seq<Pdu>, j | 0 <= j <= |ps| && OpensWith(k, start, ps, j) :: j > 0
  {
  }

  lemma AskedIff(k: Terms, from: nat, sn: nat, cs: seq<Cursor>, waiting: nat, input: seq<Pdu>)
    requires Asking(k, from) && sn < SERIAL
    ensures Succeeds(k, Mark(from, Share(k, from), true, sn), cs, waiting, input, false)
       <==> Completes(k, from, sn, cs, waiting, input)
  {
    hide InBursts, OthersInOrder, OwnPdus, Succeeds;
    NoneYet(k, from, sn);
    if Succeeds(k, Mark(from, Share(k, from), true, sn), cs, waiting, input, false) {
      var n := BurstsFound(k, from, sn, [], cs, waiting, input, false);
      NewBurst(k, from, OwnPdus(k.tag, input[..n]));
    }
    if Completes(k, from, sn, cs, waiting, input) {
      var n: nat :| n <= |input| && OthersInOrder(k, cs, waiting, input[..n])
                    && InBursts(k, from, sn, OwnPdus(k.tag, input[..n]));
      NewBurst(k, from, OwnPdus(k.tag, input[..n]));
      BurstsTaken(k, from, sn, [], cs, waiting, input, false, n);
    }
  }

  lemma NoneYet(k: Terms, from: nat, sn: nat)
    requires sn < SERIAL
    ensures Open(k, from, sn, []) && Size([]) == 0 && Place(k, from, sn, []) == Mark(from, Share(k, from), true, sn)
  {
  }

  /**
   A write that resumes from its table entry, at an offset behind the first burst
   and the DataSN that is due there: the rest of the burst that was asked for, or,
   behind FirstBurstLength + MaxBurstLength, a new one.
   */
  lemma ResumedIff(k: Terms, offset: nat, dataSN: nat, cs: seq<Cursor>, waiting: nat, input: seq<Pdu>)
    requires k.firstBurst <= offset < k.transferLen <= k.room && k.maxBurst > 0 && dataSN < SERIAL
    ensures Succeeds(k, ResumedMark(k, offset, dataSN), cs, waiting, input, false)
       <==> Completes(k, offset, if offset < k.firstBurst + k.maxBurst then dataSN else 0, cs, waiting, input)
  {
    hide Completes, Succeeds;
    AskingIsFirst(k, ResumedMark(k, offset, dataSN), cs, waiting, input, false);
    AskedIff(k, offset, if offset < k.firstBurst + k.maxBurst then dataSN else 0, cs, waiting, input);
  }
}
