/**
 The loops that move a PDU through a socket: gathering writes and scattering
 reads over an I/O vector that is advanced after every partial transfer.
 */
module PduTransport {
  import opened Bytes
  import opened IscsiPdu
  import opened Numbers
  import Crc32c

  /** An entry of an I/O vector: the octets of buf from base on, len of them. */
  datatype Span = Span(buf: array<byte>, base: nat, len: nat)

  /**
   A socket. The schedule says what the coming transfers do: a negative number
   is an error, another number the octets the transport takes or gives at most.
   */
  class Socket {
    var sent: seq<byte>
    var incoming: seq<byte>
    var schedule: seq<int>

    constructor (incoming: seq<byte>, schedule: seq<int>)
      ensures sent == [] && this.incoming == incoming && this.schedule == schedule
    {
      sent, this.incoming, this.schedule := [], incoming, schedule;
    }
  }

  predicate InBounds(spans: seq<Span>) {
    forall s | s in spans :: s.base + s.len <= s.buf.Length
  }

  /** A schedule moves n octets when its entries, each at least least, add up to n before it errs or ends. */
  predicate Delivers(schedule: seq<int>, least: int, n: nat)
    requires 0 <= least
    decreases |schedule|
  {
    n == 0 || (schedule != [] && schedule[0] >= least && Delivers(schedule[1..], least, n - Min(schedule[0], n)))
  }

  /** What the first k entries of a schedule move at most. */
  function Total(schedule: seq<int>, k: nat): int
    requires k <= |schedule|
  {
    if k == 0 then 0 else Total(schedule, k - 1) + schedule[k - 1]
  }

  /** The first k entries, none of them less than least, make up n octets. */
  predicate Moves(schedule: seq<int>, least: int, n: nat, k: nat) {
    k <= |schedule| && (forall i | 0 <= i < k :: schedule[i] >= least) && Total(schedule, k) >= n
  }

  /** A schedule delivers exactly when some of its first entries move the octets. */
  lemma {:induction false} DeliversIff(schedule: seq<int>, least: int, n: nat)
    requires 0 <= least
    ensures Delivers(schedule, least, n) <==> exists k: nat :: Moves(schedule, least, n, k)
    decreases |schedule|
  {
    if n == 0 {
      assert Moves(schedule, least, n, 0);
    } else if schedule != [] && schedule[0] >= least {
      var first, rest := schedule[0], schedule[1..];
      var left := n - Min(first, n);
      DeliversIff(rest, least, left);
      if k: nat :| Moves(rest, least, left, k) {
        TotalFront(schedule, k);
        TotalGrows(rest, k);
        assert Moves(schedule, least, n, k + 1);
      }
      if k: nat :| Moves(schedule, least, n, k) {
        FirstNeeded(schedule, least, n, k);
        TotalFront(schedule, k - 1);
        assert forall i | 0 <= i < k - 1 :: rest[i] == schedule[i + 1];
        TotalGrows(rest, k - 1);
        assert Moves(rest, least, left, k - 1);
      }
    } else {
      forall k: nat
        ensures !Moves(schedule, least, n, k)
      {
        FirstNeeded(schedule, least, n, k);
      }
    }
  }

  lemma FirstNeeded(schedule: seq<int>, least: int, n: nat, k: nat)
    requires n > 0
    ensures Moves(schedule, least, n, k) ==> k > 0 && schedule != [] && schedule[0] >= least
  {
  }

  lemma {:induction false} TotalFront(schedule: seq<int>, k: nat)
    requires k < |schedule|
    ensures Total(schedule, k + 1) == schedule[0] + Total(schedule[1..], k)
    decreases k
  {
    if k != 0 {
      TotalFront(schedule, k - 1);
    }
  }

  lemma {:induction false} TotalGrows(schedule: seq<int>, k: nat)
    requires k <= |schedule| && forall i | 0 <= i < k :: schedule[i] >= 0
    ensures Total(schedule, k) >= 0
  {
    if k != 0 {
      TotalGrows(schedule, k - 1);
    }
  }

  // ---------------------------------------------------------------- the octets of a vector

  datatype Location = Location(buf: array<byte>, idx: nat)

  function SpanLocations(s: Span): (l: seq<Location>)
    ensures |l| == s.len
  {
    seq(s.len, i requires 0 <= i => Location(s.buf, s.base + i))
  }

  /** The places a vector names, in the order they are moved. */
  function Locations(spans: seq<Span>): seq<Location> {
    if spans == [] then [] else SpanLocations(spans[0]) + Locations(spans[1..])
  }

  predicate Allocated(ls: seq<Location>) {
    forall l | l in ls :: l.idx < l.buf.Length
  }

  function Content(ls: seq<Location>): (c: seq<byte>)
    requires Allocated(ls)
    reads set l | l in ls :: l.buf
    ensures |c| == |ls|
  {
    seq(|ls|, i requires 0 <= i < |ls| reads set l | l in ls :: l.buf => ls[i].buf[ls[i].idx])
  }

  lemma {:induction false} InBoundsAllocated(spans: seq<Span>)
    requires InBounds(spans)
    ensures Allocated(Locations(spans))
    decreases |spans|
  {
    if spans != [] {
      InBoundsAllocated(spans[1..]);
      assert spans[0] in spans;
      forall l | l in Locations(spans)
        ensures l.idx < l.buf.Length
      {
        assert l in SpanLocations(spans[0]) || l in Locations(spans[1..]);
      }
    }
  }

  lemma {:induction false} EmptyPrefix(spans: seq<Span>, i: nat)
    requires i <= |spans| && forall k | 0 <= k < i :: spans[k].len == 0
    ensures Locations(spans) == Locations(spans[i..])
    decreases i
  {
    if i == 0 {
      assert spans[0..] == spans;
    } else {
      assert SpanLocations(spans[0]) == [];
      EmptyPrefix(spans[1..], i - 1);
      assert spans[1..][i - 1..] == spans[i..];
    }
  }

  lemma LocationsCons(s: Span, rest: seq<Span>)
    ensures Locations([s] + rest) == SpanLocations(s) + Locations(rest)
  {
    assert ([s] + rest)[1..] == rest;
  }

  /** The entry the transfer stopped in keeps its tail; the entries before it are empty. */
  lemma StopHere(iov: seq<Span>, i: nat, rc: nat, iov': seq<Span>)
    requires i < |iov| && rc < iov[i].len && InBounds(iov)
    requires forall k | 0 <= k < i :: iov[k].len == 0
    requires iov' == iov[i := iov[i].(base := iov[i].base + rc, len := iov[i].len - rc)]
    ensures rc <= |Locations(iov[i..])| && Locations(iov') == Locations(iov[i..])[rc..] && InBounds(iov')
  {
    hide Locations, SpanLocations;
    FirstOf(iov, i);
    FirstOf(iov', i);
    assert iov'[i + 1..] == iov[i + 1..];
    LocationsCons(iov[i], iov[i + 1..]);
    LocationsCons(iov'[i], iov[i + 1..]);
    EmptyPrefix(iov', i);
    SpanTail(iov[i], rc, iov'[i]);
    TailOfConcat(SpanLocations(iov[i]), Locations(iov[i + 1..]), rc);
  }

  lemma FirstOf<T>(s: seq<T>, i: nat)
    requires i < |s|
    ensures s[i..] == [s[i]] + s[i + 1..]
  {
  }

  lemma SpanTail(s: Span, rc: nat, s': Span)
    requires rc <= s.len && s' == s.(base := s.base + rc, len := s.len - rc)
    ensures SpanLocations(s') == SpanLocations(s)[rc..]
  {
  }

  lemma TailOfConcat<T>(a: seq<T>, b: seq<T>, k: nat)
    requires k <= |a|
    ensures (a + b)[k..] == a[k..] + b
  {
  }

  /** An entry that was moved whole becomes empty and rc shrinks by its length. */
  lemma PassOver(iov: seq<Span>, i: nat, rc: nat, iov': seq<Span>)
    requires i < |iov| && iov[i].len <= rc <= |Locations(iov[i..])| && InBounds(iov)
    requires iov' == iov[i := iov[i].(len := 0)]
    ensures rc - iov[i].len <= |Locations(iov'[i + 1..])| && InBounds(iov')
    ensures Locations(iov'[i + 1..])[rc - iov[i].len..] == Locations(iov[i..])[rc..]
  {
    assert iov'[i + 1..] == iov[i + 1..];
    assert iov[i..] == [iov[i]] + iov[i + 1..];
    LocationsCons(iov[i], iov[i + 1..]);
  }

  /** The loop that adjusts the vector, shared by the writer and the reader: it drops the places already moved. */
  method Advance(iov0: seq<Span>, rc0: nat) returns (iov: seq<Span>)
    requires rc0 <= |Locations(iov0)| && InBounds(iov0)
    ensures |iov| == |iov0| && InBounds(iov)
    ensures Locations(iov) == Locations(iov0)[rc0..]
  {
    iov := iov0;
    var rc := rc0;
    for i := 0 to |iov0|
      invariant |iov| == |iov0| && InBounds(iov)
      invariant forall k | 0 <= k < i :: iov[k].len == 0
      invariant 0 <= rc <= |Locations(iov[i..])|
      invariant Locations(iov[i..])[rc..] == Locations(iov0)[rc0..]
    {
      ghost var was := iov;
      var len := iov[i].len;
      if iov[i].len != 0 && iov[i].len > rc {
        iov := iov[i := iov[i].(base := iov[i].base + rc, len := iov[i].len - rc)];
        StopHere(was, i, rc, iov);
        return;
      } else {
        iov := iov[i := iov[i].(len := 0)];
        PassOver(was, i, rc, iov);
        rc := rc - len;
      }
    }
    EmptyPrefix(iov, |iov0|);
  }

  // ---------------------------------------------------------------- writing

  lemma ContentTail(ls: seq<Location>, k: nat)
    requires Allocated(ls) && k <= |ls|
    ensures Allocated(ls[k..]) && Content(ls[k..]) == Content(ls)[k..]
  {
  }

  /** One gathering write: a prefix of the octets at the places left goes out. */
  method Writev(sock: Socket, iov: seq<Span>) returns (rc: int)
    requires Allocated(Locations(iov))
    modifies sock
    ensures rc <= |Locations(iov)| && sock.incoming == old(sock.incoming)
    ensures rc < 0 <==> old(sock.schedule) == [] || old(sock.schedule)[0] < 0
    ensures rc < 0 ==> sock.sent == old(sock.sent)
    ensures rc >= 0 ==> sock.sent == old(sock.sent) + Content(Locations(iov))[..rc]
                        && rc == Min(old(sock.schedule)[0], |Locations(iov)|)
                        && sock.schedule == old(sock.schedule)[1..]
  {
    if sock.schedule == [] || sock.schedule[0] < 0 {
      return -1;
    }
    rc := Min(sock.schedule[0], |Locations(iov)|);
    sock.schedule := sock.schedule[1..];
    sock.sent := sock.sent + Content(Locations(iov))[..rc];
  }

  lemma Moved(before: seq<byte>, all: seq<byte>, k: nat, n: nat)
    requires k + n <= |all|
    ensures (before + all[..k]) + all[k..][..n] == before + all[..k + n]
  {
  }

  /** The loop of the writer: every octet of the vector, once and in order. */
  method WriteAll(sock: Socket, iov0: seq<Span>) returns (ok: bool)
    requires InBounds(iov0) && Allocated(Locations(iov0))
    modifies sock
    ensures ok == Delivers(old(sock.schedule), 0, |Locations(iov0)|)
    ensures ok ==> sock.sent == old(sock.sent) + Content(Locations(iov0))
    ensures old(sock.sent) <= sock.sent <= old(sock.sent) + Content(Locations(iov0))
    ensures sock.incoming == old(sock.incoming)
  {
    hide Locations;
    ghost var ls := Locations(iov0);
    ghost var all, before, k := Content(ls), sock.sent, 0;
    var iov, nbytes := iov0, |Locations(iov0)|;
    while nbytes > 0
      invariant 0 <= k <= |ls| && nbytes == |ls| - k
      invariant InBounds(iov) && Locations(iov) == ls[k..]
      invariant Content(ls) == all && sock.sent == before + all[..k]
      invariant Delivers(sock.schedule, 0, nbytes) == Delivers(old(sock.schedule), 0, |ls|)
      invariant sock.incoming == old(sock.incoming)
      decreases |sock.schedule|
    {
      ContentTail(ls, k);
      var rc := Writev(sock, iov);
      if rc < 0 {
        break;
      }
      Moved(before, all, k, rc);
      k := k + rc;
      nbytes := nbytes - rc;
      if nbytes == 0 {
        break;
      }
      iov := Advance(iov, rc);
    }
    assert nbytes == 0 ==> all[..k] == all;
    return nbytes == 0;
  }

  // ---------------------------------------------------------------- reading

  predicate NoDuplicates(ls: seq<Location>) {
    forall i, j | 0 <= i < j < |ls| :: ls[i] != ls[j]
  }

  predicate DistinctBuffers(spans: seq<Span>) {
    forall i, j | 0 <= i < j < |spans| :: spans[i].buf != spans[j].buf
  }

  lemma {:induction false} LocationBuffers(spans: seq<Span>, l: Location)
    requires l in Locations(spans)
    ensures exists s :: s in spans && l.buf == s.buf
    decreases |spans|
  {
    if l !in SpanLocations(spans[0]) {
      LocationBuffers(spans[1..], l);
    }
  }

  lemma {:induction false} DistinctLocations(spans: seq<Span>)
    requires DistinctBuffers(spans)
    ensures NoDuplicates(Locations(spans))
    decreases |spans|
  {
    if spans != [] {
      DistinctLocations(spans[1..]);
      forall l | l in Locations(spans[1..])
        ensures l.buf != spans[0].buf
      {
        LocationBuffers(spans[1..], l);
      }
    }
  }

  lemma SpanContent(s: Span)
    requires s.base + s.len <= s.buf.Length
    ensures Allocated(SpanLocations(s))
    ensures Content(SpanLocations(s)) == s.buf[s.base..s.base + s.len]
  {
  }

  lemma ContentConcat(a: seq<Location>, b: seq<Location>)
    requires Allocated(a) && Allocated(b)
    ensures Allocated(a + b) && Content(a + b) == Content(a) + Content(b)
  {
  }

  function Octets(s: Span): seq<byte>
    requires s.base + s.len <= s.buf.Length
    reads s.buf
  {
    s.buf[s.base..s.base + s.len]
  }

  /** The octets of a vector, span after span. */
  lemma ContentCons(s: Span, rest: seq<Span>)
    requires s.base + s.len <= s.buf.Length && Allocated(Locations(rest))
    ensures Allocated(Locations([s] + rest))
    ensures Content(Locations([s] + rest)) == Octets(s) + Content(Locations(rest))
  {
    LocationsCons(s, rest);
    SpanContent(s);
    ContentConcat(SpanLocations(s), Locations(rest));
  }

  lemma AllFilled(ls: seq<Location>, stream: seq<byte>)
    requires Allocated(ls) && |ls| <= |stream| && forall i | 0 <= i < |ls| :: ls[i].buf[ls[i].idx] == stream[i]
    ensures Content(ls) == stream[..|ls|]
  {
  }

  /**
   One scattering read into the places iov names, which are those of all from
   the k-th on: if the first k places held the first k octets of the stream,
   the first k + rc now hold its first k + rc.
   */
  method Readv(sock: Socket, iov: seq<Span>, ghost all: seq<Location>, ghost stream: seq<byte>, ghost k: nat)
    returns (rc: int)
    requires k <= |all| && Locations(iov) == all[k..] && Allocated(all) && NoDuplicates(all)
    requires k <= |stream| && sock.incoming == stream[k..]
    requires forall i | 0 <= i < k :: all[i].buf[all[i].idx] == stream[i]
    modifies sock, set l | l in all :: l.buf
    ensures k + rc <= |all| && k + rc <= |stream| && sock.sent == old(sock.sent)
    ensures rc < 0 <==> old(sock.schedule) == [] || old(sock.schedule)[0] < 0
    ensures rc >= 0 ==> rc == Min(Min(old(sock.schedule)[0], |all| - k), |stream| - k)
                        && sock.schedule == old(sock.schedule)[1..]
                        && sock.incoming == stream[k + rc..]
    ensures rc >= 0 ==> forall i | 0 <= i < k + rc :: all[i].buf[all[i].idx] == stream[i]
  {
    if sock.schedule == [] || sock.schedule[0] < 0 {
      return -1;
    }
    var ls := Locations(iov);
    rc := Min(Min(sock.schedule[0], |ls|), |sock.incoming|);
    for t := 0 to rc
      invariant unchanged(sock)
      invariant forall i | 0 <= i < k + t :: all[i].buf[all[i].idx] == stream[i]
    {
      assert ls[t] == all[k + t];
      ls[t].buf[ls[t].idx] := sock.incoming[t];
    }
    sock.incoming, sock.schedule := sock.incoming[rc..], sock.schedule[1..];
  }

  /** The loop of the reader: it succeeds exactly when the octets are there and the transport keeps giving some. */
  method ReadAll(sock: Socket, iov0: seq<Span>, ghost ls: seq<Location>) returns (ok: bool)
    requires InBounds(iov0) && DistinctBuffers(iov0) && ls == Locations(iov0) && Allocated(ls)
    modifies sock, set l | l in ls :: l.buf
    ensures ok <==> |ls| <= |old(sock.incoming)| && Delivers(old(sock.schedule), 1, |ls|)
    ensures ok ==> Content(ls) == old(sock.incoming)[..|ls|] && sock.incoming == old(sock.incoming)[|ls|..]
    ensures sock.sent == old(sock.sent)
  {
    hide Locations, NoDuplicates, DistinctBuffers;
    DistinctLocations(iov0);
    ghost var stream, schedule := sock.incoming, sock.schedule;
    ghost var k := 0;
    var iov, nbytes := iov0, |Locations(iov0)|;
    while nbytes > 0
      invariant 0 <= k <= |ls| && nbytes == |ls| - k && k <= |stream|
      invariant InBounds(iov) && Locations(iov) == ls[k..]
      invariant sock.incoming == stream[k..]
      invariant forall i | 0 <= i < k :: ls[i].buf[ls[i].idx] == stream[i]
      invariant |ls| <= |stream| ==> Delivers(sock.schedule, 1, nbytes) == Delivers(schedule, 1, |ls|)
      invariant sock.sent == old(sock.sent)
      decreases |sock.schedule|
    {
      var rc := Readv(sock, iov, ls, stream, k);
      if rc <= 0 {
        break;
      }
      k := k + rc;
      nbytes := nbytes - rc;
      if nbytes == 0 {
        break;
      }
      iov := Advance(iov, rc);
    }
    if nbytes == 0 {
      AllFilled(ls, stream);
    }
    return nbytes == 0;
  }

  // ---------------------------------------------------------------- one PDU

  lemma FourSpans(a: Span, b: Span, c: Span, e: Span, iov: seq<Span>)
    requires iov == [a, b, c, e] && InBounds(iov)
    ensures Allocated(Locations(iov))
    ensures Content(Locations(iov)) == Body(Octets(a), Octets(b), Octets(c), Octets(e))
  {
    assert a in iov && b in iov && c in iov && e in iov;
    hide InBounds, Octets, SpanLocations;
    FourOf(a, b, c, e);
    ContentCons(e, []);
    ContentCons(c, [e]);
    ContentCons(b, [c, e]);
    ContentCons(a, [b, c, e]);
    assert Octets(e) + [] == Octets(e);
  }

  lemma FourOf<T>(a: T, b: T, c: T, e: T)
    ensures [a, b, c, e] == [a] + [b, c, e]
    ensures [b, c, e] == [b] + [c, e] && [c, e] == [c] + [e] && [e] == [e] + []
  {
  }

  lemma FiveSpans(h: Span, a: Span, b: Span, c: Span, e: Span, iov: seq<Span>)
    requires iov == [h, a, b, c, e] && InBounds(iov)
    ensures Allocated(Locations(iov))
    ensures Content(Locations(iov)) == Octets(h) + Body(Octets(a), Octets(b), Octets(c), Octets(e))
  {
    assert iov == [h] + [a, b, c, e];
    assert h in iov;
    forall s | s in [a, b, c, e]
      ensures s.base + s.len <= s.buf.Length
    {
      assert s in iov;
    }
    FourSpans(a, b, c, e, [a, b, c, e]);
    ContentCons(h, [a, b, c, e]);
  }

  lemma WireParts(p: Pdu, d: Digests, q: Pdu, w: Digests)
    requires Sendable(p) && q == Announced(p) && w == WriterDigests(p.bhs, d)
    ensures q.bhs + Body(q.ahs, Digest(w.header, q.bhs + q.ahs), q.data, Digest(w.data, q.data)) == Wire(p, d)
    ensures |Wire(p, d)| == BHS_LEN + |q.ahs| + |Digest(w.header, q.bhs + q.ahs)| + |q.data| + |Digest(w.data, q.data)|
  {
  }

  /** MAKE_DIGEST_WORD */
  method MakeDigestWord(buf: array<byte>, crc: bv32)
    requires buf.Length == DIGEST_LEN
    modifies buf
    ensures buf[..] == Le32(crc)
  {
    var w := Le32(crc);
    buf[0], buf[1], buf[2], buf[3] := w[0], w[1], w[2], w[3];
    assert buf[..] == w;
  }

  /** The digest of the headers, with or without an additional header. */
  method HeaderCrc(crc: Crc32c.Engine, bhs: array<byte>, ahs: array<byte>, ahsLen: nat) returns (c: bv32)
    requires crc.Valid() && ahsLen <= ahs.Length
    ensures c == Crc32c.Checksum(bhs[..] + ahs[..ahsLen])
  {
    if ahsLen == 0 {
      c := crc.Digest(bhs, bhs.Length);
      assert bhs[..bhs.Length] == bhs[..] + ahs[..ahsLen];
    } else {
      c := crc.HeaderDigest(bhs, ahs, ahsLen);
    }
  }

  /** istgt_iscsi_write_pdu_internal: all of the PDU p in the buffers goes out, or an error is returned. */
  method WritePdu(sock: Socket, crc: Crc32c.Engine, bhs: array<byte>, ahs: array<byte>, data: array<byte>,
                  d: Digests, ghost p: Pdu, ghost wire: seq<byte>)
    returns (rc: int)
    requires crc.Valid() && p == Pdu(bhs[..], ahs[..], data[..]) && Sendable(p) && wire == Wire(p, d)
    modifies sock
    ensures rc >= 0 <==> Delivers(old(sock.schedule), 0, |wire|)
    ensures rc >= 0 ==> sock.sent == old(sock.sent) + wire && rc == |wire|
    ensures old(sock.sent) <= sock.sent <= old(sock.sent) + wire
    ensures sock.incoming == old(sock.incoming)
  {
    hide Wire, Digest, Locations, Delivers, Opcode, Body, Align, AhsLength, DataLength;
    ghost var q, w := Announced(p), WriterDigests(p.bhs, d);
    var ahsLen, dataLen := AhsLength(bhs[..]), DataLength(bhs[..]);
    var enableDigest := Opcode(bhs[..]) != OP_LOGIN_RSP;
    var headerDigest, headerLen := MakeHeaderDigest(crc, enableDigest && d.header, bhs, ahs, ahsLen);
    var dataDigest, dataDigestLen := MakeDataDigest(crc, enableDigest && d.data && dataLen != 0, data, Align(dataLen));
    var total := BHS_LEN + ahsLen + headerLen + Align(dataLen) + dataDigestLen;
    var iov := [Span(bhs, 0, BHS_LEN), Span(ahs, 0, ahsLen), Span(headerDigest, 0, headerLen),
                Span(data, 0, Align(dataLen)), Span(dataDigest, 0, dataDigestLen)];
    WireParts(p, d, q, w);
    assert Octets(iov[0]) == q.bhs && Octets(iov[1]) == q.ahs && Octets(iov[3]) == q.data;
    var ok := WriteFive(sock, iov, wire);
    return if ok then total else -1;
  }

  /** The vector of the writer: five buffers, back to back. */
  method WriteFive(sock: Socket, iov: seq<Span>, ghost wire: seq<byte>) returns (ok: bool)
    requires |iov| == 5 && InBounds(iov)
    requires wire == Octets(iov[0]) + Body(Octets(iov[1]), Octets(iov[2]), Octets(iov[3]), Octets(iov[4]))
    modifies sock
    ensures ok <==> Delivers(old(sock.schedule), 0, |wire|)
    ensures ok ==> sock.sent == old(sock.sent) + wire
    ensures old(sock.sent) <= sock.sent <= old(sock.sent) + wire
    ensures sock.incoming == old(sock.incoming)
  {
    hide Locations, Delivers, Body, Octets;
    FiveSpans(iov[0], iov[1], iov[2], iov[3], iov[4], iov);
    assert Content(Locations(iov)) == wire;
    ok := WriteAll(sock, iov);
  }

  method MakeHeaderDigest(crc: Crc32c.Engine, on: bool, bhs: array<byte>, ahs: array<byte>, ahsLen: nat)
    returns (word: array<byte>, len: nat)
    requires crc.Valid() && ahsLen <= ahs.Length
    ensures fresh(word) && len <= word.Length == DIGEST_LEN
    ensures word[..len] == Digest(on, bhs[..] + ahs[..ahsLen])
  {
    word, len := new byte[DIGEST_LEN], 0;
    if on {
      var c := HeaderCrc(crc, bhs, ahs, ahsLen);
      MakeDigestWord(word, c);
      len := DIGEST_LEN;
      assert word[..len] == word[..];
    }
  }

  method MakeDataDigest(crc: Crc32c.Engine, on: bool, data: array<byte>, dataLen: nat)
    returns (word: array<byte>, len: nat)
    requires crc.Valid() && dataLen <= data.Length
    ensures fresh(word) && len <= word.Length == DIGEST_LEN
    ensures word[..len] == Digest(on, data[..dataLen])
  {
    word, len := new byte[DIGEST_LEN], 0;
    if on {
      var c := crc.Digest(data, dataLen);
      MakeDigestWord(word, c);
      len := DIGEST_LEN;
      assert word[..len] == word[..];
    }
  }

  /** The vector of the reader: four buffers filled from the stream, back to back. */
  method ReadFour(sock: Socket, a: array<byte>, an: nat, b: array<byte>, bn: nat,
                  c: array<byte>, cn: nat, e: array<byte>, en: nat) returns (ok: bool)
    requires a != b && a != c && a != e && b != c && b != e && c != e
    requires an <= a.Length && bn <= b.Length && cn <= c.Length && en <= e.Length
    modifies sock, a, b, c, e
    ensures ok <==> an + bn + cn + en <= |old(sock.incoming)| && Delivers(old(sock.schedule), 1, an + bn + cn + en)
    ensures ok ==> old(sock.incoming) == Body(a[..an], b[..bn], c[..cn], e[..en]) + sock.incoming
    ensures sock.sent == old(sock.sent)
  {
    var iov := [Span(a, 0, an), Span(b, 0, bn), Span(c, 0, cn), Span(e, 0, en)];
    ghost var ls := Locations(iov);
    FourSpans(iov[0], iov[1], iov[2], iov[3], iov);
    assert |ls| == |Content(ls)| == an + bn + cn + en;
    forall l | l in ls
      ensures l.buf == a || l.buf == b || l.buf == c || l.buf == e
    {
      LocationBuffers(iov, l);
    }
    ok := ReadAll(sock, iov, ls);
    FourSpans(iov[0], iov[1], iov[2], iov[3], iov);
  }

  /** MATCH_DIGEST_WORD for both segments, as far as they carry a digest. */
  method CheckDigests(crc: Crc32c.Engine, r: Digests, bhs: array<byte>, ahs: array<byte>, headerDigest: array<byte>,
                      data: array<byte>, dataDigest: array<byte>,
                      ghost h: seq<byte>, ghost m: seq<byte>, ghost e: seq<byte>, ghost b: seq<byte>)
    returns (ok: bool)
    requires crc.Valid() && headerDigest.Length == dataDigest.Length == DIGEST_LEN
    requires (r.header ==> h == headerDigest[..]) && (r.data ==> e == dataDigest[..])
    requires m == bhs[..] + ahs[..] && b == data[..]
    ensures ok <==> Matches(r.header, h, m) && Matches(r.data, e, b)
  {
    if r.header {
      var c := HeaderCrc(crc, bhs, ahs, ahs.Length);
      assert ahs[..ahs.Length] == ahs[..];
      if FromLe32(headerDigest[..]) != c {
        return false;
      }
    }
    if r.data {
      var c := crc.Digest(data, data.Length);
      assert data[..data.Length] == data[..];
      if FromLe32(dataDigest[..]) != c {
        return false;
      }
    }
    return true;
  }

  lemma ParsedLength(header: seq<byte>, t: seq<byte>, d: Digests)
    requires |header| == BHS_LEN
    ensures ParseRest(header, t, d).Ok? ==> Remaining(header, ReaderDigests(header, d)) <= |t|
  {
  }

  /** The part of the reader that follows the basic header. */
  method ReadSegments(sock: Socket, crc: Crc32c.Engine, header: seq<byte>, d: Digests, r: Digests, ghost parsed: Parsed)
    returns (rc: int, pdu: Pdu)
    requires crc.Valid() && |header| == BHS_LEN && r == ReaderDigests(header, d)
    requires parsed == ParseRest(header, sock.incoming, d)
    modifies sock
    ensures sock.sent == old(sock.sent)
    ensures rc >= 0 <==> parsed.Ok? && Delivers(old(sock.schedule), 1, Remaining(header, r))
    ensures rc >= 0 ==> parsed == Ok(pdu, sock.incoming) && rc == BHS_LEN + Remaining(header, r)
  {
    hide Matches, ParseRest, DataLength, Align, Body, Delivers;
    ghost var stream := sock.incoming;
    ParsedLength(header, stream, d);
    pdu := Pdu([], [], []);
    var ahsLen, dataLen := AhsLength(header), DataLength(header);
    var ahs, data := new byte[ahsLen], new byte[Align(dataLen)];
    var headerDigest, dataDigest := new byte[DIGEST_LEN], new byte[DIGEST_LEN];
    var headerLen, dataDigestLen := if r.header then DIGEST_LEN else 0, if r.data then DIGEST_LEN else 0;
    var ok := ReadFour(sock, ahs, ahsLen, headerDigest, headerLen, data, Align(dataLen), dataDigest, dataDigestLen);
    rc := BHS_LEN + ahsLen + headerLen + Align(dataLen) + dataDigestLen;
    if !ok {
      return -1, pdu;
    }
    ghost var h, e := headerDigest[..headerLen], dataDigest[..dataDigestLen];
    assert ahs[..ahsLen] == ahs[..] && data[..Align(dataLen)] == data[..];
    ParseCuts(stream, header, ahs[..], h, data[..], e, sock.incoming, d, r);
    pdu := Pdu(header, ahs[..], data[..]);
    var bhs := new byte[BHS_LEN](i requires 0 <= i < BHS_LEN => header[i]);
    assert bhs[..] == header;
    ok := CheckDigests(crc, r, bhs, ahs, headerDigest, data, dataDigest, h, header + ahs[..], e, data[..]);
    if !ok {
      rc := -1;
    }
  }

  /** Octets that follow the basic header of the first PDU of a stream, digests included. */
  function Following(s: seq<byte>, d: Digests): nat {
    if |s| < BHS_LEN then 0 else Remaining(s[..BHS_LEN], ReaderDigests(s[..BHS_LEN], d))
  }

  /** A PDU that is read has the segments that its length octets say. */
  lemma ParsedFields(header: seq<byte>, t: seq<byte>, d: Digests, limit: nat)
    requires |header| == BHS_LEN && DataLength(header) <= limit
    ensures ParseRest(header, t, d).Ok? ==>
      var p := ParseRest(header, t, d).pdu;
      && p.bhs == header && |p.ahs| == 4 * (header[4] as int)
      && forall n: nat | HasDataLength(header, n) :: n <= limit && IsCut(p.data, p.data, n)
  {
    hide Matches, DataLength, HasDataLength, Align;
    forall n: nat | HasDataLength(header, n)
      ensures n == DataLength(header)
    {
      DataLengthIff(header, n);
    }
  }

  /** istgt_iscsi_read_pdu: the next PDU of the stream, or an error. */
  method ReadPdu(sock: Socket, crc: Crc32c.Engine, d: Digests, limit: nat) returns (rc: int, pdu: Pdu)
    requires crc.Valid()
    modifies sock
    ensures sock.sent == old(sock.sent)
    ensures rc >= 0 <==> Parse(old(sock.incoming), d, limit).Ok?
                         && Delivers(old(sock.schedule), 1, Following(old(sock.incoming), d))
    ensures rc >= 0 ==> Parse(old(sock.incoming), d, limit) == Ok(pdu, sock.incoming)
                        && rc == BHS_LEN + Following(old(sock.incoming), d)
    ensures rc >= 0 ==> |pdu.bhs| == BHS_LEN && |pdu.ahs| == 4 * (pdu.bhs[4] as int)
    ensures rc >= 0 ==> forall n: nat | HasDataLength(pdu.bhs, n) :: n <= limit && IsCut(pdu.data, pdu.data, n)
  {
    pdu := Pdu([], [], []);
    // recv with MSG_WAITALL: the whole basic header or nothing
    if |sock.incoming| < BHS_LEN {
      return -1, pdu;
    }
    var header := sock.incoming[..BHS_LEN];
    sock.incoming := sock.incoming[BHS_LEN..];
    if DataLength(header) > limit {
      return -1, pdu;
    }
    ParsedFields(header, sock.incoming, d, limit);
    rc, pdu := ReadSegments(sock, crc, header, d, ReaderDigests(header, d), ParseRest(header, sock.incoming, d));
  }

  /**
   One PDU through two sockets: what the writer puts out under one schedule the
   reader takes in under another. It arrives exactly when the transport keeps
   moving octets on both sides, the data segment is within the limit of the
   reader and the PDU carries the digests that the reader waits for; then it is
   the announced PDU, octet for octet.
   */
  method Exchange(crc: Crc32c.Engine, bhs: array<byte>, ahs: array<byte>, data: array<byte>,
                  d: Digests, limit: nat, ws: seq<int>, rs: seq<int>, ghost p: Pdu)
    returns (written: int, read: int, got: Pdu)
    requires crc.Valid() && p == Pdu(bhs[..], ahs[..], data[..]) && Sendable(p)
    ensures written >= 0 <==> Delivers(ws, 0, |Wire(p, d)|)
    ensures read >= 0 <==>
      && written >= 0 && Delivers(rs, 1, |Wire(p, d)| - BHS_LEN)
      && DataLength(p.bhs) <= limit && CarriesDigests(p.bhs, d)
    ensures read >= 0 ==> got == Announced(p) && read == written == |Wire(p, d)|
    ensures forall n: nat | HasDataLength(p.bhs, n) :: read >= 0 ==> n <= limit && IsCut(got.data, p.data, n)
  {
    CarriesIff(p.bhs, d);
    hide Wire, Delivers, Announced, Sendable, Remaining, Parse;
    ghost var wire := Wire(p, d);
    read, got := -1, Pdu([], [], []);
    var out := new Socket([], ws);
    written := WritePdu(out, crc, bhs, ahs, data, d, p, wire);
    if written < 0 {
      return;
    }
    assert out.sent == wire;
    AcceptedAloneIff(p, d, limit);
    WireLength(p, d);
    var back := new Socket(out.sent, rs);
    read, got := ReadPdu(back, crc, d, limit);
    if read >= 0 {
      CutAtLength(p);
    }
  }

  /** The first n octets and what fills them up to a multiple of four. */
  predicate IsCut(got: seq<byte>, data: seq<byte>, n: nat) {
    got <= data && n <= |got| < n + 4 && |got| % 4 == 0
  }

  lemma CutAtLength(p: Pdu)
    requires Sendable(p)
    ensures forall n: nat | HasDataLength(p.bhs, n) :: n == DataLength(p.bhs) && IsCut(Announced(p).data, p.data, n)
  {
    hide DataLength, HasDataLength, Align;
    forall n: nat | HasDataLength(p.bhs, n)
      ensures n == DataLength(p.bhs)
    {
      DataLengthIff(p.bhs, n);
    }
  }
}
