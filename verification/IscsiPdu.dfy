/**
 A PDU on the wire: a 48-octet basic header, an additional header, an optional
 header digest, the data segment padded to a multiple of four, and an optional
 data digest; what a reader makes of a stream of them, and what the digests
 detect.
 */
module IscsiPdu {
  import opened Bytes
  import Crc32c

  const BHS_LEN := 48
  const DIGEST_LEN := 4
  const OP_LOGIN_RSP: bv8 := 0x23
  const DEFAULT_FIRSTBURSTLENGTH := 65536

  // ---------------------------------------------------------------- the format

  /** The octets of one PDU: the two buffers may be longer than what the header announces. */
  datatype Pdu = Pdu(bhs: seq<byte>, ahs: seq<byte>, data: seq<byte>)

  function Align(n: nat): (m: nat)
    ensures n <= m < n + 4 && m % 4 == 0
  {
    (n + 3) / 4 * 4
  }

  function AhsLength(bhs: seq<byte>): nat
    requires |bhs| == BHS_LEN
  {
    4 * (bhs[4] as int)
  }

  function DataLength(bhs: seq<byte>): nat
    requires |bhs| == BHS_LEN
  {
    65536 * (bhs[5] as int) + 256 * (bhs[6] as int) + (bhs[7] as int)
  }

  function Opcode(bhs: seq<byte>): bv8
    requires |bhs| == BHS_LEN
  {
    bhs[0] & 0x3f
  }

  ghost predicate Sendable(p: Pdu) {
    |p.bhs| == BHS_LEN && AhsLength(p.bhs) <= |p.ahs| && Align(DataLength(p.bhs)) <= |p.data|
  }

  /** What a receiver gets to see: exactly the announced octets and the padding. */
  function Announced(p: Pdu): (q: Pdu)
    requires Sendable(p)
    ensures Sendable(q)
  {
    Pdu(p.bhs, p.ahs[..AhsLength(p.bhs)], p.data[..Align(DataLength(p.bhs))])
  }

  function Digest(on: bool, m: seq<byte>): seq<byte> {
    if on then Le32(Crc32c.Checksum(m)) else []
  }

  /** Which digests are on; both ends agree on this after login. */
  datatype Digests = Digests(header: bool, data: bool)

  function WriterDigests(bhs: seq<byte>, d: Digests): Digests
    requires |bhs| == BHS_LEN
  {
    var enable := Opcode(bhs) != OP_LOGIN_RSP;
    Digests(enable && d.header, enable && d.data && DataLength(bhs) != 0)
  }

  function ReaderDigests(bhs: seq<byte>, d: Digests): Digests
    requires |bhs| == BHS_LEN
  {
    Digests(d.header, d.data && DataLength(bhs) != 0)
  }

  /** The octets of one PDU on the wire, with the digests w. */
  function Layout(p: Pdu, w: Digests): seq<byte>
    requires Sendable(p)
  {
    var q := Announced(p);
    q.bhs + Body(q.ahs, Digest(w.header, q.bhs + q.ahs), q.data, Digest(w.data, q.data))
  }

  /** Additional header, header digest, data segment, data digest. */
  function Body(a: seq<byte>, h: seq<byte>, b: seq<byte>, e: seq<byte>): (t: seq<byte>)
    ensures |t| == |a| + |h| + |b| + |e|
  {
    a + (h + (b + e))
  }

  function Wire(p: Pdu, d: Digests): seq<byte>
    requires Sendable(p)
  {
    Layout(p, WriterDigests(p.bhs, d))
  }

  datatype Parsed = Ok(pdu: Pdu, rest: seq<byte>) | Short | TooLong | HeaderDigestError | DataDigestError

  /** Octets after the basic header that a reader waits for. */
  function Remaining(bhs: seq<byte>, r: Digests): nat
    requires |bhs| == BHS_LEN
  {
    AhsLength(bhs) + (if r.header then DIGEST_LEN else 0) + Align(DataLength(bhs)) + (if r.data then DIGEST_LEN else 0)
  }

  predicate Matches(on: bool, word: seq<byte>, m: seq<byte>)
    requires on ==> |word| == DIGEST_LEN
  {
    on ==> FromLe32(word) == Crc32c.Checksum(m)
  }

  /** What the reader makes of the octets after a basic header. */
  function ParseRest(bhs: seq<byte>, t: seq<byte>, d: Digests): Parsed
    requires |bhs| == BHS_LEN
  {
    var r := ReaderDigests(bhs, d);
    if |t| < Remaining(bhs, r) then Short
    else
      var a := AhsLength(bhs);
      var h := a + if r.header then DIGEST_LEN else 0;
      var e := h + Align(DataLength(bhs));
      var f := e + if r.data then DIGEST_LEN else 0;
      if !Matches(r.header, t[a..h], bhs + t[..a]) then HeaderDigestError
      else if !Matches(r.data, t[e..f], t[h..e]) then DataDigestError
      else Ok(Pdu(bhs, t[..a], t[h..e]), t[f..])
  }

  /** The reader as a function of the octets on the stream. */
  function Parse(s: seq<byte>, d: Digests, limit: nat): Parsed {
    if |s| < BHS_LEN then Short
    else if DataLength(s[..BHS_LEN]) > limit then TooLong
    else ParseRest(s[..BHS_LEN], s[BHS_LEN..], d)
  }

  // ---------------------------------------------------------------- the fields of the basic header

  const LENGTHS := 0x100_0000

  /** Octets 5 to 7 hold a length as it is written there, most significant octet first (DSET24). */
  predicate HasDataLength(bhs: seq<byte>, n: nat)
    requires |bhs| == BHS_LEN
  {
    n < LENGTHS && bhs[5] as int == n / 65536 && bhs[6] as int == n / 256 % 256 && bhs[7] as int == n % 256
  }

  /** Octet 0 holds an opcode in its low six bits, below the I bit. */
  predicate HasOpcode(bhs: seq<byte>, opcode: bv8, immediate: bool)
    requires |bhs| == BHS_LEN
  {
    opcode < 0x40 && bhs[0] & 0x7f == opcode | if immediate then 0x40 else 0
  }

  /** The length that is read is the one that was written, and no other. */
  lemma DataLengthIff(bhs: seq<byte>, n: nat)
    requires |bhs| == BHS_LEN
    ensures DataLength(bhs) == n <==> HasDataLength(bhs, n)
  {
    var a, b, c := bhs[5] as int, bhs[6] as int, bhs[7] as int;
    if n < LENGTHS {
      ThreeDigits(a, b, c, n);
    }
  }

  lemma ThreeDigits(a: nat, b: nat, c: nat, n: nat)
    requires a < 256 && b < 256 && c < 256
    ensures n == 65536 * a + 256 * b + c <==> n / 65536 == a && n / 256 % 256 == b && n % 256 == c
  {
    assert n / 65536 == n / 256 / 256;
    assert n == 256 * (n / 256) + n % 256;
    assert n / 256 == 256 * (n / 256 / 256) + n / 256 % 256;
  }

  lemma OpcodeIs(bhs: seq<byte>, opcode: bv8, immediate: bool)
    requires |bhs| == BHS_LEN && HasOpcode(bhs, opcode, immediate)
    ensures Opcode(bhs) == opcode
  {
    assert bhs[0] & 0x3f == (bhs[0] & 0x7f) & 0x3f;
  }

  // ---------------------------------------------------------------- the format is decodable

  lemma DigestMatches(on: bool, m: seq<byte>)
    ensures Matches(on, Digest(on, m), m)
  {
    Le32RoundTrip(Crc32c.Checksum(m));
  }

  /** Cutting a body and what follows it at the seams. */
  lemma Seams(a: seq<byte>, h: seq<byte>, b: seq<byte>, e: seq<byte>, rest: seq<byte>, t: seq<byte>)
    requires t == Body(a, h, b, e) + rest
    ensures t[..|a|] == a
    ensures t[|a|..|a| + |h|] == h
    ensures t[|a| + |h|..|a| + |h| + |b|] == b
    ensures t[|a| + |h| + |b|..|a| + |h| + |b| + |e|] == e
    ensures t[|a| + |h| + |b| + |e|..] == rest
    ensures |t| == |a| + |h| + |b| + |e| + |rest|
  {
  }

  /**
   A reader that waits for the digests that were sent sees the four parts of the
   body exactly as they were laid out, whatever octets stand in them.
   */
  lemma ParseCuts(t: seq<byte>, bhs: seq<byte>, a: seq<byte>, h: seq<byte>, b: seq<byte>, e: seq<byte>,
                  rest: seq<byte>, d: Digests, r: Digests)
    requires |bhs| == BHS_LEN && |a| == AhsLength(bhs) && |b| == Align(DataLength(bhs)) && r == ReaderDigests(bhs, d)
    requires |h| == if r.header then DIGEST_LEN else 0
    requires |e| == if r.data then DIGEST_LEN else 0
    requires t == Body(a, h, b, e) + rest
    ensures ParseRest(bhs, t, d)
         == if !Matches(r.header, h, bhs + a) then HeaderDigestError
            else if !Matches(r.data, e, b) then DataDigestError
            else Ok(Pdu(bhs, a, b), rest)
  {
    hide Body, Matches, Align, DataLength, AhsLength;
    Seams(a, h, b, e, rest, t);
  }

  lemma CutHeader(bhs: seq<byte>, t: seq<byte>, s: seq<byte>)
    requires |bhs| == BHS_LEN && s == bhs + t
    ensures s[..BHS_LEN] == bhs && s[BHS_LEN..] == t
  {
  }

  lemma ParseParts(bhs: seq<byte>, a: seq<byte>, h: seq<byte>, b: seq<byte>, e: seq<byte>, rest: seq<byte>,
                   d: Digests, limit: nat, r: Digests)
    requires |bhs| == BHS_LEN && DataLength(bhs) <= limit && r == ReaderDigests(bhs, d)
    requires |a| == AhsLength(bhs) && |b| == Align(DataLength(bhs))
    requires |h| == if r.header then DIGEST_LEN else 0
    requires |e| == if r.data then DIGEST_LEN else 0
    ensures Parse(bhs + (Body(a, h, b, e) + rest), d, limit)
         == if !Matches(r.header, h, bhs + a) then HeaderDigestError
            else if !Matches(r.data, e, b) then DataDigestError
            else Ok(Pdu(bhs, a, b), rest)
  {
    var t := Body(a, h, b, e) + rest;
    CutHeader(bhs, t, bhs + t);
    ParseCuts(t, bhs, a, h, b, e, rest, d, r);
  }

  lemma Associative(a: seq<byte>, b: seq<byte>, c: seq<byte>)
    ensures (a + b) + c == a + (b + c)
  {
  }

  /** One PDU, followed by anything: the reader returns it and leaves the rest. */
  lemma RoundTrip(p: Pdu, rest: seq<byte>, d: Digests, limit: nat)
    requires Sendable(p) && Opcode(p.bhs) != OP_LOGIN_RSP && DataLength(p.bhs) <= limit
    ensures Parse(Wire(p, d) + rest, d, limit) == Ok(Announced(p), rest)
  {
    LaidOutParse(p, Announced(p), rest, d, limit, WriterDigests(p.bhs, d));
  }

  lemma LaidOutParse(p: Pdu, q: Pdu, rest: seq<byte>, d: Digests, limit: nat, w: Digests)
    requires Sendable(p) && q == Announced(p) && DataLength(p.bhs) <= limit && w == ReaderDigests(p.bhs, d)
    ensures Parse(Layout(p, w) + rest, d, limit) == Ok(q, rest)
  {
    var h, e := Digest(w.header, q.bhs + q.ahs), Digest(w.data, q.data);
    Associative(q.bhs, Body(q.ahs, h, q.data, e), rest);
    DigestMatches(w.header, q.bhs + q.ahs);
    DigestMatches(w.data, q.data);
    ParseParts(q.bhs, q.ahs, h, q.data, e, rest, d, limit, w);
  }

  function WireAll(ps: seq<Pdu>, d: Digests): seq<byte>
    requires forall p | p in ps :: Sendable(p)
  {
    if ps == [] then [] else Wire(ps[0], d) + WireAll(ps[1..], d)
  }

  function AllAnnounced(ps: seq<Pdu>): (qs: seq<Pdu>)
    requires forall p | p in ps :: Sendable(p)
  {
    if ps == [] then [] else [Announced(ps[0])] + AllAnnounced(ps[1..])
  }

  /** Reading n PDUs in a row; nothing when one of the reads fails. */
  function ParseMany(s: seq<byte>, n: nat, d: Digests, limit: nat): (seq<Pdu>, seq<byte>)
    decreases n
  {
    if n == 0 then ([], s)
    else
      var r := Parse(s, d, limit);
      if r.Ok? then
        var (ps, rest) := ParseMany(r.rest, n - 1, d, limit);
        ([r.pdu] + ps, rest)
      else ([], s)
  }

  /** A whole conversation: n PDUs written back to back are read back one by one. */
  lemma {:induction false} StreamRoundTrip(ps: seq<Pdu>, rest: seq<byte>, d: Digests, limit: nat)
    requires forall p | p in ps :: Sendable(p) && Opcode(p.bhs) != OP_LOGIN_RSP && DataLength(p.bhs) <= limit
    ensures ParseMany(WireAll(ps, d) + rest, |ps|, d, limit) == (AllAnnounced(ps), rest)
    decreases |ps|
  {
    if ps == [] {
      assert WireAll(ps, d) + rest == rest;
    } else {
      Associative(Wire(ps[0], d), WireAll(ps[1..], d), rest);
      RoundTrip(ps[0], WireAll(ps[1..], d) + rest, d, limit);
      StreamRoundTrip(ps[1..], rest, d, limit);
    }
  }

  /** Where the octets of a PDU end on the wire, and what a reader leaves when it accepts. */
  lemma WireLength(p: Pdu, d: Digests)
    requires Sendable(p)
    ensures |Wire(p, d)| == BHS_LEN + Remaining(p.bhs, WriterDigests(p.bhs, d))
    ensures Wire(p, d)[..BHS_LEN] == p.bhs
  {
  }

  lemma AcceptedLength(s: seq<byte>, d: Digests, limit: nat)
    requires Parse(s, d, limit).Ok?
    ensures |s| >= BHS_LEN && DataLength(s[..BHS_LEN]) <= limit
    ensures |s| == BHS_LEN + Remaining(s[..BHS_LEN], ReaderDigests(s[..BHS_LEN], d)) + |Parse(s, d, limit).rest|
  {
  }

  /** Digests that one end uses and the other does not make the lengths differ. */
  lemma DigestLengths(bhs: seq<byte>, w: Digests, d: Digests)
    requires |bhs| == BHS_LEN && w == WriterDigests(bhs, d)
    ensures w == ReaderDigests(bhs, d) <==> Remaining(bhs, w) == Remaining(bhs, ReaderDigests(bhs, d))
  {
  }

  /** A PDU has the digests that are on, except that a Login Response has none and no data has no data digest. */
  predicate CarriesDigests(bhs: seq<byte>, d: Digests)
    requires |bhs| == BHS_LEN
  {
    bhs[0] & 0x3f == 0x23 ==> !d.header && (d.data ==> DataLength(bhs) == 0)
  }

  lemma CarriesIff(bhs: seq<byte>, d: Digests)
    requires |bhs| == BHS_LEN
    ensures CarriesDigests(bhs, d) <==> WriterDigests(bhs, d) == ReaderDigests(bhs, d)
  {
  }

  /**
   Whatever follows on the stream: a PDU is read back and exactly the rest is
   left if and only if it is within the segment limit and was sent with the
   digests that the reader takes off the stream. A Login Response on a connection
   that has digests on was not.
   */
  lemma ReadBackIff(p: Pdu, rest: seq<byte>, d: Digests, limit: nat)
    requires Sendable(p)
    ensures Parse(Wire(p, d) + rest, d, limit) == Ok(Announced(p), rest)
       <==> DataLength(p.bhs) <= limit && CarriesDigests(p.bhs, d)
  {
    var s := Wire(p, d) + rest;
    WireLength(p, d);
    assert s[..BHS_LEN] == p.bhs;
    DigestLengths(p.bhs, WriterDigests(p.bhs, d), d);
    CarriesIff(p.bhs, d);
    if Parse(s, d, limit) == Ok(Announced(p), rest) {
      AcceptedLength(s, d, limit);
    } else if DataLength(p.bhs) <= limit && CarriesDigests(p.bhs, d) {
      LaidOutParse(p, Announced(p), rest, d, limit, WriterDigests(p.bhs, d));
    }
  }

  /**
   Sent without digests that the reader waits for, a PDU is not read back whatever
   follows it; if the reader accepts at all, it has taken octets of what follows
   for digest words.
   */
  lemma UnsentDigestsMissed(p: Pdu, rest: seq<byte>, d: Digests, limit: nat)
    requires Sendable(p) && !CarriesDigests(p.bhs, d)
    ensures Parse(Wire(p, d) + rest, d, limit) != Ok(Announced(p), rest)
    ensures Parse(Wire(p, d) + rest, d, limit).Ok? ==>
      |Parse(Wire(p, d) + rest, d, limit).rest| <= |rest| - DIGEST_LEN
  {
    var s := Wire(p, d) + rest;
    ReadBackIff(p, rest, d, limit);
    CarriesIff(p.bhs, d);
    WireLength(p, d);
    assert s[..BHS_LEN] == p.bhs;
    if Parse(s, d, limit).Ok? {
      AcceptedLength(s, d, limit);
    }
  }

  /** When nothing follows, only what is read back is accepted at all. */
  lemma AcceptedAloneIff(p: Pdu, d: Digests, limit: nat)
    requires Sendable(p)
    ensures Parse(Wire(p, d), d, limit).Ok?
       <==> DataLength(p.bhs) <= limit && CarriesDigests(p.bhs, d)
    ensures Parse(Wire(p, d), d, limit).Ok? ==> Parse(Wire(p, d), d, limit) == Ok(Announced(p), [])
  {
    assert Wire(p, d) + [] == Wire(p, d);
    ReadBackIff(p, [], d, limit);
    WireLength(p, d);
    if !CarriesDigests(p.bhs, d) {
      UnsentDigestsMissed(p, [], d, limit);
    }
  }

  // ---------------------------------------------------------------- what the digests detect

  /** Damage within four consecutive octets of the data segment is reported, not delivered. */
  lemma DamagedDataDetected(p: Pdu, q: Pdu, damaged: seq<byte>, i: nat, rest: seq<byte>, d: Digests, limit: nat)
    requires Sendable(p) && q == Announced(p) && DataLength(p.bhs) <= limit && d.data
    requires |damaged| == |q.data| && damaged != q.data && i <= |damaged|
    requires forall k | 0 <= k < |damaged| && !(i <= k < i + 4) :: damaged[k] == q.data[k]
    ensures Parse(q.bhs + (Body(q.ahs, Digest(d.header, q.bhs + q.ahs), damaged, Digest(true, q.data)) + rest),
                  d, limit)
         == DataDigestError
  {
    DigestMatches(d.header, q.bhs + q.ahs);
    DigestMatches(true, q.data);
    Crc32c.OctetBurstDetected(damaged, q.data, i);
    ParseParts(q.bhs, q.ahs, Digest(d.header, q.bhs + q.ahs), damaged, Digest(true, q.data), rest, d, limit,
               ReaderDigests(p.bhs, d));
  }

  /** The same for the two headers, as long as the length fields themselves survive. */
  lemma DamagedHeaderDetected(p: Pdu, q: Pdu, bhs: seq<byte>, ahs: seq<byte>, i: nat, rest: seq<byte>,
                              d: Digests, limit: nat)
    requires Sendable(p) && q == Announced(p) && DataLength(p.bhs) <= limit && d.header
    requires |bhs| == BHS_LEN && bhs[4..8] == p.bhs[4..8] && |ahs| == AhsLength(p.bhs)
    requires bhs + ahs != q.bhs + q.ahs && i <= |bhs + ahs|
    requires forall k | 0 <= k < |bhs + ahs| && !(i <= k < i + 4) :: (bhs + ahs)[k] == (q.bhs + q.ahs)[k]
    ensures Parse(bhs + (Body(ahs, Digest(true, q.bhs + q.ahs),
                              q.data, Digest(ReaderDigests(p.bhs, d).data, q.data)) + rest),
                  d, limit)
         == HeaderDigestError
  {
    assert forall k | 4 <= k < 8 :: bhs[k] == bhs[4..8][k - 4] && p.bhs[k] == p.bhs[4..8][k - 4];
    DigestMatches(true, q.bhs + q.ahs);
    Crc32c.OctetBurstDetected(bhs + ahs, q.bhs + q.ahs, i);
    var r := ReaderDigests(p.bhs, d);
    ParseParts(bhs, ahs, Digest(true, q.bhs + q.ahs), q.data, Digest(r.data, q.data), rest, d, limit, r);
  }
}
