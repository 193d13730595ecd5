/**
 CRC32C as the digest code computes it: a 256-entry table, a running register
 updated one octet at a time, zero padding to a multiple of four octets and a
 final complement. The reference is the bit-serial register of section 12.1 of
 RFC 3720, fed with the bits of the message, least significant bit of each
 octet first.
 */
module Crc32c {
  import opened Bytes
  import Reflection

  const INITIAL: bv32 := 0xffff_ffff
  const XOR: bv32 := 0xffff_ffff
  const GENERATOR: bv32 := 0x82f6_3b78
  const ALIGNMENT := 4
  const OCTET: nat := 8

  // ---------------------------------------------------------------- reference

  /** One clock of the register; the constant is the generator 0x1edc6f41 with its bits reversed. */
  function Clock(x: bv32): bv32 {
    if Odd(x) then Xor(Half(x), GENERATOR) else Half(x)
  }

  function Xor(a: bv32, b: bv32): bv32 {
    a ^ b
  }

  function Half(x: bv32): bv32 {
    x >> 1
  }

  predicate Odd(x: bv32) {
    x & 1 == 1
  }

  function Clocks(x: bv32, n: nat): bv32
    decreases n
  {
    if n == 0 then x else Clocks(Clock(x), n - 1)
  }

  function BitWord(b: bool): bv32 {
    if b then 1 else 0
  }

  /** The register after shifting in a bit string. */
  function Feed(crc: bv32, bits: seq<bool>): bv32
    decreases |bits|
  {
    if bits == [] then crc else Feed(Clock(Xor(crc, BitWord(bits[0]))), bits[1..])
  }

  /** The n low bits of v, least significant first. */
  function LowBits(v: bv32, n: nat): (bits: seq<bool>)
    ensures |bits| == n
    decreases n
  {
    if n == 0 then [] else [Odd(v)] + LowBits(Half(v), n - 1)
  }

  function OctetBits(b: byte): (bits: seq<bool>)
    ensures |bits| == 8
  {
    LowBits(b as bv32, OCTET)
  }

  function MessageBits(m: seq<byte>): (bits: seq<bool>)
    ensures |bits| == 8 * |m|
  {
    if m == [] then [] else OctetBits(m[0]) + MessageBits(m[1..])
  }

  /** The register after a run of octets. */
  function Update(crc: bv32, m: seq<byte>): bv32 {
    Feed(crc, MessageBits(m))
  }

  function PadLength(n: nat): (k: nat)
    ensures k < ALIGNMENT && (n + k) % ALIGNMENT == 0
  {
    if n % ALIGNMENT == 0 then 0 else ALIGNMENT - n % ALIGNMENT
  }

  function Padded(m: seq<byte>): (p: seq<byte>)
    ensures |p| % ALIGNMENT == 0 && m <= p
  {
    m + Zeros(PadLength(|m|))
  }

  /** The digest of a message: zero padding, all-ones start, final complement. */
  function Checksum(m: seq<byte>): bv32 {
    Xor(Update(INITIAL, Padded(m)), XOR)
  }

  // ---------------------------------------------------------------- the register is linear and injective

  lemma HalfXor(a: bv32, b: bv32)
    ensures Half(Xor(a, b)) == Xor(Half(a), Half(b))
  {
  }

  lemma OddXor(a: bv32, b: bv32)
    ensures Odd(Xor(a, b)) <==> Odd(a) != Odd(b)
  {
  }

  /** A constant folded into one operand, the other or both. */
  lemma XorFolds(a: bv32, b: bv32, g: bv32)
    ensures Xor(Xor(a, g), b) == Xor(Xor(a, b), g)
    ensures Xor(a, Xor(b, g)) == Xor(Xor(a, b), g)
    ensures Xor(Xor(a, g), Xor(b, g)) == Xor(a, b)
  {
  }

  lemma ClockIs(x: bv32)
    ensures Clock(x) == if Odd(x) then Xor(Half(x), GENERATOR) else Half(x)
  {
    hide Odd, Half, Xor;
  }

  lemma ClockLinear(a: bv32, b: bv32)
    ensures Clock(Xor(a, b)) == Xor(Clock(a), Clock(b))
  {
    hide *;
    HalfXor(a, b);
    OddXor(a, b);
    XorFolds(Half(a), Half(b), GENERATOR);
    ClockIs(a);
    ClockIs(b);
    ClockIs(Xor(a, b));
  }

  lemma XorUndo(a: bv32, b: bv32)
    ensures Xor(Xor(a, b), b) == a
  {
  }

  lemma XorZero(a: bv32)
    ensures Xor(0, a) == a && Xor(a, a) == 0
  {
  }

  lemma XorCancel(a: bv32, b: bv32)
    ensures Xor(a, b) == 0 <==> a == b
  {
    hide Xor;
    XorUndo(a, b);
    XorZero(b);
  }

  lemma HighBitClear(x: bv32)
    ensures Half(x) != GENERATOR
    ensures Half(x) == 0 && !Odd(x) ==> x == 0
  {
  }

  lemma ClockKernel(x: bv32)
    requires Clock(x) == 0
    ensures x == 0
  {
    hide *;
    ClockIs(x);
    HighBitClear(x);
    XorCancel(Half(x), GENERATOR);
  }

  lemma ClockInjective(a: bv32, b: bv32)
    requires Clock(a) == Clock(b)
    ensures a == b
  {
    hide *;
    ClockLinear(a, b);
    XorCancel(Clock(a), Clock(b));
    ClockKernel(Xor(a, b));
    XorCancel(a, b);
  }

  lemma {:induction false} ClocksLinear(a: bv32, b: bv32, n: nat)
    ensures Clocks(Xor(a, b), n) == Xor(Clocks(a, n), Clocks(b, n))
    decreases n
  {
    if n != 0 {
      ClockLinear(a, b);
      ClocksLinear(Clock(a), Clock(b), n - 1);
    }
  }

  lemma {:induction false} ClocksInjective(a: bv32, b: bv32, n: nat)
    requires Clocks(a, n) == Clocks(b, n)
    ensures a == b
    decreases n
  {
    if n != 0 {
      ClocksInjective(Clock(a), Clock(b), n - 1);
      ClockInjective(a, b);
    }
  }

  /** Whatever follows, two different registers stay different. */
  lemma {:induction false} FeedInjective(a: bv32, b: bv32, bits: seq<bool>)
    requires Feed(a, bits) == Feed(b, bits)
    ensures a == b
    decreases |bits|
  {
    if bits != [] {
      var w := BitWord(bits[0]);
      FeedInjective(Clock(Xor(a, w)), Clock(Xor(b, w)), bits[1..]);
      ClockInjective(Xor(a, w), Xor(b, w));
      XorUndo(a, w);
      XorUndo(b, w);
    }
  }

  lemma {:induction false} FeedConcat(crc: bv32, a: seq<bool>, b: seq<bool>)
    ensures Feed(crc, a + b) == Feed(Feed(crc, a), b)
    decreases |a|
  {
    if a == [] {
      assert a + b == b;
    } else {
      assert (a + b)[1..] == a[1..] + b;
      FeedConcat(Clock(Xor(crc, BitWord(a[0]))), a[1..], b);
    }
  }

  // ---------------------------------------------------------------- 32 bits at a time

  /** A bit string of at most 32 bits as a word, first bit least significant. */
  function Window(bits: seq<bool>): bv32
    decreases |bits|
  {
    if bits == [] then 0 else Push(BitWord(bits[0]), Window(bits[1..]))
  }

  function Push(low: bv32, high: bv32): bv32 {
    Xor(low, Double(high))
  }

  function Double(x: bv32): bv32 {
    x << 1
  }

  function Pop(x: bv32): (bv32, bv32) {
    (x & 1, x >> 1)
  }

  function Mask(n: nat): bv32 {
    if n == 0 then 0 else (Mask(n - 1) << 1) | 1
  }

  predicate Within(x: bv32, m: bv32) {
    x & m == x
  }

  lemma PushWithin(low: bv32, high: bv32, m: bv32)
    requires low <= 1 && Within(high, m)
    ensures Within(Push(low, high), (m << 1) | 1)
  {
  }

  lemma WithinShifted(a: bv32, b: bv32)
    requires Within(a, b)
    ensures Within((a << 1) | 1, (b << 1) | 1)
  {
  }

  lemma {:induction false} MaskGrows(n: nat)
    ensures Within(Mask(n), Mask(n + 1))
  {
    if n != 0 {
      MaskGrows(n - 1);
      WithinShifted(Mask(n - 1), Mask(n));
    }
  }

  lemma WithinTransitive(a: bv32, b: bv32, c: bv32)
    requires Within(a, b) && Within(b, c)
    ensures Within(a, c)
  {
  }

  lemma {:induction false} MaskBelow31(n: nat)
    requires n <= 31
    ensures Within(Mask(n), 0x7fff_ffff)
    decreases 31 - n
  {
    if n == 31 {
      assert Mask(4) == 0xf;
      assert Mask(8) == 0xff;
      assert Mask(12) == 0xfff;
      assert Mask(16) == 0xffff;
      assert Mask(20) == 0xf_ffff;
      assert Mask(24) == 0xff_ffff;
      assert Mask(28) == 0xfff_ffff;
    } else {
      MaskBelow31(n + 1);
      MaskGrows(n);
      WithinTransitive(Mask(n), Mask(n + 1), 0x7fff_ffff);
    }
  }

  lemma {:induction false} WindowWithin(bits: seq<bool>)
    ensures Within(Window(bits), Mask(|bits|))
    decreases |bits|
  {
    hide Within, Push, BitWord;
    WithinZero();
    if bits != [] {
      WindowWithin(bits[1..]);
      BitWordSmall(bits[0]);
      PushWithin(BitWord(bits[0]), Window(bits[1..]), Mask(|bits| - 1));
    }
  }

  lemma WithinZero()
    ensures Within(0, 0)
  {
  }

  lemma BitWordSmall(b: bool)
    ensures BitWord(b) <= 1
  {
  }

  lemma ShortWindow(bits: seq<bool>)
    requires |bits| <= 31
    ensures Within(Window(bits), 0x7fff_ffff)
  {
    WindowWithin(bits);
    MaskBelow31(|bits|);
    WithinTransitive(Window(bits), Mask(|bits|), 0x7fff_ffff);
  }

  lemma PushPop(low: bv32, high: bv32)
    requires low <= 1 && Within(high, 0x7fff_ffff)
    ensures Pop(Push(low, high)) == (low, high)
  {
  }

  lemma HalfDoubled(high: bv32)
    requires Within(high, 0x7fff_ffff)
    ensures Half(Double(high)) == high && !Odd(Double(high))
  {
  }

  lemma ClockDoubled(high: bv32)
    requires Within(high, 0x7fff_ffff)
    ensures Clock(Double(high)) == high
  {
    HalfDoubled(high);
    ClockIs(Double(high));
  }

  lemma XorAssociative(a: bv32, b: bv32, c: bv32)
    ensures Xor(Xor(a, b), c) == Xor(a, Xor(b, c))
  {
  }

  /** Feeding up to 32 bits is one exclusive-or followed by that many clocks. */
  lemma {:induction false} FeedWindow(crc: bv32, bits: seq<bool>)
    requires |bits| <= 32
    ensures Feed(crc, bits) == Clocks(Xor(crc, Window(bits)), |bits|)
    decreases |bits|
  {
    if bits == [] {
      XorUndo(crc, 0);
    } else {
      var low, high := BitWord(bits[0]), Window(bits[1..]);
      ShortWindow(bits[1..]);
      ClockDoubled(high);
      FeedWindow(Clock(Xor(crc, low)), bits[1..]);
      ClockLinear(Xor(crc, low), Double(high));
      XorAssociative(crc, low, Double(high));
    }
  }

  lemma {:induction false} WindowInjective(a: seq<bool>, b: seq<bool>)
    requires |a| == |b| <= 32 && Window(a) == Window(b)
    ensures a == b
    decreases |a|
  {
    if a != [] {
      ShortWindow(a[1..]);
      ShortWindow(b[1..]);
      PushPop(BitWord(a[0]), Window(a[1..]));
      PushPop(BitWord(b[0]), Window(b[1..]));
      WindowInjective(a[1..], b[1..]);
      assert a == [a[0]] + a[1..] && b == [b[0]] + b[1..];
    }
  }

  // ---------------------------------------------------------------- error detection

  lemma FeedThree(crc: bv32, a: seq<bool>, b: seq<bool>, c: seq<bool>)
    ensures Feed(crc, a + b + c) == Feed(Feed(Feed(crc, a), b), c)
  {
    FeedConcat(crc, a + b, c);
    FeedConcat(crc, a, b);
  }

  lemma ShortFeedInjective(crc: bv32, a: seq<bool>, b: seq<bool>)
    requires |a| == |b| <= 32 && Feed(crc, a) == Feed(crc, b)
    ensures a == b
  {
    FeedWindow(crc, a);
    FeedWindow(crc, b);
    ClocksInjective(Xor(crc, Window(a)), Xor(crc, Window(b)), |a|);
    XorSame(crc, Window(a), Window(b));
    WindowInjective(a, b);
  }

  /** Any error confined to 32 consecutive bits changes the register. */
  lemma BurstChangesRegister(crc: bv32, a: seq<bool>, b: seq<bool>, i: nat)
    requires |a| == |b| && a != b && i <= |a|
    requires forall k | 0 <= k < |a| && !(i <= k < i + 32) :: a[k] == b[k]
    ensures Feed(crc, a) != Feed(crc, b)
  {
    hide *;
    var j := if i + 32 < |a| then i + 32 else |a|;
    var pre, post := a[..i], a[j..];
    SameAround(a, b, i, j);
    FeedThree(crc, pre, a[i..j], post);
    FeedThree(crc, pre, b[i..j], post);
    if Feed(crc, a) == Feed(crc, b) {
      var r := Feed(crc, pre);
      FeedInjective(Feed(r, a[i..j]), Feed(r, b[i..j]), post);
      ShortFeedInjective(r, a[i..j], b[i..j]);
    }
  }

  lemma SameAround<T>(a: seq<T>, b: seq<T>, i: nat, j: nat)
    requires |a| == |b| && i <= j <= |a| && forall k | 0 <= k < |a| && !(i <= k < j) :: a[k] == b[k]
    ensures a[..i] == b[..i] && a[j..] == b[j..]
    ensures a == a[..i] + a[i..j] + a[j..] && b == a[..i] + b[i..j] + a[j..]
  {
  }

  lemma XorSame(r: bv32, a: bv32, b: bv32)
    requires Xor(r, a) == Xor(r, b)
    ensures a == b
  {
  }

  lemma WithinHalf(v: bv32, m: bv32)
    requires Within(v, (m << 1) | 1)
    ensures Within(Half(v), m)
  {
  }

  lemma PushHalf(v: bv32)
    ensures Push(BitWord(Odd(v)), Half(v)) == v
  {
    assert Double(Half(v)) == v & 0xffff_fffe;
    assert BitWord(Odd(v)) == v & 1;
  }

  lemma WithinNothing(v: bv32)
    ensures Within(v, 0) ==> v == 0
  {
  }

  lemma {:induction false} LowBitsWindow(v: bv32, n: nat)
    requires Within(v, Mask(n))
    ensures Window(LowBits(v, n)) == v
    decreases n
  {
    hide Within, Push, BitWord, Odd, Half;
    WithinNothing(v);
    if n != 0 {
      WithinHalf(v, Mask(n - 1));
      PushHalf(v);
      LowBitsWindow(Half(v), n - 1);
      assert LowBits(v, n)[1..] == LowBits(Half(v), n - 1);
    }
  }

  lemma OctetWindow(b: byte)
    ensures Window(OctetBits(b)) == b as bv32
  {
    assert Mask(4) == 0xf;
    assert Mask(8) == 0xff;
    OctetWithin(b);
    LowBitsWindow(b as bv32, 8);
  }

  lemma OctetWithin(b: byte)
    ensures Within(b as bv32, 0xff)
  {
  }

  lemma OctetBitsInjective(a: byte, b: byte)
    requires OctetBits(a) == OctetBits(b)
    ensures a == b
  {
    OctetWindow(a);
    OctetWindow(b);
  }

  lemma {:induction false} MessageBitsConcat(a: seq<byte>, b: seq<byte>)
    ensures MessageBits(a + b) == MessageBits(a) + MessageBits(b)
    decreases |a|
  {
    if a == [] {
      assert a + b == b;
    } else {
      assert (a + b)[1..] == a[1..] + b;
      MessageBitsConcat(a[1..], b);
    }
  }

  lemma MessageBitsCons(b: byte, m: seq<byte>)
    ensures MessageBits([b] + m) == OctetBits(b) + MessageBits(m)
  {
    assert ([b] + m)[1..] == m;
  }

  /** Octet k of a message is its bits 8k to 8k + 7. */
  lemma MessageBitsSplit(pre: seq<byte>, b: byte, post: seq<byte>)
    ensures MessageBits(pre + ([b] + post))[8 * |pre|..8 * |pre| + 8] == OctetBits(b)
  {
    hide MessageBits, OctetBits;
    MessageBitsConcat(pre, [b] + post);
    MessageBitsCons(b, post);
    MiddleOf(MessageBits(pre), OctetBits(b), MessageBits(post));
  }

  lemma SplitAt(m: seq<byte>, k: nat)
    requires k < |m|
    ensures m == m[..k] + ([m[k]] + m[k + 1..])
  {
  }

  lemma MessageBitsAt(m: seq<byte>, k: nat)
    requires k < |m|
    ensures MessageBits(m)[8 * k..8 * k + 8] == OctetBits(m[k])
  {
    hide MessageBits, OctetBits;
    SplitAt(m, k);
    MessageBitsSplit(m[..k], m[k], m[k + 1..]);
  }

  lemma MiddleOf(a: seq<bool>, b: seq<bool>, c: seq<bool>)
    ensures (a + (b + c))[|a|..|a| + |b|] == b
  {
  }

  lemma MessageBitsDiffer(a: seq<byte>, b: seq<byte>)
    requires |a| == |b| && a != b
    ensures MessageBits(a) != MessageBits(b)
  {
    var k :| 0 <= k < |a| && a[k] != b[k];
    MessageBitsAt(a, k);
    MessageBitsAt(b, k);
    if MessageBits(a) == MessageBits(b) {
      OctetBitsInjective(a[k], b[k]);
    }
  }

  /** Two messages of one length that differ only inside 32 consecutive bits have different digests. */
  lemma BitBurstDetected(a: seq<byte>, b: seq<byte>, i: nat)
    requires |a| == |b| && a != b && i <= 8 * |a|
    requires forall k | 0 <= k < 8 * |a| && !(i <= k < i + 32) :: MessageBits(a)[k] == MessageBits(b)[k]
    ensures Checksum(a) != Checksum(b)
  {
    hide MessageBits, Xor;
    var z := Zeros(PadLength(|a|));
    MessageBitsConcat(a, z);
    MessageBitsConcat(b, z);
    MessageBitsDiffer(a, b);
    assert MessageBits(a) == MessageBits(Padded(a))[..8 * |a|];
    assert MessageBits(b) == MessageBits(Padded(b))[..8 * |a|];
    BurstChangesRegister(INITIAL, MessageBits(Padded(a)), MessageBits(Padded(b)), i);
    XorUndo(Update(INITIAL, Padded(a)), XOR);
    XorUndo(Update(INITIAL, Padded(b)), XOR);
  }

  lemma SameOctetSameBit(a: seq<byte>, b: seq<byte>, n: nat, k: nat)
    requires |a| == |b| && k < |a| && a[k] == b[k] && 8 * k <= n < 8 * k + 8
    ensures MessageBits(a)[n] == MessageBits(b)[n]
  {
    MessageBitsAt(a, k);
    MessageBitsAt(b, k);
    SameInSlice(MessageBits(a), MessageBits(b), 8 * k, 8 * k + 8, n);
  }

  lemma SameInSlice(a: seq<bool>, b: seq<bool>, lo: nat, hi: nat, n: nat)
    requires lo <= n < hi <= |a| && hi <= |b| && a[lo..hi] == b[lo..hi]
    ensures a[n] == b[n]
  {
    assert a[n] == a[lo..hi][n - lo] && b[n] == b[lo..hi][n - lo];
  }

  /** The same for a window of four consecutive octets. */
  lemma OctetBurstDetected(a: seq<byte>, b: seq<byte>, i: nat)
    requires |a| == |b| && a != b && i <= |a|
    requires forall k | 0 <= k < |a| && !(i <= k < i + 4) :: a[k] == b[k]
    ensures Checksum(a) != Checksum(b)
  {
    forall k: nat | k < 8 * |a| && !(8 * i <= k < 8 * i + 32)
      ensures MessageBits(a)[k] == MessageBits(b)[k]
    {
      SameOctetSameBit(a, b, k, k / 8);
    }
    BitBurstDetected(a, b, 8 * i);
  }

  // ---------------------------------------------------------------- streaming and padding

  lemma UpdateConcat(crc: bv32, a: seq<byte>, b: seq<byte>)
    ensures Update(crc, a + b) == Update(Update(crc, a), b)
  {
    MessageBitsConcat(a, b);
    FeedConcat(crc, MessageBits(a), MessageBits(b));
  }

  // ---------------------------------------------------------------- the table

  function Down8(x: bv32): bv32 {
    x >> 8
  }

  function Low8(x: bv32): bv32 {
    x & 0xff
  }

  lemma ClockEven(x: bv32, m: bv32)
    requires x & ((m << 1) | 1) == 0
    ensures Clock(x) == Half(x) && Half(x) & m == 0
  {
    EvenHalf(x, m);
    ClockIs(x);
  }

  lemma EvenHalf(x: bv32, m: bv32)
    requires x & ((m << 1) | 1) == 0
    ensures !Odd(x) && Half(x) & m == 0
  {
    assert x & 1 == 0;
  }

  lemma EightHalves(x: bv32)
    ensures Half(Half(Half(Half(Half(Half(Half(Half(x)))))))) == Down8(x)
  {
  }

  lemma HighOctets(x: bv32)
    requires x & 0xff == 0
    ensures Clocks(x, 8) == Down8(x)
  {
    var x1 := Half(x);
    var x2 := Half(x1);
    var x3 := Half(x2);
    var x4 := Half(x3);
    var x5 := Half(x4);
    var x6 := Half(x5);
    var x7 := Half(x6);
    ClockEven(x, 0x7f);
    ClockEven(x1, 0x3f);
    ClockEven(x2, 0x1f);
    ClockEven(x3, 0xf);
    ClockEven(x4, 7);
    ClockEven(x5, 3);
    ClockEven(x6, 1);
    ClockEven(x7, 0);
    assert Clocks(x4, 4) == Half(x7);
    assert Clocks(x, 8) == Clocks(x4, 4);
    EightHalves(x);
  }

  lemma SplitOctet(x: bv32)
    ensures Xor(Low8(x), x & 0xffff_ff00) == x
    ensures (x & 0xffff_ff00) & 0xff == 0
    ensures Down8(x & 0xffff_ff00) == Down8(x)
  {
  }

  lemma ClocksOfSplit(x: bv32, low: bv32, high: bv32)
    requires Xor(low, high) == x && high & 0xff == 0
    ensures Clocks(x, 8) == Xor(Clocks(low, 8), Down8(high))
  {
    ClocksLinear(low, high, 8);
    HighOctets(high);
  }

  /** Eight clocks act on the low octet alone and move the other three down. */
  lemma OctetClocks(x: bv32)
    ensures Clocks(x, 8) == Xor(Clocks(Low8(x), 8), Down8(x))
  {
    SplitOctet(x);
    ClocksOfSplit(x, Low8(x), x & 0xffff_ff00);
  }

  predicate IsTable(t: seq<bv32>) {
    |t| == 256 && forall i | 0 <= i < 256 :: t[i] == Clocks((i as bv8) as bv32, 8)
  }

  function TableIndex(crc: bv32, b: byte): (i: nat)
    ensures i < 256
  {
    (Low8(Xor(crc, b as bv32)) as bv8) as int
  }

  lemma IndexWord(x: bv32)
    ensures ((((x & 0xff) as bv8) as int) as bv8) as bv32 == x & 0xff
  {
  }

  lemma OctetBelow(crc: bv32, b: byte)
    ensures Down8(Xor(crc, b as bv32)) == Down8(crc)
  {
  }

  lemma FeedOctet(crc: bv32, b: byte)
    ensures Feed(crc, OctetBits(b)) == Xor(Clocks(Low8(Xor(crc, b as bv32)), 8), Down8(crc))
  {
    OctetWindow(b);
    FeedWindow(crc, OctetBits(b));
    OctetClocks(Xor(crc, b as bv32));
    OctetBelow(crc, b);
  }

  lemma XorCommutes(a: bv32, b: bv32)
    ensures Xor(a, b) == Xor(b, a)
  {
  }

  /** One table step is the eight bit steps of that octet. */
  lemma TableStep(t: seq<bv32>, crc: bv32, b: byte)
    requires IsTable(t)
    ensures Xor(Down8(crc), t[TableIndex(crc, b)]) == Feed(crc, OctetBits(b))
  {
    IndexWord(Xor(crc, b as bv32));
    FeedOctet(crc, b);
    XorCommutes(Down8(crc), t[TableIndex(crc, b)]);
  }

  // ---------------------------------------------------------------- fixed values

  lemma {:induction false} ClocksAdd(x: bv32, a: nat, b: nat)
    ensures Clocks(x, a + b) == Clocks(Clocks(x, a), b)
    decreases a
  {
    if a != 0 {
      ClocksAdd(Clock(x), a - 1, b);
    }
  }

  /** Clocks octet by octet. */
  lemma {:induction false} OctetSteps(s: seq<bv32>)
    requires s != [] && forall i | 0 <= i < |s| - 1 :: Clocks(s[i], 8) == s[i + 1]
    ensures Clocks(s[0], 8 * (|s| - 1)) == s[|s| - 1]
    decreases |s|
  {
    if |s| > 1 {
      hide Clock;
      var t := s[1..];
      assert forall i | 0 <= i < |t| - 1 :: t[i] == s[i + 1] && Clocks(t[i], 8) == t[i + 1];
      OctetSteps(t);
      ClocksAdd(s[0], 8, 8 * (|t| - 1));
    }
  }

  function Eight(x: bv32): bv32 {
    Clock(Clock(Clock(Clock(Clock(Clock(Clock(Clock(x))))))))
  }

  lemma EightClocks(x: bv32, y: bv32)
    requires Eight(x) == y
    ensures Clocks(x, 8) == y
  {
    hide Clock;
    FourClocks(x);
    FourClocks(Clock(Clock(Clock(Clock(x)))));
    ClocksAdd(x, 4, 4);
  }

  lemma FourClocks(x: bv32)
    ensures Clocks(x, 4) == Clock(Clock(Clock(Clock(x))))
  {
    hide Clock;
    var x1, x2, x3 := Clock(x), Clock(Clock(x)), Clock(Clock(Clock(x)));
    assert Clocks(x, 4) == Clocks(x1, 3) == Clocks(x2, 2) == Clocks(x3, 1) == Clocks(Clock(x3), 0);
  }

  lemma Zeros4()
    ensures Clocks(0xffff_ffff, 32) == 0xb798_b438
  {
    EightClocks(0xffff_ffff, 0xad82_acae);
    EightClocks(0xad82_acae, 0x0e9e_882d);
    EightClocks(0x0e9e_882d, 0x9f9b_5c85);
    EightClocks(0x9f9b_5c85, 0xb798_b438);
    OctetSteps([0xffff_ffff, 0xad82_acae, 0x0e9e_882d, 0x9f9b_5c85, 0xb798_b438]);
  }

  lemma Zeros8()
    ensures Clocks(0xb798_b438, 32) == 0x73d7_4d75
  {
    EightClocks(0xb798_b438, 0xba8d_89ca);
    EightClocks(0xba8d_89ca, 0xa8d5_8375);
    EightClocks(0xa8d5_8375, 0x44c1_9592);
    EightClocks(0x44c1_9592, 0x73d7_4d75);
    OctetSteps([0xb798_b438, 0xba8d_89ca, 0xa8d5_8375, 0x44c1_9592, 0x73d7_4d75]);
  }

  lemma Zeros12()
    ensures Clocks(0x73d7_4d75, 32) == 0xd49f_4aa2
  {
    EightClocks(0x73d7_4d75, 0x441a_975c);
    EightClocks(0x441a_975c, 0x1c22_0f94);
    EightClocks(0x1c22_0f94, 0x552e_4907);
    EightClocks(0x552e_4907, 0xd49f_4aa2);
    OctetSteps([0x73d7_4d75, 0x441a_975c, 0x1c22_0f94, 0x552e_4907, 0xd49f_4aa2]);
  }

  lemma Zeros16()
    ensures Clocks(0xd49f_4aa2, 32) == 0xbd8f_6515
  {
    EightClocks(0xd49f_4aa2, 0x43a4_5a1b);
    EightClocks(0x43a4_5a1b, 0x8994_c80e);
    EightClocks(0x8994_c80e, 0xacf1_2bef);
    EightClocks(0xacf1_2bef, 0xbd8f_6515);
    OctetSteps([0xd49f_4aa2, 0x43a4_5a1b, 0x8994_c80e, 0xacf1_2bef, 0xbd8f_6515]);
  }

  lemma Zeros20()
    ensures Clocks(0xbd8f_6515, 32) == 0x433a_a9c1
  {
    EightClocks(0xbd8f_6515, 0x2512_5c16);
    EightClocks(0x2512_5c16, 0x36da_32db);
    EightClocks(0x36da_32db, 0x4a6c_90a2);
    EightClocks(0x4a6c_90a2, 0x433a_a9c1);
    OctetSteps([0xbd8f_6515, 0x2512_5c16, 0x36da_32db, 0x4a6c_90a2, 0x433a_a9c1]);
  }

  lemma Zeros24()
    ensures Clocks(0x433a_a9c1, 32) == 0x7b04_1311
  {
    EightClocks(0x433a_a9c1, 0x31a5_9f6e);
    EightClocks(0x31a5_9f6e, 0xcd8f_89da);
    EightClocks(0xcd8f_89da, 0xb8fc_461a);
    EightClocks(0xb8fc_461a, 0x7b04_1311);
    OctetSteps([0x433a_a9c1, 0x31a5_9f6e, 0xcd8f_89da, 0xb8fc_461a, 0x7b04_1311]);
  }

  lemma Zeros28()
    ensures Clocks(0x7b04_1311, 32) == 0x0836_3896
  {
    EightClocks(0x7b04_1311, 0xe24e_407f);
    EightClocks(0xe24e_407f, 0x2f69_2669);
    EightClocks(0x2f69_2669, 0x195b_2188);
    EightClocks(0x195b_2188, 0x0836_3896);
    OctetSteps([0x7b04_1311, 0xe24e_407f, 0x2f69_2669, 0x195b_2188, 0x0836_3896]);
  }

  lemma Zeros32()
    ensures Clocks(0x0836_3896, 32) == 0x756e_c955
  {
    EightClocks(0x0836_3896, 0xb401_2dc7);
    EightClocks(0xb401_2dc7, 0x17f3_4302);
    EightClocks(0x17f3_4302, 0xe12c_83b4);
    EightClocks(0xe12c_83b4, 0x756e_c955);
    OctetSteps([0x0836_3896, 0xb401_2dc7, 0x17f3_4302, 0xe12c_83b4, 0x756e_c955]);
  }

  lemma {:induction false} FeedZeros(crc: bv32, n: nat)
    ensures Feed(crc, MessageBits(Zeros(n))) == Clocks(crc, 8 * n)
    decreases n
  {
    hide Clocks, Feed, OctetBits, MessageBits, Zeros, Clock;
    if n != 0 {
      OneZero(n);
      MessageBitsCons(0, Zeros(n - 1));
      ZeroOctet(crc);
      FeedConcat(crc, OctetBits(0), MessageBits(Zeros(n - 1)));
      FeedZeros(Clocks(crc, 8), n - 1);
      ClocksAdd(crc, 8, 8 * (n - 1));
    } else {
      NoOctets(crc);
    }
  }

  lemma OneZero(n: nat)
    requires n > 0
    ensures Zeros(n) == [0] + Zeros(n - 1)
  {
  }

  lemma ZeroOctet(crc: bv32)
    ensures Feed(crc, OctetBits(0)) == Clocks(crc, 8)
  {
    OctetWindow(0);
    FeedWindow(crc, OctetBits(0));
    XorZeroRight(crc);
    hide Feed, OctetBits, Clocks;
  }

  lemma NoOctets(crc: bv32)
    ensures Feed(crc, MessageBits(Zeros(0))) == crc && Clocks(crc, 0) == crc
  {
  }

  lemma XorZeroRight(a: bv32)
    ensures Xor(a, 0) == a
  {
  }

  /** The digest of 32 octets of zeros is the one of appendix B.4 of RFC 3720. */
  lemma ZeroVector()
    ensures Le32(Checksum(Zeros(32))) == [0xaa, 0x36, 0x91, 0x8a]
  {
    hide Clocks, Feed, MessageBits, OctetBits, Checksum, Padded, Le32, Xor;
    assert Padded(Zeros(32)) == Zeros(32) by {
      NoPadding(Zeros(32));
    }
    FeedZeros(INITIAL, 32);
    ZeroRegister();
    ZeroDigest();
    ChecksumIs(Zeros(32));
  }

  lemma NoPadding(m: seq<byte>)
    requires |m| % ALIGNMENT == 0
    ensures Padded(m) == m
  {
    assert m + Zeros(0) == m;
  }

  lemma ChecksumIs(m: seq<byte>)
    ensures Checksum(m) == Xor(Feed(INITIAL, MessageBits(Padded(m))), XOR)
  {
  }

  lemma ZeroRegister()
    ensures Clocks(INITIAL, 256) == 0x756e_c955
  {
    hide Clocks, Clock;
    Zeros4();
    Zeros8();
    Zeros12();
    Zeros16();
    Zeros20();
    Zeros24();
    Zeros28();
    Zeros32();
    ClocksAdd(INITIAL, 32, 224);
    ClocksAdd(0xb798_b438, 32, 192);
    ClocksAdd(0x73d7_4d75, 32, 160);
    ClocksAdd(0xd49f_4aa2, 32, 128);
    ClocksAdd(0xbd8f_6515, 32, 96);
    ClocksAdd(0x433a_a9c1, 32, 64);
    ClocksAdd(0x7b04_1311, 32, 32);
  }

  lemma ZeroDigest()
    ensures Le32(Xor(0x756e_c955, XOR)) == [0xaa, 0x36, 0x91, 0x8a]
  {
  }

  const RESIDUE: bv32 := 0xb798_b438

  /** Feeding the low octet of v into a register that differs from v by d. */
  lemma ResidueStep(crc: bv32, v: bv32, d: bv32, b: byte)
    requires crc == Xor(d, v) && b == LowByte(v)
    ensures Feed(crc, OctetBits(b)) == Xor(Clocks(d, 8), Down8(v))
  {
    hide Clocks, Clock, Feed, OctetBits, Xor, Down8, LowByte;
    LowOctet(v);
    OctetWindow(b);
    FeedWindow(crc, OctetBits(b));
    SplitOctet(v);
    XorRest(d, v);
    ClocksLinear(d, v & 0xffff_ff00, 8);
    HighOctets(v & 0xffff_ff00);
  }

  lemma XorRest(d: bv32, v: bv32)
    ensures Xor(Xor(d, v), Low8(v)) == Xor(d, v & 0xffff_ff00)
  {
    hide Xor, Low8;
    SplitOctet(v);
    XorDrop(d, Low8(v), v & 0xffff_ff00);
  }

  lemma XorDrop(d: bv32, a: bv32, b: bv32)
    ensures Xor(Xor(d, Xor(a, b)), a) == Xor(d, b)
  {
    hide Xor;
    XorCommutes(a, b);
    XorAssociative(d, b, a);
    XorUndo(Xor(d, b), a);
  }

  function LowByte(x: bv32): byte {
    (x & 0xff) as bv8
  }

  lemma LowOctet(x: bv32)
    ensures LowByte(x) as bv32 == Low8(x)
  {
  }

  lemma Le32Octets(v: bv32)
    ensures Le32(v) == [LowByte(v), LowByte(Down8(v)), LowByte(Down8(Down8(v))), LowByte(Down8(Down8(Down8(v))))]
    ensures Down8(Down8(Down8(Down8(v)))) == 0
  {
  }

  lemma FourOctets(crc: bv32, b: seq<byte>)
    requires |b| == 4
    ensures Update(crc, b)
         == Feed(Feed(Feed(Feed(crc, OctetBits(b[0])), OctetBits(b[1])), OctetBits(b[2])), OctetBits(b[3]))
  {
    hide Feed, OctetBits;
    OneOctet(crc, b[0], b[1..]);
    OneOctet(Feed(crc, OctetBits(b[0])), b[1], b[2..]);
    OneOctet(Feed(Feed(crc, OctetBits(b[0])), OctetBits(b[1])), b[2], b[3..]);
    OneOctet(Feed(Feed(Feed(crc, OctetBits(b[0])), OctetBits(b[1])), OctetBits(b[2])), b[3], []);
    assert b == [b[0]] + b[1..] && b[1..] == [b[1]] + b[2..] && b[2..] == [b[2]] + b[3..] && b[3..] == [b[3]] + [];
    NoMore(Feed(Feed(Feed(Feed(crc, OctetBits(b[0])), OctetBits(b[1])), OctetBits(b[2])), OctetBits(b[3])));
  }

  lemma OneOctet(crc: bv32, b: byte, m: seq<byte>)
    ensures Update(crc, [b] + m) == Update(Feed(crc, OctetBits(b)), m)
  {
    MessageBitsCons(b, m);
    FeedConcat(crc, OctetBits(b), MessageBits(m));
  }

  lemma NoMore(crc: bv32)
    ensures Update(crc, []) == crc
  {
  }

  /**
   A message of whole words followed by its digest, in the order in which the digest
   goes over the wire, leaves the same register whatever the message.
   */
  lemma Residue(m: seq<byte>)
    requires |m| % ALIGNMENT == 0
    ensures Update(INITIAL, m + Le32(Checksum(m))) == RESIDUE
  {
    hide Clocks, Clock, Feed, OctetBits, MessageBits, Padded, Xor, Down8, LowByte, Le32;
    NoPadding(m);
    var r, v := Update(INITIAL, m), Checksum(m);
    ChecksumIs(m);
    UpdateConcat(INITIAL, m, Le32(v));
    FourOctets(r, Le32(v));
    Le32Octets(v);
    XorUndo(r, XOR);
    XorCommutes(v, XOR);
    var v1, v2, v3 := Down8(v), Down8(Down8(v)), Down8(Down8(Down8(v)));
    var d1, d2, d3, d4 := Clocks(XOR, 8), Clocks(Clocks(XOR, 8), 8), 0x9f9b_5c85, RESIDUE;
    ResidueStep(r, v, XOR, Le32(v)[0]);
    ResidueStep(Xor(d1, v1), v1, d1, Le32(v)[1]);
    ResidueStep(Xor(d2, v2), v2, d2, Le32(v)[2]);
    ResidueClocks();
    ResidueStep(Xor(d3, v3), v3, d3, Le32(v)[3]);
    XorZeroRight(RESIDUE);
  }

  lemma ResidueClocks()
    ensures Clocks(Clocks(Clocks(XOR, 8), 8), 8) == 0x9f9b_5c85 && Clocks(0x9f9b_5c85, 8) == RESIDUE
  {
    EightClocks(XOR, 0xad82_acae);
    EightClocks(0xad82_acae, 0x0e9e_882d);
    EightClocks(0x0e9e_882d, 0x9f9b_5c85);
    EightClocks(0x9f9b_5c85, RESIDUE);
  }

  // ---------------------------------------------------------------- the code

  /** The bit-serial form: the branch of the source without ISTGT_USE_CRC32C_TABLE. */
  method UpdateBitSerial(buf: array<byte>, len: nat, crc0: bv32) returns (crc: bv32)
    requires len <= buf.Length
    ensures crc == Update(crc0, buf[..len])
  {
    var reflectPolynomial := Reflection.ReflectPolynomial();
    crc := crc0;
    for s := 0 to len
      invariant Feed(crc, MessageBits(buf[s..len])) == Update(crc0, buf[..len])
    {
      var val: bv32 := buf[s] as bv32;
      ghost var rest := MessageBits(buf[s + 1..len]);
      assert buf[s..len][1..] == buf[s + 1..len];
      for i := 0 to 8
        invariant Feed(crc, LowBits(val, 8 - i) + rest) == Update(crc0, buf[..len])
      {
        SerialStep(crc, val, 8 - i, rest);
        if Odd(Xor(crc, val)) {
          crc := Xor(Half(crc), reflectPolynomial);
        } else {
          crc := Half(crc);
        }
        val := Half(val);
      }
      assert LowBits(val, 0) + rest == rest;
    }
  }

  function SerialClock(crc: bv32, val: bv32): bv32 {
    if Odd(Xor(crc, val)) then Xor(Half(crc), GENERATOR) else Half(crc)
  }

  lemma SerialClockIs(crc: bv32, val: bv32)
    ensures SerialClock(crc, val) == if Odd(Xor(crc, val)) then Xor(Half(crc), GENERATOR) else Half(crc)
  {
    hide Odd, Half, Xor;
  }

  /** Only the low bit of the value matters to a clock. */
  lemma OnlyLowBit(crc: bv32, val: bv32)
    ensures Half(Xor(crc, BitWord(Odd(val)))) == Half(crc)
    ensures Odd(Xor(crc, BitWord(Odd(val)))) == Odd(Xor(crc, val))
  {
  }

  lemma SerialClockIsClock(crc: bv32, val: bv32)
    ensures Clock(Xor(crc, BitWord(Odd(val)))) == SerialClock(crc, val)
  {
    hide *;
    OnlyLowBit(crc, val);
    ClockIs(Xor(crc, BitWord(Odd(val))));
    SerialClockIs(crc, val);
  }

  lemma SerialStep(crc: bv32, val: bv32, n: nat, rest: seq<bool>)
    requires n > 0
    ensures Feed(SerialClock(crc, val), LowBits(Half(val), n - 1) + rest) == Feed(crc, LowBits(val, n) + rest)
  {
    hide Odd, Half, Xor, BitWord, SerialClock, Clock;
    SerialClockIsClock(crc, val);
    assert (LowBits(val, n) + rest)[1..] == LowBits(Half(val), n - 1) + rest;
  }

  /** The 256-entry table and the functions that use it. */
  class Engine {
    const table: array<bv32>

    ghost predicate Valid()
      reads this, table
    {
      IsTable(table[..])
    }

    /** istgt_init_crc32c_table */
    constructor ()
      ensures Valid() && fresh(table)
    {
      hide Clocks, Clock;
      table := new bv32[256];
      new;
      var reflectPolynomial := Reflection.ReflectPolynomial();
      for i := 0 to 256
        invariant forall k | 0 <= k < i :: table[k] == Clocks((k as bv8) as bv32, 8)
      {
        var val := Entry(i as bv8, reflectPolynomial);
        table[i] := val;
      }
    }

    /** The inner loop of the table set-up. */
    static method Entry(i: bv8, reflectPolynomial: bv32) returns (val: bv32)
      requires reflectPolynomial == Reflection.POLYNOMIAL
      ensures val == Clocks(i as bv32, 8)
    {
      val := i as bv32;
      for j := 0 to 8
        invariant Clocks(val, 8 - j) == Clocks(i as bv32, 8)
      {
        assert Clocks(val, 8 - j) == Clocks(Clock(val), 8 - j - 1);
        if Odd(val) {
          val := Xor(Half(val), reflectPolynomial);
        } else {
          val := Half(val);
        }
      }
    }

    /** istgt_update_crc32c, table form */
    method UpdateCrc(buf: array<byte>, len: nat, crc0: bv32) returns (crc: bv32)
      requires Valid() && len <= buf.Length
      ensures crc == Update(crc0, buf[..len])
    {
      crc := crc0;
      for s := 0 to len
        invariant Update(crc, buf[s..len]) == Update(crc0, buf[..len])
      {
        TableStep(table[..], crc, buf[s]);
        FeedConcat(crc, OctetBits(buf[s]), MessageBits(buf[s + 1..len]));
        assert buf[s..len][1..] == buf[s + 1..len];
        crc := Xor(Down8(crc), table[TableIndex(crc, buf[s])]);
      }
    }

    /** istgt_fixup_crc32c: zeros up to the next multiple of four. */
    method Fixup(total: nat, crc0: bv32) returns (crc: bv32)
      requires Valid()
      ensures crc == Update(crc0, Zeros(PadLength(total)))
    {
      crc := crc0;
      if total == 0 {
        return;
      }
      var rest := total % ALIGNMENT;
      if rest != 0 {
        var padLength := ALIGNMENT - rest;
        if 0 < padLength < ALIGNMENT {
          var padding := new byte[ALIGNMENT](_ => 0);
          crc := UpdateCrc(padding, padLength, crc);
          assert padding[..padLength] == Zeros(PadLength(total));
        }
      }
    }

    /** istgt_crc32c */
    method Digest(buf: array<byte>, len: nat) returns (crc: bv32)
      requires Valid() && len <= buf.Length
      ensures crc == Checksum(buf[..len])
    {
      crc := UpdateCrc(buf, len, INITIAL);
      UpdateConcat(INITIAL, buf[..len], Zeros(PadLength(len)));
      if len % ALIGNMENT != 0 {
        crc := Fixup(len, crc);
      }
      crc := Xor(crc, XOR);
    }

    /** The header digest of a PDU with an additional header: two updates, one fixup. */
    method HeaderDigest(bhs: array<byte>, ahs: array<byte>, ahsLen: nat) returns (crc: bv32)
      requires Valid() && ahsLen <= ahs.Length
      ensures crc == Checksum(bhs[..] + ahs[..ahsLen])
    {
      var updTotal := 0;
      crc := INITIAL;
      crc := UpdateCrc(bhs, bhs.Length, crc);
      assert bhs[..bhs.Length] == bhs[..];
      updTotal := updTotal + bhs.Length;
      crc := UpdateCrc(ahs, ahsLen, crc);
      updTotal := updTotal + ahsLen;
      UpdateConcat(INITIAL, bhs[..], ahs[..ahsLen]);
      UpdateConcat(INITIAL, bhs[..] + ahs[..ahsLen], Zeros(PadLength(updTotal)));
      crc := Fixup(updTotal, crc);
      crc := Xor(crc, XOR);
    }
  }
}
