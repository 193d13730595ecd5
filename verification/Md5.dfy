/**
 The streaming part of MD5: octets collect in a 64-octet buffer, each full buffer
 goes through the block function, and the end is padded to a block boundary with
 the length of the message in bits. The block function itself is a parameter:
 what is proved here holds for every one.
 */
module Md5 {
  import opened Bytes

  const W: nat := 0x1_0000_0000
  const W64: nat := 0x1_0000_0000_0000_0000

  datatype Chain = Chain(a: bv32, b: bv32, c: bv32, d: bv32)

  type BlockFunction = (Chain, seq<bv32>) -> Chain

  const INIT := Chain(0x67452301, 0xefcdab89, 0x98badcfe, 0x10325476)

  // ---------------------------------------------------------------- the definition (RFC 1321)

  /** The sixteen words of a block, least significant octet first. */
  function Words(block: seq<byte>): (w: seq<bv32>)
    requires |block| == 64
    ensures |w| == 16
  {
    seq(16, i requires 0 <= i < 16 => FromLe32(block[4 * i..4 * i + 4]))
  }

  /** Section 3.4: the block function over the blocks of a message, in order. */
  function Fold(f: BlockFunction, h: Chain, s: seq<byte>): Chain
    requires |s| % 64 == 0
    decreases |s|
  {
    if |s| == 0 then h else Fold(f, f(h, Words(s[..64])), s[64..])
  }

  /** Section 3.1: zeros after the first padding octet until eight octets are missing to a block boundary. */
  function Gap(n: nat): (k: nat)
    ensures (n + 1 + k) % 64 == 56 && k < 64
  {
    (119 - n % 64) % 64
  }

  /** The length of n octets in bits modulo 2^64, low word first. */
  function BitLength(n: nat): (r: (nat, nat))
    ensures r.0 < W && r.1 < W && r.0 + W * r.1 == 8 * n % W64
  {
    (8 * n % W64 % W, 8 * n % W64 / W)
  }

  function Padding(k: nat, low: nat, high: nat): (p: seq<byte>)
    requires low < W && high < W
    ensures |p| == k + 9 && p[0] == 0x80
    ensures p[1..k + 1] == Zeros(k) && p[k + 1..k + 5] == Le32(low as bv32) && p[k + 5..] == Le32(high as bv32)
  {
    [0x80] + Zeros(k) + Le32(low as bv32) + Le32(high as bv32)
  }

  /** Sections 3.1 and 3.2: the message, its padding and its length. */
  function Padded(m: seq<byte>): (p: seq<byte>)
    ensures |p| % 64 == 0
  {
    PaddingFits(|m|, BitLength(|m|).0, BitLength(|m|).1);
    m + Padding(Gap(|m|), BitLength(|m|).0, BitLength(|m|).1)
  }

  /** Section 3.5: the four words, least significant octet first. */
  function Output(h: Chain): (d: seq<byte>)
    ensures |d| == 16
  {
    Le32(h.a) + Le32(h.b) + Le32(h.c) + Le32(h.d)
  }

  function Digest(f: BlockFunction, m: seq<byte>): seq<byte> {
    Output(Fold(f, INIT, Padded(m)))
  }

  // ---------------------------------------------------------------- lemmas

  /** Section 3.3: the initial words, octet by octet from the least significant one. */
  lemma InitialOctets()
    ensures Output(INIT) == [0x01, 0x23, 0x45, 0x67, 0x89, 0xab, 0xcd, 0xef,
                             0xfe, 0xdc, 0xba, 0x98, 0x76, 0x54, 0x32, 0x10]
  {
    assert Le32(INIT.a) == [0x01, 0x23, 0x45, 0x67];
    assert Le32(INIT.b) == [0x89, 0xab, 0xcd, 0xef];
    assert Le32(INIT.c) == [0xfe, 0xdc, 0xba, 0x98];
    assert Le32(INIT.d) == [0x76, 0x54, 0x32, 0x10];
  }

  /** Word i of a block is made of its octets 4i to 4i + 3, least significant first. */
  lemma WordOctets(block: seq<byte>, i: nat)
    requires |block| == 64 && i < 16
    ensures Le32(Words(block)[i]) == block[4 * i..4 * i + 4]
  {
    Le32OfWord(block[4 * i..4 * i + 4]);
  }

  lemma {:induction false} FoldConcat(f: BlockFunction, h: Chain, a: seq<byte>, b: seq<byte>)
    requires |a| % 64 == 0 && |b| % 64 == 0
    ensures Fold(f, h, a + b) == Fold(f, Fold(f, h, a), b)
    decreases |a|
  {
    if |a| == 0 {
      assert a + b == b;
    } else {
      assert (a + b)[..64] == a[..64] && (a + b)[64..] == a[64..] + b;
      FoldConcat(f, f(h, Words(a[..64])), a[64..], b);
    }
  }

  lemma FoldBlock(f: BlockFunction, h: Chain, a: seq<byte>, block: seq<byte>)
    requires |a| % 64 == 0 && |block| == 64
    ensures Fold(f, h, a + block) == f(Fold(f, h, a), Words(block))
  {
    FoldConcat(f, h, a, block);
    assert block[..64] == block;
    assert Fold(f, f(Fold(f, h, a), Words(block)), block[64..]) == f(Fold(f, h, a), Words(block));
  }

  /** What is folded in after a message, and what is left over. */
  function Folded(f: BlockFunction, m: seq<byte>): Chain {
    Fold(f, INIT, m[..|m| - |m| % 64])
  }

  function Rest(m: seq<byte>): (r: seq<byte>)
    ensures |r| == |m| % 64
  {
    m[|m| - |m| % 64..]
  }

  /** Octets that do not fill the block only join the rest; octets that fill it leave none. */
  lemma FoldedStep(f: BlockFunction, m: seq<byte>, piece: seq<byte>)
    requires |m| % 64 + |piece| <= 64
    ensures |m| % 64 + |piece| < 64 ==> Rest(m + piece) == Rest(m) + piece && Folded(f, m + piece) == Folded(f, m)
    ensures |m| % 64 + |piece| == 64 ==>
      Rest(m + piece) == [] && Folded(f, m + piece) == f(Folded(f, m), Words(Rest(m) + piece))
  {
    hide Fold, Words;
    var r := |m| % 64;
    var whole := m[..|m| - r];
    assert m == whole + Rest(m);
    var m' := m + piece;
    if r + |piece| < 64 {
      assert |m'| % 64 == r + |piece|;
      assert m'[..|m'| - (r + |piece|)] == whole;
    } else {
      assert |m'| % 64 == 0;
      FoldBlock(f, INIT, whole, Rest(m) + piece);
      assert m'[..|m'|] == whole + (Rest(m) + piece);
    }
  }

  /** The two counter words after len more octets, as the update computes them. */
  function Counted(sz0: nat, sz1: nat, len: nat): (r: (nat, nat))
    requires sz0 < W && sz1 < W
    ensures r.0 < W && r.1 < W
  {
    var low := (sz0 + 8 * len % W64) % W;
    (low, if low < sz0 then (sz1 + 1) % W else sz1)
  }

  /** The low word is right for every length. */
  lemma LowWord(sz0: nat, sz1: nat, len: nat, n: nat)
    requires sz0 == 8 * n % W && sz1 < W
    ensures Counted(sz0, sz1, len).0 == 8 * (n + len) % W
  {
  }

  /** The place in the buffer follows from the low word alone. */
  lemma Place(sz0: nat, n: nat)
    requires sz0 == 8 * n % W
    ensures sz0 / 8 % 64 == n % 64
  {
    var p := 8 * n / W;
    assert sz0 / 8 == n - 0x2000_0000 * p;
    SamePlace(sz0 / 8, n, 0x80_0000 * p);
  }

  lemma SamePlace(a: nat, b: nat, k: nat)
    requires a + 64 * k == b
    ensures a % 64 == b % 64
  {
  }

  /**
   The two words together count bits modulo 2^64; the carry between them is right
   exactly when the octets of one update make fewer than 2^32 bits.
   */
  lemma CarryRightIff(sz0: nat, sz1: nat, len: nat)
    requires sz0 < W && sz1 < W
    ensures Counted(sz0, sz1, len).0 + W * Counted(sz0, sz1, len).1 == (sz0 + W * sz1 + 8 * len) % W64
            <==> 8 * len % W64 < W
  {
    var b := 8 * len % W64;
    var low, carry := (sz0 + b) % W, if (sz0 + b) % W < sz0 then 1 else 0;
    CountedIs(sz0, sz1, len, low, carry);
    SumLater(sz0 + W * sz1, 8 * len);
    SumSplit(sz0, b);
    Times(sz1, b / W + carry);
    LostHigh(low, sz1 + carry, b / W);
    hide *;
  }

  lemma CountedIs(sz0: nat, sz1: nat, len: nat, low: nat, carry: nat)
    requires sz0 < W && sz1 < W && low == (sz0 + 8 * len % W64) % W && carry == if low < sz0 then 1 else 0
    ensures Counted(sz0, sz1, len) == (low, (sz1 + carry) % W)
  {
  }

  lemma Times(m: nat, n: nat)
    ensures W * (m + n) == W * m + W * n
  {
  }

  lemma LostHigh(low: nat, n: nat, q: nat)
    requires low < W && q < W
    ensures low + W * (n % W) == (low + W * (n + q)) % W64 <==> q == 0
  {
    WordsOf(low, n + q);
    WordMoved(n, q);
  }

  /** Adding on the low word alone shows one carry; the rest of the sum is lost. */
  lemma SumSplit(a: nat, b: nat)
    requires a < W && b < W64
    ensures a + b == (a + b) % W + W * (b / W + if (a + b) % W < a then 1 else 0)
    ensures b / W < W && (b / W == 0 <==> b < W)
  {
    var q := b / W;
    assert b == W * q + b % W;
    if a + b % W < W {
      Remainder(a + b, q, a + b % W);
    } else {
      Remainder(a + b, q + 1, a + b % W - W);
    }
  }

  lemma Remainder(x: nat, q: nat, r: nat)
    requires x == W * q + r && r < W
    ensures x % W == r
  {
  }

  lemma SumLater(a: nat, b: nat)
    ensures (a + b % W64) % W64 == (a + b) % W64
  {
  }

  lemma WordsOf(low: nat, n: nat)
    requires low < W
    ensures (low + W * n) % W64 == low + W * (n % W)
  {
    assert n == W * (n / W) + n % W;
    assert low + W * n == W64 * (n / W) + (low + W * (n % W));
  }

  lemma WordMoved(n: nat, q: nat)
    requires q < W
    ensures (n + q) % W == n % W <==> q == 0
  {
  }

  lemma GapPeriod(n: nat)
    ensures Gap(n % 64) == Gap(n)
  {
  }

  /** Padding puts the end on a block boundary, within the 72 octets set aside for it. */
  lemma PaddingFits(n: nat, low: nat, high: nat)
    requires low < W && high < W
    ensures (120 - n % 64 - 1) % 64 + 1 == Gap(n) + 1
    ensures (n + |Padding(Gap(n), low, high)|) % 64 == 0
    ensures 9 <= |Padding(Gap(n), low, high)| <= 72
  {
  }

  lemma LengthAdds(n: nat, len: nat)
    ensures (8 * n % W64 + 8 * len) % W64 == 8 * (n + len) % W64
  {
  }

  /** The state at the end, with whatever the counter words hold. */
  function Closed(f: BlockFunction, m: seq<byte>, low: nat, high: nat): Chain
    requires low < W && high < W
  {
    PaddingFits(|m|, low, high);
    Fold(f, INIT, m + Padding(Gap(|m|), low, high))
  }

  lemma ClosedIsDigest(f: BlockFunction, m: seq<byte>, low: nat, high: nat)
    requires low < W && high < W && low + W * high == 8 * |m| % W64
    ensures Output(Closed(f, m, low, high)) == Digest(f, m)
  {
    SameWords(low, high, BitLength(|m|).0, BitLength(|m|).1);
  }

  lemma SameWords(a: nat, b: nat, c: nat, d: nat)
    requires a < W && b < W && c < W && d < W && a + W * b == c + W * d
    ensures a == c && b == d
  {
  }

  // ---------------------------------------------------------------- the context

  class Context {
    const transform: BlockFunction
    var sz0: nat
    var sz1: nat
    var counter: Chain
    const save: array<byte>
    ghost var message: seq<byte>

    /** How much of the buffer is in use. */
    function Offset(): nat
      reads this
    {
      sz0 / 8 % 64
    }

    /** The full blocks of the message are folded into the counter, the rest is in the buffer. */
    ghost predicate Valid()
      reads this, save
    {
      && save.Length == 64 && sz0 < W && sz1 < W && sz0 == 8 * |message| % W
      && Offset() == |message| % 64
      && Holds(message, Offset())
    }

    ghost predicate Holds(m: seq<byte>, offset: nat)
      reads this`counter, save
    {
      save.Length == 64 && offset == |m| % 64 && save[..offset] == Rest(m) && counter == Folded(transform, m)
    }

    /** The two words are the length of the message in bits modulo 2^64. */
    ghost predicate LengthRight()
      reads this
    {
      sz0 + W * sz1 == 8 * |message| % W64
    }

    /** istgt_md5init */
    constructor (transform: BlockFunction)
      ensures Valid() && LengthRight() && message == [] && this.transform == transform && fresh(save)
    {
      this.transform := transform;
      sz0, sz1 := 0, 0;
      counter := INIT;
      save := new byte[64];
      message := [];
    }

    /** One round of the update: octets go into the buffer, which is folded in when it is full. */
    method TakeIn(v: seq<byte>, p: nat, l: nat, offset: nat, ghost m: seq<byte>) returns (next: nat)
      requires p + l <= |v| && offset + l <= 64 && Holds(m, offset)
      modifies save, this`counter
      ensures next < 64 && Holds(m + v[p..p + l], next)
    {
      hide Words, Folded, Rest;
      ghost var piece := v[p..p + l];
      FoldedStep(transform, m, piece);
      forall i | 0 <= i < l {
        save[offset + i] := v[p + i];
      }
      next := offset + l;
      assert save[..next] == Rest(m) + piece;
      if next == 64 {
        assert save[..] == save[..64];
        counter := transform(counter, Words(save[..]));
        next := 0;
      }
    }

    /** The two words count the new octets. */
    method AddLength(len: nat)
      requires sz0 < W && sz1 < W && sz0 == 8 * |message| % W
      modifies this`sz0, this`sz1
      ensures (sz0, sz1) == Counted(old(sz0), old(sz1), len)
      ensures sz0 < W && sz1 < W && sz0 == 8 * (|message| + len) % W && sz0 / 8 % 64 == (|message| + len) % 64
      ensures old(LengthRight()) ==> (sz0 + W * sz1 == 8 * (|message| + len) % W64 <==> 8 * len % W64 < W)
    {
      LowWord(sz0, sz1, len, |message|);
      CarryRightIff(sz0, sz1, len);
      LengthAdds(|message|, len);
      var oldSz := sz0;
      sz0 := (sz0 + len * 8 % W64) % W;
      if sz0 < oldSz {
        sz1 := (sz1 + 1) % W;
      }
      Place(sz0, |message| + len);
    }

    /** The loop of istgt_md5update. */
    method Absorb(v: seq<byte>, start: nat) returns (offset: nat)
      requires Holds(message, start) && start < 64
      modifies save, this`counter
      ensures Holds(message + v, offset)
    {
      hide Holds;
      offset := start;
      var p: nat, len: nat := 0, |v|;
      assert message + v[..0] == message;
      while len > 0
        invariant p + len == |v| && offset < 64
        invariant Holds(message + v[..p], offset)
      {
        var l := if len < 64 - offset then len else 64 - offset;
        assert message + v[..p + l] == (message + v[..p]) + v[p..p + l];
        offset := TakeIn(v, p, l, offset, message + v[..p]);
        p := p + l;
        len := len - l;
      }
      assert v[..p] == v;
    }

    /** istgt_md5update: data of any length; the bit count survives exactly if the data has fewer than 2^32 bits. */
    method Update(v: seq<byte>)
      requires Valid()
      modifies this, save
      ensures Valid() && message == old(message) + v
      ensures (sz0, sz1) == Counted(old(sz0), old(sz1), |v|)
      ensures old(LengthRight()) ==> (LengthRight() <==> 8 * |v| % W64 < W)
    {
      hide Rest, Folded, Counted;
      var offset := sz0 / 8 % 64;
      AddLength(|v|);
      var end := Absorb(v, offset);
      message := message + v;
    }

    /** istgt_md5final */
    method Final() returns (res: seq<byte>)
      requires Valid()
      modifies this, save
      ensures res == Output(Closed(transform, old(message), old(sz0), old(sz1)))
    {
      hide Fold, Gap, Output, Le32, Padding;
      PaddingFits(|message|, sz0, sz1);
      GapPeriod(|message|);
      var tail := MakeTail(sz0, sz1);
      ghost var whole := message + tail;
      Update(tail);
      assert message == whole && whole[..|whole|] == whole;
      res := Output(counter);
    }
  }

  /** The padding and the length, built in a buffer of 72 octets. */
  method MakeTail(sz0: nat, sz1: nat) returns (tail: seq<byte>)
    requires sz0 < W && sz1 < W
    ensures tail == Padding(Gap(sz0 / 8 % 64), sz0, sz1)
  {
    hide Le32, Gap, Zeros, Padding;
    var offset := sz0 / 8 % 64;
    TailStart(offset);
    var zeros := new byte[72](_ => 0);
    var dstart: nat := (120 - offset - 1) % 64 + 1;
    zeros[0] := 0x80;
    var low, high := Le32(sz0 as bv32), Le32(sz1 as bv32);
    PutWord(zeros, dstart, low);
    assert zeros[0] == 0x80 && forall i | 1 <= i < dstart :: zeros[i] == 0;
    PutWord(zeros, dstart + 4, high);
    tail := zeros[..dstart + 8];
    PaddingIs(tail, dstart, sz0, sz1, offset);
  }

  lemma TailStart(offset: nat)
    requires offset < 64
    ensures (120 - offset - 1) % 64 == Gap(offset) <= 63
  {
  }

  method PutWord(a: array<byte>, at: nat, w: seq<byte>)
    requires |w| == 4 && at + 4 <= a.Length
    modifies a
    ensures forall i | 0 <= i < a.Length :: a[i] == if at <= i < at + 4 then w[i - at] else old(a[i])
  {
    forall i | 0 <= i < 4 {
      a[at + i] := w[i];
    }
  }

  lemma PaddingIs(s: seq<byte>, d: nat, low: nat, high: nat, n: nat)
    requires low < W && high < W && d == Gap(n) + 1 && |s| == d + 8 && s[0] == 0x80
    requires forall i | 1 <= i < d :: s[i] == 0
    requires forall i | d <= i < d + 4 :: s[i] == Le32(low as bv32)[i - d]
    requires forall i | d + 4 <= i < d + 8 :: s[i] == Le32(high as bv32)[i - d - 4]
    ensures s == Padding(Gap(n), low, high)
  {
    hide Le32, Gap, Zeros;
    assert s[1..d] == Zeros(d - 1) && s[d..d + 4] == Le32(low as bv32) && s[d + 4..] == Le32(high as bv32);
    assert s == [s[0]] + s[1..d] + s[d..d + 4] + s[d + 4..];
  }

  function Concat(chunks: seq<seq<byte>>): seq<byte> {
    if chunks == [] then [] else Concat(chunks[..|chunks| - 1]) + chunks[|chunks| - 1]
  }

  /** The digest does not depend on how the message was cut into updates of fewer than 2^29 octets. */
  method DigestOf(f: BlockFunction, chunks: seq<seq<byte>>) returns (d: seq<byte>)
    requires forall i | 0 <= i < |chunks| :: |chunks[i]| < 0x2000_0000
    ensures d == Digest(f, Concat(chunks))
  {
    var context := new Context(f);
    for i := 0 to |chunks|
      invariant context.Valid() && context.LengthRight() && fresh(context) && fresh(context.save)
      invariant context.transform == f && context.message == Concat(chunks[..i])
    {
      hide Context.Valid, Context.LengthRight;
      context.Update(chunks[i]);
      assert chunks[..i + 1][..i] == chunks[..i];
      Short(|chunks[i]|);
    }
    assert chunks[..|chunks|] == chunks;
    ghost var low, high := context.sz0, context.sz1;
    ClosedIsDigest(f, context.message, low, high);
    d := context.Final();
  }

  lemma Short(n: nat)
    requires n < 0x2000_0000
    ensures 8 * n % W64 < W
  {
  }
}
