/**
 What a cyclic redundancy code is: the shift register that computes it one bit at a time, and the
 polynomial remainder over GF(2) that the register is meant to hold.
 */
module CrcSpec {
  import opened Words

  // ----- the shift register -----

  /** One polynomial division step, as crc_basic carries it out for one message bit. */
  function Step(poly: Word, r: Word, bit: bool): (s: Word)
    requires |poly| == |r| > 0
    ensures |s| == |r|
  {
    CondXor(Shl(r, 1), poly, r[|r| - 1] != bit)
  }

  function Feed(poly: Word, r: Word, bits: seq<bool>): (s: Word)
    requires |poly| == |r| > 0
    ensures |s| == |r|
  {
    if bits == [] then r
    else Step(poly, Feed(poly, r, bits[..|bits| - 1]), bits[|bits| - 1])
  }

  /** The augmented-message step: the message bit enters at the bottom of the register. */
  function AugStep(poly: Word, r: Word, bit: bool): (s: Word)
    requires |poly| == |r| > 0
    ensures |s| == |r|
  {
    CondXor(Shl(r, 1)[0 := bit], poly, r[|r| - 1])
  }

  function AugFeed(poly: Word, r: Word, bits: seq<bool>): (s: Word)
    requires |poly| == |r| > 0
    ensures |s| == |r|
  {
    if bits == [] then r
    else AugStep(poly, AugFeed(poly, r, bits[..|bits| - 1]), bits[|bits| - 1])
  }

  /** The order in which the bits of one byte meet the register. */
  function ByteBits(reflectIn: bool, b: Byte): (bits: seq<bool>)
    ensures |bits| == 8
  {
    if reflectIn then b else MsbFirst(b)
  }

  function MessageBits(reflectIn: bool, bytes: seq<Byte>): (bits: seq<bool>)
    ensures |bits| == 8 * |bytes|
  {
    if bytes == [] then []
    else MessageBits(reflectIn, bytes[..|bytes| - 1]) + ByteBits(reflectIn, bytes[|bytes| - 1])
  }

  /** The register after a whole message. */
  function FeedBytes(poly: Word, r: Word, reflectIn: bool, bytes: seq<Byte>): (s: Word)
    requires |poly| == |r| > 0
    ensures |s| == |r|
  {
    Feed(poly, r, MessageBits(reflectIn, bytes))
  }

  datatype Params = Params(poly: Word, init: Word, final: Word, reflectIn: bool, reflectRem: bool) {
    predicate Valid() {
      |poly| == |init| == |final| > 0
    }

    function Width(): nat {
      |poly|
    }

    /** The checksum of a register: optional output reflection, then the final XOR. */
    function Finish(r: Word): (c: Word)
      requires Valid() && |r| == Width()
      ensures |c| == Width()
    {
      Xor(if reflectRem then Reverse(r) else r, final)
    }

    function Checksum(bytes: seq<Byte>): (c: Word)
      requires Valid()
      ensures |c| == Width()
    {
      Finish(FeedBytes(poly, init, reflectIn, bytes))
    }
  }

  /** The parameters of crc_32_type; those of the CRC-32 in section 8 of RFC 1952. */
  function Crc32(): (p: Params)
    ensures p.Valid() && p.Width() == 32
  {
    Params(FromNat(0x04C11DB7, 32), FromNat(0xFFFFFFFF, 32), FromNat(0xFFFFFFFF, 32), true, true)
  }

  // ----- feeding in pieces -----

  lemma {:induction false} FeedConcat(poly: Word, r: Word, a: seq<bool>, b: seq<bool>)
    requires |poly| == |r| > 0
    ensures Feed(poly, r, a + b) == Feed(poly, Feed(poly, r, a), b)
  {
    if b == [] {
      assert a + b == a;
    } else {
      var b' := b[..|b| - 1];
      assert (a + b)[..|a + b| - 1] == a + b';
      FeedConcat(poly, r, a, b');
    }
  }

  lemma {:induction false} AugFeedConcat(poly: Word, r: Word, a: seq<bool>, b: seq<bool>)
    requires |poly| == |r| > 0
    ensures AugFeed(poly, r, a + b) == AugFeed(poly, AugFeed(poly, r, a), b)
  {
    if b == [] {
      assert a + b == a;
    } else {
      var b' := b[..|b| - 1];
      assert (a + b)[..|a + b| - 1] == a + b';
      AugFeedConcat(poly, r, a, b');
    }
  }

  lemma {:induction false} MessageBitsConcat(reflectIn: bool, a: seq<Byte>, b: seq<Byte>)
    ensures MessageBits(reflectIn, a + b) == MessageBits(reflectIn, a) + MessageBits(reflectIn, b)
  {
    if b == [] {
      assert a + b == a;
    } else {
      var b' := b[..|b| - 1];
      assert (a + b)[..|a + b| - 1] == a + b';
      MessageBitsConcat(reflectIn, a, b');
    }
  }

  /** Interrupting a computation and resuming it from the register gives the same register. */
  lemma {:induction false} FeedBytesConcat(poly: Word, r: Word, reflectIn: bool, a: seq<Byte>, b: seq<Byte>)
    requires |poly| == |r| > 0
    ensures FeedBytes(poly, r, reflectIn, a + b)
         == FeedBytes(poly, FeedBytes(poly, r, reflectIn, a), reflectIn, b)
  {
    MessageBitsConcat(reflectIn, a, b);
    FeedConcat(poly, r, MessageBits(reflectIn, a), MessageBits(reflectIn, b));
  }

  // ----- linearity over XOR -----

  lemma {:induction false} StepLinear(poly: Word, r: Word, s: Word, b: bool, c: bool)
    requires |poly| == |r| == |s| > 0
    ensures Step(poly, Xor(r, s), b != c) == Xor(Step(poly, r, b), Step(poly, s, c))
  {
  }

  lemma {:induction false} FeedLinear(poly: Word, r: Word, s: Word, a: seq<bool>, b: seq<bool>)
    requires |poly| == |r| == |s| > 0 && |a| == |b|
    ensures Feed(poly, Xor(r, s), Xor(a, b)) == Xor(Feed(poly, r, a), Feed(poly, s, b))
  {
    if a != [] {
      var k := |a| - 1;
      assert Xor(a, b)[..k] == Xor(a[..k], b[..k]);
      FeedLinear(poly, r, s, a[..k], b[..k]);
      StepLinear(poly, Feed(poly, r, a[..k]), Feed(poly, s, b[..k]), a[k], b[k]);
    }
  }

  lemma {:induction false} AugStepLinear(poly: Word, r: Word, s: Word, b: bool, c: bool)
    requires |poly| == |r| == |s| > 0
    ensures AugStep(poly, Xor(r, s), b != c) == Xor(AugStep(poly, r, b), AugStep(poly, s, c))
  {
  }

  lemma {:induction false} AugFeedLinear(poly: Word, r: Word, s: Word, a: seq<bool>, b: seq<bool>)
    requires |poly| == |r| == |s| > 0 && |a| == |b|
    ensures AugFeed(poly, Xor(r, s), Xor(a, b)) == Xor(AugFeed(poly, r, a), AugFeed(poly, s, b))
  {
    if a != [] {
      var k := |a| - 1;
      assert Xor(a, b)[..k] == Xor(a[..k], b[..k]);
      AugFeedLinear(poly, r, s, a[..k], b[..k]);
      AugStepLinear(poly, AugFeed(poly, r, a[..k]), AugFeed(poly, s, b[..k]), a[k], b[k]);
    }
  }

  function XorBytes(a: seq<Byte>, b: seq<Byte>): (c: seq<Byte>)
    requires |a| == |b|
    ensures |c| == |a|
  {
    seq(|a|, i requires 0 <= i < |a| => Xor(a[i], b[i]))
  }

  lemma {:induction false} MessageBitsXor(reflectIn: bool, a: seq<Byte>, b: seq<Byte>)
    requires |a| == |b|
    ensures MessageBits(reflectIn, XorBytes(a, b))
         == Xor(MessageBits(reflectIn, a), MessageBits(reflectIn, b))
  {
    if a != [] {
      var k := |a| - 1;
      assert XorBytes(a, b)[..k] == XorBytes(a[..k], b[..k]);
      MessageBitsXor(reflectIn, a[..k], b[..k]);
      ReverseXor(a[k], b[k]);
    }
  }

  /** Three equal-length messages: the checksum is affine over XOR, reflection and final XOR included. */
  lemma {:induction false} ChecksumAffine(p: Params, a: seq<Byte>, b: seq<Byte>, c: seq<Byte>)
    requires p.Valid() && |a| == |b| == |c|
    ensures Xor(Xor(p.Checksum(a), p.Checksum(b)), p.Checksum(c))
         == p.Checksum(XorBytes(XorBytes(a, b), c))
  {
    var ma, mb, mc := MessageBits(p.reflectIn, a), MessageBits(p.reflectIn, b), MessageBits(p.reflectIn, c);
    MessageBitsXor(p.reflectIn, a, b);
    MessageBitsXor(p.reflectIn, XorBytes(a, b), c);
    FeedLinear(p.poly, p.init, p.init, ma, mb);
    FeedLinear(p.poly, Xor(p.init, p.init), p.init, Xor(ma, mb), mc);
    assert Xor(Xor(p.init, p.init), p.init) == p.init;
    var ra, rb, rc := Feed(p.poly, p.init, ma), Feed(p.poly, p.init, mb), Feed(p.poly, p.init, mc);
    assert Feed(p.poly, p.init, Xor(Xor(ma, mb), mc)) == Xor(Xor(ra, rb), rc);
    FinishAffine(p, ra, rb, rc);
  }

  lemma {:induction false} FinishAffine(p: Params, a: Word, b: Word, c: Word)
    requires p.Valid() && |a| == |b| == |c| == p.Width()
    ensures Xor(Xor(p.Finish(a), p.Finish(b)), p.Finish(c)) == p.Finish(Xor(Xor(a, b), c))
  {
    if p.reflectRem {
      ReverseXor(a, b);
      ReverseXor(Xor(a, b), c);
    }
  }

  // ----- several bits at once -----

  /** The register's bit that the i-th next message bit will be compared with. */
  function TopBits(r: Word, k: nat): (bits: seq<bool>)
    ensures |bits| == k
  {
    seq(k, i requires 0 <= i < k => i < |r| && r[|r| - 1 - i])
  }

  /** k steps at once: the k top bits join the message, the rest of the register only shifts. */
  lemma {:induction false} FeedSplit(poly: Word, r: Word, bits: seq<bool>)
    requires |poly| == |r| > 0
    ensures Feed(poly, r, bits)
         == Xor(Shl(r, |bits|), Feed(poly, Zeros(|r|), Xor(bits, TopBits(r, |bits|))))
  {
    var n, k := |r|, |bits|;
    if k == 0 {
      XorZero(r);
      assert Shl(r, 0) == r;
    } else {
      var mixed := Xor(bits, TopBits(r, k));
      TopBitsPrefix(r, bits);
      FeedSplit(poly, r, bits[..k - 1]);
      StepSplit(poly, r, k - 1, Feed(poly, Zeros(n), mixed[..k - 1]), bits[k - 1]);
    }
  }

  lemma {:induction false} TopBitsPrefix(r: Word, bits: seq<bool>)
    requires |bits| > 0
    ensures Xor(bits, TopBits(r, |bits|))[..|bits| - 1]
         == Xor(bits[..|bits| - 1], TopBits(r, |bits| - 1))
  {
  }

  lemma {:induction false} StepSplit(poly: Word, r: Word, k: nat, rest: Word, bit: bool)
    requires |poly| == |r| == |rest| > 0
    ensures Step(poly, Xor(Shl(r, k), rest), bit)
         == Xor(Shl(r, k + 1), Step(poly, rest, bit != TopBits(r, k + 1)[k]))
  {
    var low := Shl(r, k);
    var t := low[|r| - 1];
    assert t == TopBits(r, k + 1)[k];
    StepLinear(poly, low, rest, t, bit != t);
    assert bit == (t != (bit != t));
    ShlOnce(r, k);
  }

  /** Feeding zeros to the augmented register is feeding zeros to the plain one. */
  lemma {:induction false} AugFeedZeros(poly: Word, r: Word, k: nat)
    requires |poly| == |r| > 0
    ensures AugFeed(poly, r, Zeros(k)) == Feed(poly, r, Zeros(k))
  {
    if k > 0 {
      assert Zeros(k)[..k - 1] == Zeros(k - 1);
      AugFeedZeros(poly, r, k - 1);
      var s := Feed(poly, r, Zeros(k - 1));
      assert Shl(s, 1)[0 := false] == Shl(s, 1);
    }
  }

  /** Up to a register's width of bits enter an empty augmented register without any division. */
  lemma {:induction false} AugFeedFill(poly: Word, bits: seq<bool>)
    requires |poly| > 0 && |bits| <= |poly|
    ensures AugFeed(poly, Zeros(|poly|), bits) == Cast(Reverse(bits), |poly|)
  {
    var n, k := |poly|, |bits|;
    if k == 0 {
      assert Zeros(n) == Cast(Reverse(bits), n);
    } else {
      var front := bits[..k - 1];
      AugFeedFill(poly, front);
      var s := Cast(Reverse(front), n);
      assert !s[n - 1];
      forall i | 0 <= i < n ensures AugStep(poly, s, bits[k - 1])[i] == Cast(Reverse(bits), n)[i] {
        if 0 < i < k {
          assert s[i - 1] == Reverse(front)[i - 1] == front[k - 1 - i] == bits[k - 1 - i];
        }
      }
    }
  }

  /** k augmented steps at once: the top bits index a remainder, the message bits fill the bottom. */
  lemma {:induction false} AugFeedSplit(poly: Word, r: Word, bits: seq<bool>)
    requires |poly| == |r| >= |bits| > 0
    ensures AugFeed(poly, r, bits)
         == Xor(Or(Shl(r, |bits|), Cast(Reverse(bits), |r|)),
                Feed(poly, Zeros(|r|), TopBits(r, |bits|)))
  {
    var n, k := |r|, |bits|;
    XorZero(r);
    XorZero(bits);
    AugFeedLinear(poly, r, Zeros(n), Zeros(k), bits);
    AugFeedZeros(poly, r, k);
    AugFeedFill(poly, bits);
    FeedSplit(poly, r, Zeros(k));
    XorZero(TopBits(r, k));
    var high := Feed(poly, Zeros(n), TopBits(r, k));
    assert Xor(Xor(Shl(r, k), high), Cast(Reverse(bits), n))
        == Xor(Or(Shl(r, k), Cast(Reverse(bits), n)), high);
  }

  // ----- the augmented form computes the plain code -----

  /** Multiplication by x^n modulo the polynomial. */
  function Lift(poly: Word, r: Word): (s: Word)
    requires |poly| == |r| > 0
    ensures |s| == |r|
  {
    Feed(poly, r, Zeros(|r|))
  }

  lemma {:induction false} FeedLowBit(poly: Word, k: nat)
    requires k < |poly|
    ensures Feed(poly, OneBit(|poly|, 0), Zeros(k)) == OneBit(|poly|, k)
  {
    if k > 0 {
      assert Zeros(k)[..k - 1] == Zeros(k - 1);
      FeedLowBit(poly, k - 1);
      assert Shl(OneBit(|poly|, k - 1), 1) == OneBit(|poly|, k);
    }
  }

  lemma {:induction false} LiftLowBit(poly: Word)
    requires |poly| > 0
    ensures Lift(poly, OneBit(|poly|, 0)) == poly
    ensures Lift(poly, Zeros(|poly|)) == Zeros(|poly|)
  {
    var n := |poly|;
    assert Zeros(n)[..n - 1] == Zeros(n - 1);
    FeedLowBit(poly, n - 1);
    assert Xor(Shl(OneBit(n, n - 1), 1), poly) == poly;
    FeedLinear(poly, Zeros(n), Zeros(n), Zeros(n), Zeros(n));
    XorZero(Zeros(n));
    XorZero(Lift(poly, Zeros(n)));
  }

  lemma {:induction false} LiftAugStep(poly: Word, r: Word, bit: bool)
    requires |poly| == |r| > 0
    ensures Lift(poly, AugStep(poly, r, bit)) == Step(poly, Lift(poly, r), bit)
  {
    var n := |r|;
    var e := if bit then OneBit(n, 0) else Zeros(n);
    assert AugStep(poly, r, bit) == Xor(Step(poly, r, false), e);
    LiftXor(poly, Step(poly, r, false), e);
    LiftLowBit(poly);
    LiftStepZero(poly, r);
    StepOnOne(poly, Lift(poly, r), bit);
  }

  lemma {:induction false} LiftXor(poly: Word, r: Word, s: Word)
    requires |poly| == |r| == |s| > 0
    ensures Lift(poly, Xor(r, s)) == Xor(Lift(poly, r), Lift(poly, s))
  {
    XorZero(Zeros(|r|));
    FeedLinear(poly, r, s, Zeros(|r|), Zeros(|r|));
  }

  lemma {:induction false} StepOnOne(poly: Word, s: Word, bit: bool)
    requires |poly| == |s| > 0
    ensures Xor(Step(poly, s, false), if bit then poly else Zeros(|s|)) == Step(poly, s, bit)
  {
  }

  /** Lifting commutes with a step on a zero bit: either way n + 1 zeros are fed. */
  lemma {:induction false} LiftStepZero(poly: Word, r: Word)
    requires |poly| == |r| > 0
    ensures Lift(poly, Step(poly, r, false)) == Step(poly, Lift(poly, r), false)
  {
    var n := |r|;
    assert Zeros(n) + [false] == [false] + Zeros(n);
    FeedConcat(poly, r, [false], Zeros(n));
    FeedConcat(poly, r, Zeros(n), [false]);
    FeedOne(poly, r, false);
    FeedOne(poly, Lift(poly, r), false);
  }

  lemma {:induction false} FeedOne(poly: Word, r: Word, bit: bool)
    requires |poly| == |r| > 0
    ensures Feed(poly, r, [bit]) == Step(poly, r, bit)
  {
    assert [bit][..0] == [];
  }

  lemma {:induction false} LiftAugFeed(poly: Word, r: Word, bits: seq<bool>)
    requires |poly| == |r| > 0
    ensures Lift(poly, AugFeed(poly, r, bits)) == Feed(poly, Lift(poly, r), bits)
  {
    if bits != [] {
      var k := |bits| - 1;
      LiftAugFeed(poly, r, bits[..k]);
      LiftAugStep(poly, AugFeed(poly, r, bits[..k]), bits[k]);
    }
  }

  /** A message followed by a register's width of zero bits, run through the augmented register,
      leaves the plain register of the message; from a zero start, that is the plain CRC. */
  lemma {:induction false} AugmentedIsPlain(poly: Word, r: Word, bits: seq<bool>)
    requires |poly| == |r| > 0
    ensures AugFeed(poly, r, bits + Zeros(|r|)) == Feed(poly, Lift(poly, r), bits)
    ensures r == Zeros(|r|) ==> AugFeed(poly, r, bits + Zeros(|r|)) == Feed(poly, Zeros(|r|), bits)
  {
    AugFeedConcat(poly, r, bits, Zeros(|r|));
    AugFeedZeros(poly, AugFeed(poly, r, bits), |r|);
    LiftAugFeed(poly, r, bits);
    LiftLowBit(poly);
  }

  /** A message followed by a register's width of other bits divides out exactly when those bits are
      the message's CRC, most significant bit first. */
  lemma {:induction false} AugmentedAcceptsOnlyCrc(poly: Word, r: Word, bits: seq<bool>, tail: seq<bool>)
    requires |poly| == |r| == |tail| > 0
    ensures AugFeed(poly, r, bits + tail) == Zeros(|r|)
       <==> tail == MsbFirst(Feed(poly, Lift(poly, r), bits))
  {
    var crc := Feed(poly, Lift(poly, r), bits);
    AugFeedTail(poly, r, bits, tail);
    XorCancel(crc, Reverse(tail));
    ReverseInvolution(tail);
    ReverseInvolution(crc);
  }

  lemma {:induction false} AugFeedTail(poly: Word, r: Word, bits: seq<bool>, tail: seq<bool>)
    requires |poly| == |r| == |tail| > 0
    ensures AugFeed(poly, r, bits + tail) == Xor(Feed(poly, Lift(poly, r), bits), Reverse(tail))
  {
    var n := |r|;
    var s := AugFeed(poly, r, bits);
    AugFeedConcat(poly, r, bits, tail);
    assert Xor(s, Zeros(n)) == s && Xor(Zeros(n), tail) == tail by {
      XorZero(s);
      XorZero(tail);
    }
    AugFeedLinear(poly, s, Zeros(n), Zeros(n), tail);
    AugFeedZeros(poly, s, n);
    LiftAugFeed(poly, r, bits);
    AugFeedFill(poly, tail);
    assert Cast(Reverse(tail), n) == Reverse(tail);
  }

  function ZeroBytes(k: nat): (bytes: seq<Byte>)
    ensures |bytes| == k
  {
    seq(k, i => ZeroByte())
  }

  lemma {:induction false} MessageBitsZeros(k: nat)
    ensures MessageBits(false, ZeroBytes(k)) == Zeros(8 * k)
  {
    if k > 0 {
      assert ZeroBytes(k)[..k - 1] == ZeroBytes(k - 1);
      MessageBitsZeros(k - 1);
      assert MsbFirst(Zeros(8)) == Zeros(8);
      assert Zeros(8 * k) == Zeros(8 * (k - 1)) + Zeros(8);
    }
  }

  // ----- the remainder of a polynomial division -----
  // Polynomials over GF(2) are coefficient sequences, highest degree first.

  /** The divisor: the truncated polynomial with its leading coefficient put back. */
  function Divisor(poly: Word): (d: seq<bool>)
    ensures |d| == |poly| + 1
  {
    [true] + MsbFirst(poly)
  }

  /** The product of a quotient and the divisor, schoolbook. */
  function Product(q: seq<bool>, d: seq<bool>): (p: seq<bool>)
    requires |d| > 0
    ensures |p| == |q| + |d| - 1
  {
    if q == [] then Zeros(|d| - 1)
    else
      var k := |q| - 1;
      Xor(Product(q[..k], d) + [false], Zeros(k) + if q[k] then d else Zeros(|d|))
  }

  /** The message times x^n, with the initial remainder added to its first n coefficients. */
  function Dividend(r: Word, bits: seq<bool>): (p: seq<bool>)
    ensures |p| == |bits| + |r|
  {
    Xor(bits + Zeros(|r|), MsbFirst(r) + Zeros(|bits|))
  }

  /** `s`, of lower degree than the divisor, is what the division leaves. */
  ghost predicate IsRemainder(poly: Word, r: Word, bits: seq<bool>, s: Word)
    requires |poly| == |r| == |s| > 0
  {
    exists q: seq<bool> :: Divides(poly, r, bits, q, s)
  }

  ghost predicate Divides(poly: Word, r: Word, bits: seq<bool>, q: seq<bool>, s: Word)
    requires |poly| == |r| == |s| > 0
  {
    |q| == |bits| && Dividend(r, bits) == Xor(Product(q, Divisor(poly)), Zeros(|bits|) + MsbFirst(s))
  }

  lemma {:induction false} FeedDivides(poly: Word, r: Word, bits: seq<bool>) returns (q: seq<bool>)
    requires |poly| == |r| > 0
    ensures Divides(poly, r, bits, q, Feed(poly, r, bits))
  {
    if bits == [] {
      q := [];
      DivideNothing(poly, r);
    } else {
      var k := |bits| - 1;
      var q' := FeedDivides(poly, r, bits[..k]);
      var s' := Feed(poly, r, bits[..k]);
      assert bits == bits[..k] + [bits[k]];
      DivideOneMore(poly, r, bits[..k], q', s', bits[k]);
      q := q' + [s'[|r| - 1] != bits[k]];
    }
  }

  lemma {:induction false} DivideNothing(poly: Word, r: Word)
    requires |poly| == |r| > 0
    ensures Divides(poly, r, [], [], r)
  {
    assert Dividend(r, []) == MsbFirst(r);
    assert Xor(Zeros(|r|), Zeros(0) + MsbFirst(r)) == MsbFirst(r);
  }

  lemma {:induction false} DivideOneMore(poly: Word, r: Word, bits: seq<bool>, q: seq<bool>, s: Word, last: bool)
    requires |poly| == |r| == |s| > 0
    requires Divides(poly, r, bits, q, s)
    ensures Divides(poly, r, bits + [last], q + [s[|s| - 1] != last], Step(poly, s, last))
  {
    var n, k := |r|, |bits|;
    var t := s[n - 1] != last;
    var d, s1 := Divisor(poly), Step(poly, s, last);
    var sub := if t then d else Zeros(n + 1);
    var p := Product(q, d) + [false];
    assert (q + [t])[..k] == q;
    assert Product(q + [t], d) == Xor(p, Zeros(k) + sub);
    // shift the division so far by one place and bring the new coefficient down
    DividendOneMore(r, bits, last);
    XorConcat(Product(q, d), [false], Zeros(k) + MsbFirst(s), [false]);
    assert Zeros(k) + MsbFirst(s) + [false] == Zeros(k) + (MsbFirst(s) + [false]);
    assert Xor([false], [false]) == [false];
    XorAssociative(p, Zeros(k) + (MsbFirst(s) + [false]), Zeros(k) + ([last] + Zeros(n)));
    // what is left of it is one step of the register
    StepIsDivision(poly, s, last);
    XorPadded(k, MsbFirst(s) + [false], [last] + Zeros(n));
    XorPadded(k, sub, [false] + MsbFirst(s1));
    XorAssociative(p, Zeros(k) + sub, Zeros(k) + ([false] + MsbFirst(s1)));
    assert Zeros(k) + ([false] + MsbFirst(s1)) == Zeros(k + 1) + MsbFirst(s1);
  }

  lemma {:induction false} XorPadded(k: nat, a: Word, b: Word)
    requires |a| == |b|
    ensures Xor(Zeros(k) + a, Zeros(k) + b) == Zeros(k) + Xor(a, b)
  {
    XorConcat(Zeros(k), a, Zeros(k), b);
    XorZero(Zeros(k));
  }

  lemma {:induction false} DividendOneMore(r: Word, bits: seq<bool>, last: bool)
    ensures Dividend(r, bits + [last])
         == Xor(Dividend(r, bits) + [false], Zeros(|bits|) + ([last] + Zeros(|r|)))
  {
    var left := Dividend(r, bits + [last]);
    var right := Xor(Dividend(r, bits) + [false], Zeros(|bits|) + ([last] + Zeros(|r|)));
    forall i | 0 <= i < |left| ensures left[i] == right[i] {
      if i == |bits| + |r| && |r| > 0 {
        assert (MsbFirst(r) + Zeros(|bits| + 1))[i] == false;
      }
    }
  }

  /** One register step is one step of the long division: bring down a coefficient, subtract if it fits. */
  lemma {:induction false} StepIsDivision(poly: Word, s: Word, last: bool)
    requires |poly| == |s| > 0
    ensures Xor(MsbFirst(s) + [false], [last] + Zeros(|s|))
         == Xor(if s[|s| - 1] != last then Divisor(poly) else Zeros(|s| + 1),
                [false] + MsbFirst(Step(poly, s, last)))
  {
    var shifted := Shl(s, 1);
    MsbFirstShl(s);
    XorConcat([s[|s| - 1]], MsbFirst(shifted), [last], Zeros(|s|));
    XorZero(MsbFirst(shifted));
    if s[|s| - 1] != last {
      XorConcat([true], MsbFirst(poly), [false], MsbFirst(Xor(shifted, poly)));
      ReverseXor(shifted, poly);
      XorTwice(MsbFirst(shifted), MsbFirst(poly));
    } else {
      assert Zeros(|s| + 1) == [false] + Zeros(|s|);
      XorConcat([false], Zeros(|s|), [false], MsbFirst(shifted));
    }
  }

  lemma {:induction false} MsbFirstShl(s: Word)
    requires |s| > 0
    ensures MsbFirst(s) + [false] == [s[|s| - 1]] + MsbFirst(Shl(s, 1))
  {
  }

  /** A product's leading coefficients determine the quotient: the divisor is monic. */
  lemma {:induction false} QuotientUnique(q: seq<bool>, q': seq<bool>, d: seq<bool>)
    requires |q| == |q'| && |d| > 1 && d[0]
    requires Product(q, d)[..|q|] == Product(q', d)[..|q|]
    ensures q == q'
  {
    if q != [] {
      var k := |q| - 1;
      var p, p' := Product(q, d), Product(q', d);
      forall i | 0 <= i < k ensures Product(q[..k], d)[i] == Product(q'[..k], d)[i] {
        assert p[..k + 1][i] == p'[..k + 1][i];
      }
      QuotientUnique(q[..k], q'[..k], d);
      assert p[..k + 1][k] == p'[..k + 1][k];
      assert q == q[..k] + [q[k]];
      assert q' == q'[..k] + [q'[k]];
    }
  }

  lemma {:induction false} DividesUnique(poly: Word, r: Word, bits: seq<bool>,
                                         q: seq<bool>, s: Word, q': seq<bool>, s': Word)
    requires |poly| == |r| == |s| == |s'| > 0
    requires Divides(poly, r, bits, q, s) && Divides(poly, r, bits, q', s')
    ensures s == s'
  {
    var n, k := |r|, |bits|;
    var d, v := Divisor(poly), Dividend(r, bits);
    forall i | 0 <= i < k ensures Product(q, d)[i] == Product(q', d)[i] {
      assert v[i] == Product(q, d)[i] && v[i] == Product(q', d)[i];
    }
    QuotientUnique(q, q', d);
    forall i | 0 <= i < n ensures s[i] == s'[i] {
      var j := k + n - 1 - i;
      assert (Zeros(k) + MsbFirst(s))[j] == s[i] && (Zeros(k) + MsbFirst(s'))[j] == s'[i];
      assert v[j] == (Product(q, d)[j] != s[i]);
      assert v[j] == (Product(q, d)[j] != s'[i]);
    }
  }

  /** The shift register holds the remainder of the polynomial division, and nothing else does. */
  lemma {:induction false} FeedIsRemainder(poly: Word, r: Word, bits: seq<bool>, s: Word)
    requires |poly| == |r| == |s| > 0
    ensures IsRemainder(poly, r, bits, s) <==> s == Feed(poly, r, bits)
  {
    var q := FeedDivides(poly, r, bits);
    if IsRemainder(poly, r, bits, s) {
      var q' :| Divides(poly, r, bits, q', s);
      DividesUnique(poly, r, bits, q, Feed(poly, r, bits), q', s);
    }
  }

  // ----- the checksum, bit by bit -----

  /** The bits of a message, byte after byte, each with its lowest bit first exactly when reflected. */
  lemma {:induction false} MessageBitsAre(reflectIn: bool, bytes: seq<Byte>, j: nat, k: nat)
    requires j < |bytes| && k < 8
    ensures MessageBits(reflectIn, bytes)[8 * j + k] == bytes[j][if reflectIn then k else 7 - k]
  {
    var last := |bytes| - 1;
    if j < last {
      MessageBitsAre(reflectIn, bytes[..last], j, k);
    }
  }

  /** Every bit of the checksum is a bit of the remainder, the highest power of x lowest when the
      remainder is reflected, combined with the bit of the final XOR. */
  lemma {:induction false} ChecksumBits(p: Params, bytes: seq<Byte>, r: Word, i: nat)
    requires p.Valid() && |r| == |p.poly| && i < |p.poly|
    requires IsRemainder(p.poly, p.init, MessageBits(p.reflectIn, bytes), r)
    ensures p.Checksum(bytes)[i] == ((if p.reflectRem then r[|r| - 1 - i] else r[i]) != p.final[i])
  {
    FeedIsRemainder(p.poly, p.init, MessageBits(p.reflectIn, bytes), r);
  }
}
