/**
 Check values: the checksums of the nine characters 1 to 9 under the parameters of crc_32_type, and
 under the same parameters with both reflections switched off, with registers as machine words.
 */
module CrcCheckValues {
  import opened Words
  import opened CrcSpec

  // ----- words of hexadecimal digits -----

  function Four(d: bv4): (w: Word)
    ensures |w| == 4
  {
    [d & 1 != 0, d & 2 != 0, d & 4 != 0, d & 8 != 0]
  }

  /** The k-th hexadecimal digit, the lowest first. */
  function Digit(r: bv32, k: nat): bv4
    requires k < 8
  {
    match k
    case 0 => (r & 0xF) as bv4
    case 1 => ((r >> 4) & 0xF) as bv4
    case 2 => ((r >> 8) & 0xF) as bv4
    case 3 => ((r >> 12) & 0xF) as bv4
    case 4 => ((r >> 16) & 0xF) as bv4
    case 5 => ((r >> 20) & 0xF) as bv4
    case 6 => ((r >> 24) & 0xF) as bv4
    case _ => ((r >> 28) & 0xF) as bv4
  }

  /** The k highest digits. */
  function High(r: bv32, k: nat): (w: Word)
    requires k <= 8
    ensures |w| == 4 * k
  {
    if k == 0 then [] else Four(Digit(r, 8 - k)) + High(r, k - 1)
  }

  function ToWord(r: bv32): (w: Word)
    ensures |w| == 32
  {
    High(r, 8)
  }

  function Bit(b: bool): nat {
    if b then 1 else 0
  }

  lemma {:induction false} LowBit(b: bool, v: nat, n: nat)
    ensures FromNat(2 * v + Bit(b), n + 1) == [b] + FromNat(v, n)
  {
    var x := 2 * v + Bit(b);
    assert x / 2 == v && (x % 2 == 1 <==> b);
  }

  lemma {:induction false} DigitValue(d: bv4)
    ensures d as nat == Bit(d & 1 != 0) + 2 * Bit(d & 2 != 0) + 4 * Bit(d & 4 != 0) + 8 * Bit(d & 8 != 0)
  {
  }

  lemma {:induction false} LowDigit(v: nat, d: bv4, n: nat)
    ensures FromNat(16 * v + d as nat, n + 4) == Four(d) + FromNat(v, n)
  {
    DigitValue(d);
    hide FromNat;
    var b0, b1, b2, b3 := d & 1 != 0, d & 2 != 0, d & 4 != 0, d & 8 != 0;
    var v3 := 2 * v + Bit(b3);
    var v2 := 2 * v3 + Bit(b2);
    var v1 := 2 * v2 + Bit(b1);
    LowBit(b3, v, n);
    LowBit(b2, v3, n + 1);
    LowBit(b1, v2, n + 2);
    LowBit(b0, v1, n + 3);
    Gather(b0, b1, b2, b3, FromNat(v, n));
  }

  lemma {:induction false} Gather(b0: bool, b1: bool, b2: bool, b3: bool, w: Word)
    ensures [b0] + ([b1] + ([b2] + ([b3] + w))) == [b0, b1, b2, b3] + w
  {
  }

  /** The number written by the k highest digits. */
  function HighValue(r: bv32, k: nat): nat
    requires k <= 8
  {
    if k == 0 then 0 else 16 * HighValue(r, k - 1) + Digit(r, 8 - k) as nat
  }

  lemma {:induction false} HighIs(r: bv32, k: nat)
    requires k <= 8
    ensures High(r, k) == FromNat(HighValue(r, k), 4 * k)
  {
    if k > 0 {
      hide Digit;
      HighIs(r, k - 1);
      LowDigit(HighValue(r, k - 1), Digit(r, 8 - k), 4 * (k - 1));
    }
  }

  lemma {:induction false} HighAt(r: bv32, k: nat, q: nat, j: nat)
    requires q < k <= 8 && j < 4
    ensures High(r, k)[4 * q + j] == Four(Digit(r, 8 - k + q))[j]
  {
    hide Digit, Four;
    if q > 0 {
      HighAt(r, k - 1, q - 1, j);
    }
  }

  /** d with its bits in the opposite order. */
  function Turned(d: bv4): bv4 {
    ((d & 1) << 3) | ((d & 2) << 1) | ((d >> 1) & 2) | ((d >> 3) & 1)
  }

  lemma {:induction false} TurnedAt(d: bv4, j: nat)
    requires j < 4
    ensures Four(Turned(d))[j] == Four(d)[3 - j]
    ensures Four(!d)[j] == !Four(d)[j]
  {
  }

  /** A word turned round and complemented, digit by digit. */
  lemma {:induction false} TurnedWord(r: bv32, s: bv32)
    requires forall k: nat :: k < 8 ==> Digit(s, k) == !Turned(Digit(r, 7 - k))
    ensures Xor(Reverse(ToWord(r)), ToWord(0xFFFFFFFF)) == ToWord(s)
  {
    hide Four, Turned, High, Digit, ToWord;
    var left := Xor(Reverse(ToWord(r)), ToWord(0xFFFFFFFF));
    forall i: nat | i < 32 ensures left[i] == ToWord(s)[i] {
      var q, j := i / 4, i % 4;
      WordAt(r, 7 - q, 3 - j);
      WordAt(s, q, j);
      OnesAt(q, j);
      assert i == 4 * q + j && 31 - i == 4 * (7 - q) + (3 - j);
      TurnedAt(Digit(r, 7 - q), j);
      TurnedAt(Turned(Digit(r, 7 - q)), j);
    }
  }

  lemma {:induction false} WordAt(r: bv32, q: nat, j: nat)
    requires q < 8 && j < 4
    ensures ToWord(r)[4 * q + j] == Four(Digit(r, q))[j]
  {
    HighAt(r, 8, q, j);
  }

  lemma {:induction false} OnesAt(q: nat, j: nat)
    requires q < 8 && j < 4
    ensures ToWord(0xFFFFFFFF)[4 * q + j]
  {
    WordAt(0xFFFFFFFF, q, j);
    assert Digit(0xFFFFFFFF, q) == 0xF;
  }

  /** A word complemented, digit by digit. */
  lemma {:induction false} ComplementWord(r: bv32, s: bv32)
    requires forall k: nat :: k < 8 ==> Digit(s, k) == !Digit(r, k)
    ensures Xor(ToWord(r), ToWord(0xFFFFFFFF)) == ToWord(s)
  {
    hide Four, High, Digit, ToWord;
    var left := Xor(ToWord(r), ToWord(0xFFFFFFFF));
    forall i: nat | i < 32 ensures left[i] == ToWord(s)[i] {
      var q, j := i / 4, i % 4;
      WordAt(r, q, j);
      WordAt(s, q, j);
      OnesAt(q, j);
      TurnedAt(Digit(r, q), j);
    }
  }

  // ----- division steps -----

  const Poly: bv32 := 0x04C11DB7

  function Up(r: bv32, divide: bool): bv32 {
    (r << 1) ^ (if divide then Poly else 0)
  }

  function Divide(r: bv32, bit: bool): bv32 {
    Up(r, (r & 0x80000000 != 0) != bit)
  }

  function ShiftAdd(w: Word, low: bool, p: Word, t: bool): (s: Word)
    requires |p| == |w|
    ensures |s| == |w|
  {
    seq(|w|, i requires 0 <= i < |w| => (if i == 0 then low else w[i - 1]) != (t && p[i]))
  }

  function UpDigit(d: bv4, low: bool, p: bv4, t: bool): bv4 {
    (d << 1) ^ (if low then 1 else 0) ^ (if t then p else 0)
  }

  lemma {:induction false} DigitUp(r: bv32, t: bool, k: nat)
    requires k < 8
    ensures Digit(Up(r, t), k) == UpDigit(Digit(r, k), k > 0 && Digit(r, k - 1) & 8 != 0, Digit(Poly, k), t)
  {
  }

  lemma {:induction false} ShiftAddFour(d: bv4, low: bool, p: bv4, t: bool)
    ensures ShiftAdd(Four(d), low, Four(p), t) == Four(UpDigit(d, low, p, t))
  {
  }

  lemma {:induction false} ShiftAddConcat(a: Word, b: Word, low: bool, p: Word, q: Word, t: bool)
    requires |a| == |p| > 0 && |b| == |q|
    ensures ShiftAdd(a + b, low, p + q, t) == ShiftAdd(a, low, p, t) + ShiftAdd(b, a[|a| - 1], q, t)
  {
  }

  lemma {:induction false} TopOfFour(d: bv4)
    ensures Four(d)[3] == (d & 8 != 0)
  {
  }

  lemma {:induction false} ShiftAddDigit(d: bv4, b: Word, low: bool, p: bv4, q: Word, t: bool)
    requires |b| == |q|
    ensures ShiftAdd(Four(d) + b, low, Four(p) + q, t)
         == Four(UpDigit(d, low, p, t)) + ShiftAdd(b, d & 8 != 0, q, t)
  {
    hide ShiftAdd, Four, UpDigit;
    ShiftAddFour(d, low, p, t);
    ShiftAddConcat(Four(d), b, low, Four(p), q, t);
    TopOfFour(d);
  }

  /** What comes in at the bottom of the k highest digits. */
  function LowIn(r: bv32, k: nat): bool
    requires k <= 8
  {
    k < 8 && Digit(r, 7 - k) & 8 != 0
  }

  lemma {:induction false} ShiftAddHigh(r: bv32, k: nat, t: bool)
    requires k <= 8
    ensures ShiftAdd(High(r, k), LowIn(r, k), High(Poly, k), t) == High(Up(r, t), k)
  {
    hide ShiftAdd, Digit, Four, Up, UpDigit;
    if k == 0 {
      NothingShifts(LowIn(r, 0), t);
    } else {
      DigitUp(r, t, 8 - k);
      ShiftAddHigh(r, k - 1, t);
      ShiftAddDigit(Digit(r, 8 - k), High(r, k - 1), LowIn(r, k), Digit(Poly, 8 - k), High(Poly, k - 1), t);
    }
  }

  lemma {:induction false} NothingShifts(low: bool, t: bool)
    ensures ShiftAdd([], low, [], t) == []
  {
  }

  lemma {:induction false} DivideIsStep(r: bv32, bit: bool)
    ensures Step(ToWord(Poly), ToWord(r), bit) == ToWord(Divide(r, bit))
  {
    var top := r & 0x80000000 != 0;
    assert ToWord(r)[31] == top by {
      WordAt(r, 7, 3);
      TopOfFour(Digit(r, 7));
      assert (Digit(r, 7) & 8 != 0) == top;
    }
    ShiftAddHigh(r, 8, top != bit);
    hide High;
    assert Step(ToWord(Poly), ToWord(r), bit) == ShiftAdd(ToWord(r), false, ToWord(Poly), top != bit);
  }

  /** Four message bits, the lowest of x first. */
  function DivideFour(r: bv32, x: bv4): bv32 {
    Divide(Divide(Divide(Divide(r, x & 1 != 0), x & 2 != 0), x & 4 != 0), x & 8 != 0)
  }

  lemma {:induction false} DivideFourIsFeed(r: bv32, x: bv4)
    ensures Feed(ToWord(Poly), ToWord(r), Four(x)) == ToWord(DivideFour(r, x))
  {
    hide Step, Divide, ToWord;
    var b0, b1, b2, b3 := x & 1 != 0, x & 2 != 0, x & 4 != 0, x & 8 != 0;
    var r1 := Divide(r, b0);
    var r2 := Divide(r1, b1);
    var r3 := Divide(r2, b2);
    DivideIsStep(r, b0);
    DivideIsStep(r1, b1);
    DivideIsStep(r2, b2);
    DivideIsStep(r3, b3);
    FeedFour(ToWord(Poly), ToWord(r), b0, b1, b2, b3);
  }

  lemma {:induction false} FeedFour(p: Word, r: Word, b0: bool, b1: bool, b2: bool, b3: bool)
    requires |p| == |r| > 0
    ensures Feed(p, r, [b0, b1, b2, b3]) == Step(p, Step(p, Step(p, Step(p, r, b0), b1), b2), b3)
  {
    hide Step;
    assert [b0, b1, b2, b3][..3] == [b0, b1, b2];
    assert [b0, b1, b2][..2] == [b0, b1];
    assert [b0, b1][..1] == [b0] && [b0][..0] == [];
    assert Feed(p, r, [b0]) == Step(p, r, b0);
    assert Feed(p, r, [b0, b1]) == Step(p, Step(p, r, b0), b1);
  }

  function DivideByte(r: bv32, reflectIn: bool, high: bv4, low: bv4): bv32 {
    if reflectIn then DivideFour(DivideFour(r, low), high)
    else DivideFour(DivideFour(r, Turned(high)), Turned(low))
  }

  lemma {:induction false} OneDigit(d: bv4)
    ensures FromNat(d as nat, 4) == Four(d)
  {
    hide FromNat, Four;
    var v := d as nat;
    LowDigit(0, d, 0);
    assert 16 * 0 + v == v;
    NoBits();
    assert Four(d) + [] == Four(d);
  }

  lemma {:induction false} TwoDigits(high: bv4, low: bv4)
    ensures FromNat(16 * high as nat + low as nat, 8) == Four(low) + Four(high)
  {
    hide FromNat, Four;
    LowDigit(high as nat, low, 4);
    OneDigit(high);
  }

  lemma {:induction false} TurnedDigits(high: bv4, low: bv4)
    ensures Reverse(Four(low) + Four(high)) == Four(Turned(high)) + Four(Turned(low))
  {
    hide Four, Turned, Reverse;
    TurnedFour(high);
    TurnedFour(low);
    ReverseConcat(Four(low), Four(high));
  }

  lemma {:induction false} ByteIs(reflectIn: bool, high: bv4, low: bv4)
    ensures ByteBits(reflectIn, FromNat(16 * high as nat + low as nat, 8))
         == if reflectIn then Four(low) + Four(high) else Four(Turned(high)) + Four(Turned(low))
  {
    hide FromNat, Four, Turned, Reverse;
    TwoDigits(high, low);
    TurnedDigits(high, low);
  }

  lemma {:induction false} TurnedFour(d: bv4)
    ensures Four(Turned(d)) == Reverse(Four(d))
  {
    hide Four, Turned;
    forall j: nat | j < 4 ensures Four(Turned(d))[j] == Reverse(Four(d))[j] {
      TurnedAt(d, j);
    }
  }

  lemma {:induction false} ReverseConcat(a: Word, b: Word)
    ensures Reverse(a + b) == Reverse(b) + Reverse(a)
  {
  }

  lemma {:induction false} NoBits()
    ensures FromNat(0, 0) == []
  {
  }

  lemma {:induction false} DivideByteIsFeed(r: bv32, reflectIn: bool, high: bv4, low: bv4)
    ensures FeedBytes(ToWord(Poly), ToWord(r), reflectIn, [FromNat(16 * high as nat + low as nat, 8)])
         == ToWord(DivideByte(r, reflectIn, high, low))
  {
    hide FromNat, Four, Feed, DivideFour, Turned, ToWord;
    var b: Byte := FromNat(16 * high as nat + low as nat, 8);
    ByteIs(reflectIn, high, low);
    assert [b][..0] == [];
    assert MessageBits(reflectIn, [b]) == ByteBits(reflectIn, b);
    var x, y := if reflectIn then low else Turned(high), if reflectIn then high else Turned(low);
    FeedConcat(ToWord(Poly), ToWord(r), Four(x), Four(y));
    DivideFourIsFeed(r, x);
    DivideFourIsFeed(DivideFour(r, x), y);
  }

  // ----- the check values -----

  /** The first k of the characters 1 to 9. */
  function Characters(k: nat): (bytes: seq<Byte>)
    ensures |bytes| == k
  {
    seq(k, i requires 0 <= i < k => FromNat(0x30 + (i + 1), 8))
  }

  /** One more character, whose low digit is d. */
  lemma {:induction false} NextCharacter(p: Word, reflectIn: bool, k: nat, d: bv4, r: bv32, s: bv32)
    requires d as nat == k + 1 < 10 && p == ToWord(Poly)
    requires FeedBytes(p, ToWord(0xFFFFFFFF), reflectIn, Characters(k)) == ToWord(r)
    requires DivideByte(r, reflectIn, 3, d) == s
    ensures FeedBytes(p, ToWord(0xFFFFFFFF), reflectIn, Characters(k + 1)) == ToWord(s)
  {
    hide FeedBytes, DivideByte, ToWord;
    var b := FromNat(0x30 + (k + 1), 8);
    assert Characters(k + 1) == Characters(k) + [b];
    FeedBytesConcat(p, ToWord(0xFFFFFFFF), reflectIn, Characters(k), [b]);
    DivideByteIsFeed(r, reflectIn, 3, d);
  }

  lemma {:induction false} NineCharacters(p: Word, reflectIn: bool, r1: bv32, r2: bv32, r3: bv32, r4: bv32, r5: bv32,
                                          r6: bv32, r7: bv32, r8: bv32, r9: bv32)
    requires p == ToWord(Poly)
    requires DivideByte(0xFFFFFFFF, reflectIn, 3, 1) == r1
    requires DivideByte(r1, reflectIn, 3, 2) == r2
    requires DivideByte(r2, reflectIn, 3, 3) == r3
    requires DivideByte(r3, reflectIn, 3, 4) == r4
    requires DivideByte(r4, reflectIn, 3, 5) == r5
    requires DivideByte(r5, reflectIn, 3, 6) == r6
    requires DivideByte(r6, reflectIn, 3, 7) == r7
    requires DivideByte(r7, reflectIn, 3, 8) == r8
    requires DivideByte(r8, reflectIn, 3, 9) == r9
    ensures FeedBytes(p, ToWord(0xFFFFFFFF), reflectIn, Characters(9)) == ToWord(r9)
  {
    hide DivideByte, FeedBytes, ToWord, Characters;
    NoCharacters(p, reflectIn);
    NextCharacter(p, reflectIn, 0, 1, 0xFFFFFFFF, r1);
    NextCharacter(p, reflectIn, 1, 2, r1, r2);
    NextCharacter(p, reflectIn, 2, 3, r2, r3);
    NextCharacter(p, reflectIn, 3, 4, r3, r4);
    NextCharacter(p, reflectIn, 4, 5, r4, r5);
    NextCharacter(p, reflectIn, 5, 6, r5, r6);
    NextCharacter(p, reflectIn, 6, 7, r6, r7);
    NextCharacter(p, reflectIn, 7, 8, r7, r8);
    NextCharacter(p, reflectIn, 8, 9, r8, r9);
  }

  lemma {:induction false} ReflectedRegisters()
    ensures DivideByte(0xFFFFFFFF, true, 3, 1) == 0x1208C43E
    ensures DivideByte(0x1208C43E, true, 3, 2) == 0x4CDD350D
    ensures DivideByte(0x4CDD350D, true, 3, 3) == 0xB439EDEE
    ensures DivideByte(0xB439EDEE, true, 3, 4) == 0x3AF83826
    ensures DivideByte(0x3AF83826, true, 3, 5) == 0xC7A3502C
  {
  }

  lemma {:induction false} ReflectedLater()
    ensures DivideByte(0xC7A3502C, true, 3, 6) == 0x7934B16F
    ensures DivideByte(0x7934B16F, true, 3, 7) == 0x06693FF5
    ensures DivideByte(0x06693FF5, true, 3, 8) == 0x0AA4F8A6
    ensures DivideByte(0x0AA4F8A6, true, 3, 9) == 0x9B63D02C
  {
  }

  lemma {:induction false} ReflectedCharacters(p: Word)
    requires p == ToWord(Poly)
    ensures FeedBytes(p, ToWord(0xFFFFFFFF), true, Characters(9)) == ToWord(0x9B63D02C)
  {
    hide *;
    ReflectedRegisters();
    ReflectedLater();
    NineCharacters(p, true, 0x1208C43E, 0x4CDD350D, 0xB439EDEE, 0x3AF83826, 0xC7A3502C,
                   0x7934B16F, 0x06693FF5, 0x0AA4F8A6, 0x9B63D02C);
  }

  lemma {:induction false} PlainRegisters()
    ensures DivideByte(0xFFFFFFFF, false, 3, 1) == 0x9EFBCF93
    ensures DivideByte(0x9EFBCF93, false, 3, 2) == 0x3FEC5E6A
    ensures DivideByte(0x3FEC5E6A, false, 3, 3) == 0xD952F164
    ensures DivideByte(0xD952F164, false, 3, 4) == 0xA695C4AA
    ensures DivideByte(0xA695C4AA, false, 3, 5) == 0xBD9AB747
  {
  }

  lemma {:induction false} PlainLater()
    ensures DivideByte(0xBD9AB747, false, 3, 6) == 0xD8F06C8F
    ensures DivideByte(0xD8F06C8F, false, 3, 7) == 0x0D8A14C4
    ensures DivideByte(0x0D8A14C4, false, 3, 8) == 0x49E3C2FB
    ensures DivideByte(0x49E3C2FB, false, 3, 9) == 0x0376E6E7
  {
  }

  lemma {:induction false} PlainCharacters(p: Word)
    requires p == ToWord(Poly)
    ensures FeedBytes(p, ToWord(0xFFFFFFFF), false, Characters(9)) == ToWord(0x0376E6E7)
  {
    hide *;
    PlainRegisters();
    PlainLater();
    NineCharacters(p, false, 0x9EFBCF93, 0x3FEC5E6A, 0xD952F164, 0xA695C4AA, 0xBD9AB747,
                   0xD8F06C8F, 0x0D8A14C4, 0x49E3C2FB, 0x0376E6E7);
  }

  lemma {:induction false} NoCharacters(p: Word, reflectIn: bool)
    requires p == ToWord(Poly)
    ensures FeedBytes(p, ToWord(0xFFFFFFFF), reflectIn, Characters(0)) == ToWord(0xFFFFFFFF)
  {
    hide ToWord;
    assert MessageBits(reflectIn, Characters(0)) == [];
  }

  function Value(r: bv32): nat {
    16 * (16 * (16 * (16 * (16 * (16 * (16 * Digit(r, 7) as nat + Digit(r, 6) as nat) + Digit(r, 5) as nat)
       + Digit(r, 4) as nat) + Digit(r, 3) as nat) + Digit(r, 2) as nat) + Digit(r, 1) as nat)
       + Digit(r, 0) as nat
  }

  lemma {:induction false} WordsAre()
    ensures ToWord(0x04C11DB7) == FromNat(0x04C11DB7, 32)
    ensures ToWord(0xFFFFFFFF) == FromNat(0xFFFFFFFF, 32)
    ensures ToWord(0xCBF43926) == FromNat(0xCBF43926, 32)
    ensures ToWord(0xFC891918) == FromNat(0xFC891918, 32)
    ensures ToWord(0xD202EF8D) == FromNat(0xD202EF8D, 32)
  {
    hide FromNat, ToWord;
    WordIs(0x04C11DB7);
    WordIs(0xFFFFFFFF);
    WordIs(0xCBF43926);
    WordIs(0xFC891918);
    WordIs(0xD202EF8D);
  }

  lemma {:induction false} HighValueIs(r: bv32)
    ensures HighValue(r, 8) == Value(r)
  {
    hide Digit;
    assert HighValue(r, 1) == 16 * HighValue(r, 0) + Digit(r, 7) as nat;
    assert HighValue(r, 2) == 16 * HighValue(r, 1) + Digit(r, 6) as nat;
    assert HighValue(r, 3) == 16 * HighValue(r, 2) + Digit(r, 5) as nat;
    assert HighValue(r, 4) == 16 * HighValue(r, 3) + Digit(r, 4) as nat;
    assert HighValue(r, 5) == 16 * HighValue(r, 4) + Digit(r, 3) as nat;
    assert HighValue(r, 6) == 16 * HighValue(r, 5) + Digit(r, 2) as nat;
    assert HighValue(r, 7) == 16 * HighValue(r, 6) + Digit(r, 1) as nat;
  }

  /** A machine word is the binary representation of the number its digits write. */
  lemma {:induction false} WordIs(r: bv32)
    ensures ToWord(r) == FromNat(Value(r), 32)
  {
    hide FromNat, High, HighValue, Value;
    HighIs(r, 8);
    HighValueIs(r);
  }

  /** The check value of crc_32_type. */
  lemma {:induction false} Crc32Check()
    ensures Crc32().Checksum(Characters(9)) == FromNat(0xCBF43926, 32)
  {
    WordsAre();
    hide FromNat, FeedBytes, ToWord, Characters;
    ReflectedCharacters(FromNat(0x04C11DB7, 32));
    TurnedWord(0x9B63D02C, 0xCBF43926) by {
      FinishedDigits();
    }
  }

  lemma {:induction false} FinishedDigits()
    ensures forall k: nat :: k < 8 ==> Digit(0xCBF43926, k) == !Turned(Digit(0x9B63D02C, 7 - k))
    ensures forall k: nat :: k < 8 ==> Digit(0xFC891918, k) == !Digit(0x0376E6E7, k)
    ensures forall k: nat :: k < 8 ==> Digit(0xD202EF8D, k) == !Turned(Digit(0x4E08BFB4, 7 - k))
  {
  }

  /** Without either reflection, the same parameters give another check value. */
  lemma {:induction false} UnreflectedCheck()
    ensures Crc32().(reflectIn := false, reflectRem := false).Checksum(Characters(9)) == FromNat(0xFC891918, 32)
  {
    WordsAre();
    hide FromNat, FeedBytes, ToWord, Characters;
    PlainCharacters(FromNat(0x04C11DB7, 32));
    ComplementWord(0x0376E6E7, 0xFC891918) by {
      FinishedDigits();
    }
  }

  /** A packet of one zero byte. */
  lemma {:induction false} ZeroByteCheck()
    ensures Crc32().Checksum([FromNat(0x00, 8)]) == FromNat(0xD202EF8D, 32)
  {
    WordsAre();
    hide FromNat, FeedBytes, ToWord;
    DivideByteIsFeed(0xFFFFFFFF, true, 0, 0);
    assert DivideByte(0xFFFFFFFF, true, 0, 0) == 0x4E08BFB4;
    TurnedWord(0x4E08BFB4, 0xD202EF8D) by {
      FinishedDigits();
    }
  }
}
