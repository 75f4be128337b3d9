/**
 The CRC computers of boost/crc.hpp. Every register lives in an unsigned type of `w` bits, of which
 the code uses the low `n`; what the bits above hold is never masked off before the checksum.
 */
module CrcEngine {
  import opened Words
  import opened CrcSpec

  const CHAR_BIT: nat := 8

  /** The low n bits of x in opposite order, zero-extended to the width of x. */
  function ReflectLow(x: Word, n: nat): (r: Word)
    ensures |r| == |x|
  {
    Cast(Reverse(Cast(x, n)), |x|)
  }

  /** reflector<Bits>::reflect */
  method Reflect(n: nat, value: Word) returns (reflection: Word)
    requires n <= |value|
    ensures reflection == ReflectLow(value, n)
    ensures forall j :: 0 <= j < |value| ==> reflection[j] == (j < n && value[n - 1 - j])
  {
    var x := value;
    reflection := Zeros(|value|);
    for i := 0 to n
      invariant x == Shr(value, i)
      invariant |reflection| == |value|
      invariant forall j :: 0 <= j < |value| ==> reflection[j] == (n - i <= j < n && value[n - 1 - j])
    {
      if x[0] {
        reflection := Or(reflection, OneBit(|value|, n - 1 - i));
      }
      x := Shr(x, 1);
    }
  }

  /** Reflecting twice keeps exactly the low bits. */
  lemma {:induction false} ReflectLowInvolution(x: Word, n: nat)
    requires n <= |x|
    ensures ReflectLow(ReflectLow(x, n), n) == Mask(x, n)
    ensures Cast(ReflectLow(x, n), n) == Reverse(Cast(x, n))
  {
    assert Cast(ReflectLow(x, n), n) == Reverse(Cast(x, n));
    ReverseInvolution(Cast(x, n));
  }

  lemma {:induction false} CastXor(a: Word, b: Word, n: nat)
    requires |a| == |b|
    ensures Cast(Xor(a, b), n) == Xor(Cast(a, n), Cast(b, n))
  {
  }

  lemma {:induction false} CastShl(a: Word, k: nat, n: nat)
    requires n <= |a|
    ensures Cast(Shl(a, k), n) == Shl(Cast(a, n), k)
  {
  }

  /** A division step on a whole word, seen on its low bits: `x` is the word with the register's top
      bit flipped by the message bit, `next` is it shifted, less the polynomial if that bit was set. */
  lemma {:induction false} WordStep(poly: Word, r: Word, n: nat, bit: bool, x: Word, next: Word)
    requires |poly| == |r| && 0 < n <= |r|
    requires x == if bit then Xor(r, OneBit(|r|, n - 1)) else r
    requires next == if x[n - 1] then Xor(Shl(x, 1), poly) else Shl(x, 1)
    ensures Cast(next, n) == Step(Cast(poly, n), Cast(r, n), bit)
  {
    assert x[n - 1] == (r[n - 1] != bit);
    assert Cast(Shl(x, 1), n) == Shl(Cast(r, n), 1);
    CastXor(Shl(x, 1), poly, n);
  }

  // ----- crc_basic: one bit at a time -----

  class CrcBasic {
    const n: nat
    const w: nat
    var remainder: Word
    var truncPoly: Word
    var initRem: Word
    var finalXor: Word
    var reflectIn: bool
    var reflectRem: bool

    ghost predicate Valid()
      reads this
    {
      0 < n <= w && |remainder| == |truncPoly| == |initRem| == |finalXor| == w
    }

    ghost function Settings(): (p: Params)
      requires Valid()
      reads this
      ensures p.Valid() && p.Width() == n
    {
      Params(Cast(truncPoly, n), Cast(initRem, n), Cast(finalXor, n), reflectIn, reflectRem)
    }

    ghost function Register(): (r: Word)
      requires Valid()
      reads this
      ensures |r| == n
    {
      Cast(remainder, n)
    }

    constructor (n: nat, w: nat, poly: Word, init: Word, final: Word, reflectIn: bool, reflectRem: bool)
      requires 0 < n <= w && |poly| == |init| == |final| == w
      ensures Valid() && this.n == n && this.w == w
      ensures Settings() == Params(Cast(poly, n), Cast(init, n), Cast(final, n), reflectIn, reflectRem)
      ensures Register() == Settings().init
    {
      this.n, this.w := n, w;
      remainder, truncPoly, initRem, finalXor := init, poly, init, final;
      this.reflectIn, this.reflectRem := reflectIn, reflectRem;
    }

    method GetInterimRemainder() returns (r: Word)
      requires Valid()
      ensures r == Cast(Register(), w)
    {
      r := Mask(remainder, n);
    }

    method Reset(newRem: Word)
      requires Valid() && |newRem| == w
      modifies this`remainder
      ensures Valid() && Register() == Cast(newRem, n)
    {
      remainder := newRem;
    }

    method ProcessBit(bit: bool)
      requires Valid()
      modifies this`remainder
      ensures Valid() && Register() == Step(Settings().poly, old(Register()), bit)
    {
      var highBitMask := OneBit(w, n - 1);
      ghost var r := remainder;
      XorZero(r);
      remainder := Xor(remainder, if bit then highBitMask else Zeros(w));
      ghost var x := remainder;
      var doPolyDiv := remainder[n - 1];
      remainder := Shl(remainder, 1);
      if doPolyDiv {
        remainder := Xor(remainder, truncPoly);
      }
      WordStep(truncPoly, r, n, bit, x, remainder);
    }

    method ProcessBits(bits: Byte, bitCount: nat)
      requires Valid() && bitCount <= CHAR_BIT
      modifies this`remainder
      ensures Valid()
      ensures Register() == Feed(Settings().poly, old(Register()), MsbFirst(bits[..bitCount]))
    {
      hide Feed;
      ghost var poly, start, order := Settings().poly, Register(), MsbFirst(bits[..bitCount]);
      var left: Byte := Shl(bits, CHAR_BIT - bitCount);
      var i := bitCount;
      FeedNothing(poly, start, order);
      while i > 0
        invariant 0 <= i <= bitCount
        invariant Valid()
        invariant left == Shl(bits, CHAR_BIT - i)
        invariant Register() == Feed(poly, start, order[..bitCount - i])
      {
        NextBit(bits, bitCount, i);
        FeedNext(poly, start, order, bitCount - i);
        ProcessBit(left[CHAR_BIT - 1]);
        ShlOnce(bits, CHAR_BIT - i);
        i := i - 1;
        left := Shl(left, 1);
      }
      assert order[..bitCount] == order;
    }

    method ProcessByte(byte: Byte)
      requires Valid()
      modifies this`remainder
      ensures Valid()
      ensures Register() == Feed(Settings().poly, old(Register()), ByteBits(reflectIn, byte))
    {
      var bits: Byte := byte;
      if reflectIn {
        bits := Reflect(CHAR_BIT, byte);
        assert bits == Reverse(byte);
        ReverseInvolution(byte);
      }
      assert bits[..CHAR_BIT] == bits;
      ProcessBits(bits, CHAR_BIT);
    }

    method ProcessBlock(bytes: seq<Byte>)
      requires Valid()
      modifies this`remainder
      ensures Valid()
      ensures Register() == FeedBytes(Settings().poly, old(Register()), reflectIn, bytes)
    {
      assert bytes[..0] == [];
      for p := 0 to |bytes|
        invariant Valid()
        invariant Register() == FeedBytes(Settings().poly, old(Register()), reflectIn, bytes[..p])
      {
        ProcessByte(bytes[p]);
        FeedOneByte(Settings().poly, old(Register()), reflectIn, bytes, p);
      }
      assert bytes[..|bytes|] == bytes;
    }

    method Checksum() returns (c: Word)
      requires Valid()
      ensures c == Cast(Settings().Finish(Register()), w)
    ensures forall i :: 0 <= i < w ==>
      c[i] == (i < n && (Register()[if reflectRem then n - 1 - i else i] != Settings().final[i]))
    {
      var r := remainder;
      if reflectRem {
        r := Reflect(n, remainder);
        ReflectLowInvolution(remainder, n);
      }
      CastXor(r, finalXor, n);
      c := Mask(Xor(r, finalXor), n);
    }
  }

  lemma {:induction false} NextBit(bits: Byte, bitCount: nat, i: nat)
    requires 0 < i <= bitCount <= CHAR_BIT
    ensures Shl(bits, CHAR_BIT - i)[CHAR_BIT - 1] == MsbFirst(bits[..bitCount])[bitCount - i]
  {
  }

  lemma {:induction false} FeedNothing(poly: Word, r: Word, bits: seq<bool>)
    requires |poly| == |r| > 0
    ensures Feed(poly, r, bits[..0]) == r
  {
    assert bits[..0] == [];
  }

  lemma {:induction false} FeedNext(poly: Word, r: Word, bits: seq<bool>, k: nat)
    requires |poly| == |r| > 0 && k < |bits|
    ensures Feed(poly, r, bits[..k + 1]) == Step(poly, Feed(poly, r, bits[..k]), bits[k])
  {
    assert bits[..k + 1][..k] == bits[..k];
  }

  lemma {:induction false} FeedOneByte(poly: Word, r: Word, reflectIn: bool, bytes: seq<Byte>, p: nat)
    requires |poly| == |r| > 0 && p < |bytes|
    ensures FeedBytes(poly, r, reflectIn, bytes[..p + 1])
         == Feed(poly, FeedBytes(poly, r, reflectIn, bytes[..p]), ByteBits(reflectIn, bytes[p]))
  {
    assert bytes[..p + 1][..p] == bytes[..p];
    FeedConcat(poly, r, MessageBits(reflectIn, bytes[..p]), ByteBits(reflectIn, bytes[p]));
  }

  // ----- crc_table_t -----

  /** A word that holds the register r, reflected or not; reflected words are clear above it. */
  ghost predicate Holds(reflect: bool, word: Word, r: Word)
  {
    if reflect then word == Cast(Reverse(r), |word|) else Cast(word, |r|) == r
  }

  function ToByte(v: nat): Byte
    requires v < 256
  {
    FromNat(v, CHAR_BIT)
  }

  /** The table slot of a dividend. */
  function Slot(reflect: bool, dividend: nat): (slot: nat)
    requires dividend < 256
    ensures slot < 256
  {
    FromNatToNat(Reverse(ToByte(dividend)));
    if reflect then ToNat(Reverse(ToByte(dividend))) else dividend
  }

  /** Bit reflection permutes the 256 slots. */
  lemma {:induction false} SlotInvolution(reflect: bool, dividend: nat)
    requires dividend < 256
    ensures Slot(reflect, Slot(reflect, dividend)) == dividend
  {
    if reflect {
      var b := ToByte(dividend);
      FromNatToNat(Reverse(b));
      ReverseInvolution(b);
      ToNatFromNat(dividend, CHAR_BIT);
    }
  }

  /** The inner loop of the table generator: what dividing one lone byte leaves. */
  method DivideByte(n: nat, poly: Word, dividend: Byte) returns (remainder: Word)
    requires 0 < n <= |poly|
    ensures |remainder| == |poly|
    ensures Cast(remainder, n) == Feed(Cast(poly, n), Zeros(n), MsbFirst(dividend))
  {
    ghost var order := MsbFirst(dividend);
    remainder := Zeros(|poly|);
    assert order[..0] == [];
    assert Cast(remainder, n) == Zeros(n);
    for bit := CHAR_BIT downto 0
      invariant |remainder| == |poly|
      invariant Cast(remainder, n) == Feed(Cast(poly, n), Zeros(n), order[..CHAR_BIT - bit])
    {
      ghost var r := remainder;
      if dividend[bit] {
        remainder := Xor(remainder, OneBit(|poly|, n - 1));
      }
      ghost var x := remainder;
      if remainder[n - 1] {
        remainder := Shl(remainder, 1);
        remainder := Xor(remainder, poly);
      } else {
        remainder := Shl(remainder, 1);
      }
      WordStep(poly, r, n, dividend[bit], x, remainder);
      assert order[CHAR_BIT - 1 - bit] == dividend[bit];
      FeedNext(Cast(poly, n), Zeros(n), order, CHAR_BIT - 1 - bit);
    }
    assert order[..CHAR_BIT] == order;
  }

  class CrcTable {
    const n: nat
    const w: nat
    const poly: Word
    const reflect: bool
    const entries: array<Word>
    var didInit: bool

    ghost predicate Valid()
      reads this, entries
    {
      && 0 < n <= w
      && |poly| == w
      && entries.Length == 256
      && (didInit ==> FilledUpTo(256))
    }

    ghost predicate FilledUpTo(k: nat)
      requires 0 < n <= w && |poly| == w && entries.Length == 256 && k <= 256
      reads entries
    {
      forall v :: 0 <= v < k ==> EntryFor(entries[Slot(reflect, v)], v)
    }

    ghost predicate EntryFor(entry: Word, dividend: nat)
      requires 0 < n <= w && |poly| == w && dividend < 256
    {
      |entry| == w && Holds(reflect, entry, Feed(Cast(poly, n), Zeros(n), MsbFirst(ToByte(dividend))))
    }

    constructor (n: nat, w: nat, poly: Word, reflect: bool)
      requires 0 < n <= w && |poly| == w
      ensures Valid() && fresh(entries)
      ensures this.n == n && this.w == w && this.poly == poly && this.reflect == reflect
    {
      this.n, this.w, this.poly, this.reflect := n, w, poly, reflect;
      entries := new Word[256](i => Zeros(w));
      didInit := false;
    }

    /** Fills the table on the first call. */
    method InitTable()
      requires Valid()
      modifies this`didInit, entries
      ensures Valid() && didInit
    {
      if didInit {
        return;
      }
      var dividend := 0;
      var more := true;
      while more
        invariant Valid() && !didInit
        invariant 0 <= dividend < 256
        invariant FilledUpTo(if more then dividend else 256)
        decreases more, 256 - dividend
      {
        FillSlot(dividend);
        dividend := (dividend + 1) % 256;
        more := dividend != 0;
      }
      didInit := true;
    }

    /** The body of the table generator's outer loop: one dividend, no filled slot lost. */
    method FillSlot(dividend: nat)
      requires Valid() && !didInit && dividend < 256 && FilledUpTo(dividend)
      modifies entries
      ensures Valid() && FilledUpTo(dividend + 1)
    {
      var remainder := DivideByte(n, poly, ToByte(dividend));
      var slot := dividend;
      if reflect {
        var b := Reflect(CHAR_BIT, ToByte(dividend));
        assert b == Reverse(ToByte(dividend));
        FromNatToNat(b);
        slot := ToNat(b);
        remainder := Reflect(n, remainder);
      }
      assert slot == Slot(reflect, dividend);
      forall v | 0 <= v < 256 && v != dividend ensures Slot(reflect, v) != slot {
        SlotInvolution(reflect, v);
        SlotInvolution(reflect, dividend);
      }
      entries[slot] := remainder;
    }

    /** Each entry equals eight register steps on its index byte, reflected where the table is. */
    lemma {:induction false} Lookup(index: Byte)
      requires Valid() && didInit
      ensures ToNat(index) < 256
      ensures |entries[ToNat(index)]| == w
      ensures Holds(reflect, entries[ToNat(index)], Feed(Cast(poly, n), Zeros(n), ByteBits(reflect, index)))
    {
      FromNatToNat(index);
      SlotInvolution(reflect, ToNat(index));
      var dividend := Slot(reflect, ToNat(index));
      assert FilledUpTo(256) && EntryFor(entries[Slot(reflect, dividend)], dividend);
      if reflect {
        ToNatFromNat(dividend, CHAR_BIT);
        FromNatToNat(Reverse(index));
        assert ToByte(dividend) == Reverse(index);
        ReverseInvolution(index);
      }
    }
  }

  // ----- crc_helper -----

  /** Compare a byte with the register's highest byte. */
  function Index(n: nat, reflect: bool, rem: Word, x: Byte): (index: Byte)
  {
    if reflect then Xor(x, Cast(rem, CHAR_BIT))
    else if n > CHAR_BIT then Xor(x, Cast(Shr(rem, n - CHAR_BIT), CHAR_BIT))
    else Xor(x, Cast(Shl(rem, CHAR_BIT - n), CHAR_BIT))
  }

  /** Shift out the register's highest byte. */
  function Shift(reflect: bool, rem: Word): (r: Word)
    ensures |r| == |rem|
  {
    if reflect then Shr(rem, CHAR_BIT) else Shl(rem, CHAR_BIT)
  }

  function HelperReflect(n: nat, reflect: bool, x: Word): (r: Word)
    ensures |r| == |x|
  {
    if reflect then ReflectLow(x, n) else x
  }

  /** The unreflected register inside a word, as the bit-by-bit computer would hold it. */
  function RegisterOf(n: nat, reflect: bool, word: Word): (r: Word)
    ensures |r| == n
  {
    if reflect then Reverse(Cast(word, n)) else Cast(word, n)
  }

  /** The index byte is the next eight message bits XORed with the register's top bits,
      for widths below a byte too, and whatever lies above the register in its word. */
  lemma {:induction false} IndexIsTop(n: nat, reflect: bool, rem: Word, x: Byte)
    requires 0 < n <= |rem| && CHAR_BIT <= |rem|
    requires reflect ==> rem == Mask(rem, n)
    ensures ByteBits(reflect, Index(n, reflect, rem, x))
         == Xor(ByteBits(reflect, x), TopBits(RegisterOf(n, reflect, rem), CHAR_BIT))
  {
    var r := RegisterOf(n, reflect, rem);
    var left := ByteBits(reflect, Index(n, reflect, rem, x));
    var right := Xor(ByteBits(reflect, x), TopBits(r, CHAR_BIT));
    forall i | 0 <= i < 8 ensures left[i] == right[i] {
      if reflect && i >= n {
        assert rem[i] == Mask(rem, n)[i] == false;
      }
    }
  }

  /** One table step is eight register steps, in the reflected form and in the other. */
  lemma {:induction false} TableStep(poly: Word, n: nat, reflect: bool, rem: Word, x: Byte, entry: Word)
    requires |poly| == n && 0 < n <= |rem| == |entry| && CHAR_BIT <= |rem|
    requires reflect ==> rem == Mask(rem, n)
    requires Holds(reflect, entry, Feed(poly, Zeros(n), ByteBits(reflect, Index(n, reflect, rem, x))))
    ensures RegisterOf(n, reflect, Xor(Shift(reflect, rem), entry))
         == Feed(poly, RegisterOf(n, reflect, rem), ByteBits(reflect, x))
    ensures reflect ==> Xor(Shift(reflect, rem), entry) == Mask(Xor(Shift(reflect, rem), entry), n)
  {
    var add := Feed(poly, Zeros(n), ByteBits(reflect, Index(n, reflect, rem, x)));
    IndexIsTop(n, reflect, rem, x);
    FeedSplit(poly, RegisterOf(n, reflect, rem), ByteBits(reflect, x));
    if reflect {
      ReflectedSum(Shift(true, rem), add);
      ShiftReflected(n, rem);
      CastCast(Reverse(add), |rem|);
      MaskXor(Shift(true, rem), entry, n);
    } else {
      CastShl(rem, CHAR_BIT, n);
      CastXor(Shl(rem, CHAR_BIT), entry, n);
    }
  }

  lemma {:induction false} ReflectedSum(a: Word, b: Word)
    requires |b| <= |a|
    ensures Reverse(Cast(Xor(a, Cast(Reverse(b), |a|)), |b|)) == Xor(Reverse(Cast(a, |b|)), b)
  {
  }

  lemma {:induction false} MaskXor(a: Word, b: Word, n: nat)
    requires |a| == |b|
    requires a == Mask(a, n) && b == Mask(b, n)
    ensures Xor(a, b) == Mask(Xor(a, b), n)
  {
    forall i | n <= i < |a| ensures !a[i] && !b[i] {
      assert a[i] == Mask(a, n)[i] && b[i] == Mask(b, n)[i];
    }
  }

  lemma {:induction false} ShiftReflected(n: nat, rem: Word)
    requires n <= |rem| && rem == Mask(rem, n)
    ensures Reverse(Cast(Shift(true, rem), n)) == Shl(Reverse(Cast(rem, n)), CHAR_BIT)
    ensures Shift(true, rem) == Mask(Shift(true, rem), n)
  {
    forall i | n <= i < |rem| ensures !rem[i] {
      assert rem[i] == Mask(rem, n)[i];
    }
  }

  // ----- crc_optimal: one byte at a time through the table -----

  class CrcOptimal {
    const n: nat
    const w: nat
    const initRem: Word
    const finalXor: Word
    const reflectIn: bool
    const reflectRem: bool
    const table: CrcTable
    var remainder: Word

    ghost predicate Valid()
      reads this, table, table.entries
    {
      && table.Valid() && table.didInit
      && table.n == n && table.w == w && table.reflect == reflectIn
      && CHAR_BIT <= w
      && |remainder| == |initRem| == |finalXor| == w
      && (reflectIn ==> remainder == Mask(remainder, n))
    }

    ghost function Settings(): (p: Params)
      requires Valid()
      reads this, table, table.entries
      ensures p.Valid() && p.Width() == n
    {
      Params(Cast(table.poly, n), Cast(initRem, n), Cast(finalXor, n), reflectIn, reflectRem)
    }

    /** The unreflected register, as the bit-by-bit computer would hold it. */
    ghost function Register(): (r: Word)
      requires Valid()
      reads this, table, table.entries
      ensures |r| == n
    {
      RegisterOf(n, reflectIn, remainder)
    }

    constructor (table: CrcTable, initRem: Word, finalXor: Word, reflectRem: bool)
      requires table.Valid() && CHAR_BIT <= table.w && |initRem| == |finalXor| == table.w
      modifies table`didInit, table.entries
      ensures Valid() && this.table == table && n == table.n && w == table.w
      ensures Settings() == Params(Cast(table.poly, table.n), Cast(initRem, table.n),
                                   Cast(finalXor, table.n), table.reflect, reflectRem)
      ensures Register() == Settings().init
    {
      n, w, this.table := table.n, table.w, table;
      this.initRem, this.finalXor := initRem, finalXor;
      this.reflectIn, this.reflectRem := table.reflect, reflectRem;
      remainder := HelperReflect(table.n, table.reflect, initRem);
      new;
      table.InitTable();
      ReflectLowInvolution(initRem, n);
      ReverseInvolution(Cast(initRem, n));
      assert ReflectLow(initRem, n) == Mask(ReflectLow(initRem, n), n);
    }

    method GetInterimRemainder() returns (r: Word)
      requires Valid()
      ensures r == Cast(Register(), w)
    {
      r := remainder;
      if reflectIn {
        r := Reflect(n, remainder);
        ReflectLowInvolution(remainder, n);
      }
      r := Mask(r, n);
    }

    method Reset(newRem: Word)
      requires Valid() && |newRem| == w
      modifies this`remainder
      ensures Valid() && Register() == Cast(newRem, n)
    {
      if reflectIn {
        remainder := Reflect(n, newRem);
        ReflectLowInvolution(newRem, n);
        ReverseInvolution(Cast(newRem, n));
        assert remainder == Mask(remainder, n);
      } else {
        remainder := newRem;
      }
    }

    method ProcessBlock(bytes: seq<Byte>)
      requires Valid()
      modifies this`remainder
      ensures Valid()
      ensures Register() == FeedBytes(Settings().poly, old(Register()), reflectIn, bytes)
    {
      ghost var poly, start := Settings().poly, Register();
      assert bytes[..0] == [];
      for p := 0 to |bytes|
        invariant Valid()
        invariant Register() == FeedBytes(poly, start, reflectIn, bytes[..p])
      {
        ghost var rem := remainder;
        var byteIndex := Index(n, reflectIn, remainder, bytes[p]);
        table.Lookup(byteIndex);
        remainder := Shift(reflectIn, remainder);
        remainder := Xor(remainder, table.entries[ToNat(byteIndex)]);
        TableStep(poly, n, reflectIn, rem, bytes[p], table.entries[ToNat(byteIndex)]);
        FeedOneByte(poly, start, reflectIn, bytes, p);
      }
      assert bytes[..|bytes|] == bytes;
    }

    method Checksum() returns (c: Word)
      requires Valid()
      ensures c == Cast(Settings().Finish(Register()), w)
    ensures forall i :: 0 <= i < w ==>
      c[i] == (i < n && (Register()[if reflectRem then n - 1 - i else i] != Settings().final[i]))
    {
      var r := remainder;
      if reflectRem != reflectIn {
        r := Reflect(n, remainder);
        ReflectLowInvolution(remainder, n);
      }
      ReverseInvolution(Cast(remainder, n));
      CastXor(r, finalXor, n);
      c := Mask(Xor(r, finalXor), n);
    }
  }

  /** The crc function: a computer on a shared table, one block, its checksum. */
  method Crc(table: CrcTable, initRem: Word, finalXor: Word, reflectRem: bool, bytes: seq<Byte>)
    returns (c: Word)
    requires table.Valid() && CHAR_BIT <= table.w && |initRem| == |finalXor| == table.w
    modifies table`didInit, table.entries
    ensures table.Valid()
    ensures var p := Params(Cast(table.poly, table.n), Cast(initRem, table.n),
                            Cast(finalXor, table.n), table.reflect, reflectRem);
      c == Cast(p.Checksum(bytes), table.w)
  {
    var computer := new CrcOptimal(table, initRem, finalXor, reflectRem);
    computer.ProcessBlock(bytes);
    c := computer.Checksum();
  }

  /** What the RCON code does for each packet with its one crc_32_type: the checksum is that of the packet alone,
      whatever the computer has processed before. */
  method PacketChecksum(crc32: CrcOptimal, packet: seq<Byte>) returns (c: Word)
    requires crc32.Valid() && crc32.Settings() == Crc32()
    modifies crc32`remainder
    ensures crc32.Valid() && crc32.Settings() == Crc32()
    ensures c == Cast(Crc32().Checksum(packet), crc32.w)
  {
    hide Crc32;
    crc32.Reset(crc32.initRem);
    crc32.ProcessBlock(packet);
    c := crc32.Checksum();
  }

  /** The slow and the fast computer agree on every message, at every width and in every flag setting,
      also when their words differ in size. */
  method SlowAndFastAgree(p: Params, slowWord: nat, fastWord: nat, bytes: seq<Byte>)
    returns (slow: Word, fast: Word)
    requires p.Valid() && p.Width() <= slowWord && p.Width() <= fastWord && CHAR_BIT <= fastWord
    ensures slow == Cast(p.Checksum(bytes), slowWord)
    ensures fast == Cast(p.Checksum(bytes), fastWord)
  {
    var n := p.Width();
    CastCast(p.poly, slowWord);
    CastCast(p.init, slowWord);
    CastCast(p.final, slowWord);
    CastCast(p.poly, fastWord);
    CastCast(p.init, fastWord);
    CastCast(p.final, fastWord);
    var basic := new CrcBasic(n, slowWord, Cast(p.poly, slowWord), Cast(p.init, slowWord),
                              Cast(p.final, slowWord), p.reflectIn, p.reflectRem);
    basic.ProcessBlock(bytes);
    slow := basic.Checksum();
    var table := new CrcTable(n, fastWord, Cast(p.poly, fastWord), p.reflectIn);
    fast := Crc(table, Cast(p.init, fastWord), Cast(p.final, fastWord), p.reflectRem, bytes);
  }

  lemma {:induction false} CastCast(a: Word, w: nat)
    requires |a| <= w
    ensures Cast(Cast(a, w), |a|) == a
  {
  }

  /** Reading the interim remainder after part of a message and resetting another computer of the same
      kind to it continues the message. */
  method InterruptAndResume(first: CrcOptimal, second: CrcOptimal, a: seq<Byte>, b: seq<Byte>)
    returns (c: Word)
    requires first.Valid() && second.Valid()
    requires first.w == second.w && first.Settings() == second.Settings()
    modifies first`remainder, second`remainder
    ensures first.Valid() && second.Valid()
    ensures c == Cast(first.Settings().Finish(
                        FeedBytes(first.Settings().poly, old(first.Register()), first.reflectIn, a + b)), first.w)
  {
    ghost var r := first.Register();
    first.ProcessBlock(a);
    var interim := first.GetInterimRemainder();
    CastCast(first.Register(), first.w);
    second.Reset(interim);
    second.ProcessBlock(b);
    FeedBytesConcat(first.Settings().poly, r, first.reflectIn, a, b);
    c := second.Checksum();
  }

  // ----- augmented_crc -----

  /** The table-driven form for messages that carry room for their CRC. */
  method AugmentedCrc(table: CrcTable, initialRemainder: Word, bytes: seq<Byte>) returns (c: Word)
    requires table.Valid() && !table.reflect && CHAR_BIT <= table.n && |initialRemainder| == table.w
    modifies table`didInit, table.entries
    ensures table.Valid()
    ensures c == Cast(AugFeed(Cast(table.poly, table.n), Cast(initialRemainder, table.n),
                              MessageBits(false, bytes)), table.w)
  {
    var n := table.n;
    ghost var poly, init := Cast(table.poly, n), Cast(initialRemainder, n);
    var rem := initialRemainder;
    table.InitTable();
    assert bytes[..0] == [];
    for p := 0 to |bytes|
      invariant table.Valid() && table.didInit
      invariant |rem| == table.w
      invariant Cast(rem, n) == AugFeed(poly, init, MessageBits(false, bytes[..p]))
    {
      ghost var before := rem;
      var byteIndex: Byte := Cast(Shr(rem, n - CHAR_BIT), CHAR_BIT);
      table.Lookup(byteIndex);
      rem := Shl(rem, CHAR_BIT);
      rem := Or(rem, Cast(bytes[p], |rem|));
      rem := Xor(rem, table.entries[ToNat(byteIndex)]);
      AugmentedStep(poly, before, bytes[p], table.entries[ToNat(byteIndex)]);
      assert bytes[..p + 1][..p] == bytes[..p];
      AugFeedConcat(poly, init, MessageBits(false, bytes[..p]), MsbFirst(bytes[p]));
    }
    assert bytes[..|bytes|] == bytes;
    c := Mask(rem, n);
  }

  lemma {:induction false} AugmentedStep(poly: Word, rem: Word, x: Byte, entry: Word)
    requires CHAR_BIT <= |poly| <= |rem| == |entry|
    requires Cast(entry, |poly|)
          == Feed(poly, Zeros(|poly|), MsbFirst(Cast(Shr(rem, |poly| - CHAR_BIT), CHAR_BIT)))
    ensures Cast(Xor(Or(Shl(rem, CHAR_BIT), Cast(x, |rem|)), entry), |poly|)
         == AugFeed(poly, Cast(rem, |poly|), MsbFirst(x))
  {
    var n := |poly|;
    TopByte(rem, n);
    CastXor(Or(Shl(rem, CHAR_BIT), Cast(x, |rem|)), entry, n);
    CastOrLow(rem, x, n);
    AugFeedByte(poly, Cast(rem, n), x);
  }

  lemma {:induction false} AugFeedByte(poly: Word, r: Word, x: Byte)
    requires |poly| == |r| >= CHAR_BIT
    ensures AugFeed(poly, r, MsbFirst(x))
         == Xor(Or(Shl(r, CHAR_BIT), Cast(x, |r|)), Feed(poly, Zeros(|r|), TopBits(r, CHAR_BIT)))
  {
    ReverseInvolution(x);
    AugFeedSplit(poly, r, MsbFirst(x));
  }

  lemma {:induction false} TopByte(rem: Word, n: nat)
    requires CHAR_BIT <= n <= |rem|
    ensures MsbFirst(Cast(Shr(rem, n - CHAR_BIT), CHAR_BIT)) == TopBits(Cast(rem, n), CHAR_BIT)
  {
  }

  lemma {:induction false} CastOrLow(rem: Word, x: Byte, n: nat)
    requires CHAR_BIT <= n <= |rem|
    ensures Cast(Or(Shl(rem, CHAR_BIT), Cast(x, |rem|)), n) == Or(Shl(Cast(rem, n), CHAR_BIT), Cast(x, n))
  {
  }

  /** For a byte-multiple width: augmenting a message with zero bytes yields its plain CRC. */
  lemma {:induction false} AugmentedZeroBytes(poly: Word, r: Word, bytes: seq<Byte>, k: nat)
    requires |poly| == |r| == 8 * k > 0
    ensures AugFeed(poly, r, MessageBits(false, bytes + ZeroBytes(k)))
         == FeedBytes(poly, Lift(poly, r), false, bytes)
    ensures r == Zeros(|r|)
        ==> AugFeed(poly, r, MessageBits(false, bytes + ZeroBytes(k))) == FeedBytes(poly, r, false, bytes)
  {
    MessageBitsConcat(false, bytes, ZeroBytes(k));
    MessageBitsZeros(k);
    AugmentedIsPlain(poly, r, MessageBits(false, bytes));
  }

  /** For a byte-multiple width: a message with k bytes appended checks to zero exactly when those bytes
      are its CRC, most significant byte first. */
  lemma {:induction false} AugmentedCheckBytes(poly: Word, r: Word, bytes: seq<Byte>, tail: seq<Byte>)
    requires |poly| == |r| == 8 * |tail| > 0
    ensures AugFeed(poly, r, MessageBits(false, bytes + tail)) == Zeros(|r|)
       <==> MessageBits(false, tail) == MsbFirst(FeedBytes(poly, Lift(poly, r), false, bytes))
    ensures r == Zeros(|r|) ==> Lift(poly, r) == r
  {
    MessageBitsConcat(false, bytes, tail);
    AugmentedAcceptsOnlyCrc(poly, r, MessageBits(false, bytes), MessageBits(false, tail));
    LiftLowBit(poly);
  }
}
