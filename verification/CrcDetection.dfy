/**
 What a cyclic redundancy code is for: it notices every change that stays inside a window as wide as the register,
 exactly when its polynomial has a constant term.
 */
module CrcDetection {
  import opened Words
  import opened CrcSpec

  /** a and b agree outside the window of n bits that begins at bit lo. */
  ghost predicate DifferWithin(a: seq<bool>, b: seq<bool>, lo: nat, n: nat) {
    |a| == |b| && forall i :: 0 <= i < |a| && !(lo <= i < lo + n) ==> a[i] == b[i]
  }

  lemma {:induction false} ZerosLeaveZero(poly: Word, k: nat)
    requires |poly| > 0
    ensures Feed(poly, Zeros(|poly|), Zeros(k)) == Zeros(|poly|)
  {
    if k > 0 {
      ZerosLeaveZero(poly, k - 1);
      assert Zeros(k)[..k - 1] == Zeros(k - 1);
      assert Shl(Zeros(|poly|), 1) == Zeros(|poly|);
    }
  }

  /** With a constant term, a register that is not zero stays so while zeros come in. */
  lemma {:induction false} ZeroStepKeeps(poly: Word, r: Word)
    requires |poly| == |r| > 0 && poly[0]
    ensures Step(poly, r, false) == Zeros(|r|) ==> r == Zeros(|r|)
  {
    var n := |r|;
    var s := Step(poly, r, false);
    if s == Zeros(n) {
      assert s[0] == r[n - 1];
      forall i | 0 <= i < n - 1 ensures !r[i] {
        assert Shl(r, 1)[i + 1] == r[i];
        assert s[i + 1] == r[i];
      }
    }
  }

  lemma {:induction false} ZerosKeep(poly: Word, r: Word, k: nat)
    requires |poly| == |r| > 0 && poly[0]
    ensures Feed(poly, r, Zeros(k)) == Zeros(|r|) ==> r == Zeros(|r|)
  {
    if k > 0 {
      assert Zeros(k)[..k - 1] == Zeros(k - 1);
      ZeroStepKeeps(poly, Feed(poly, r, Zeros(k - 1)));
      ZerosKeep(poly, r, k - 1);
    }
  }

  /** A register's width of bits from an empty register: zero only if they all are. */
  lemma {:induction false} WindowKeeps(poly: Word, bits: seq<bool>)
    requires |poly| == |bits| > 0 && poly[0]
    ensures Feed(poly, Zeros(|poly|), bits) == Zeros(|poly|) ==> bits == Zeros(|bits|)
  {
    var n := |poly|;
    var r := Reverse(bits);
    FeedSplit(poly, r, Zeros(n));
    assert TopBits(r, n) == bits;
    XorZero(bits);
    assert Shl(r, n) == Zeros(n);
    XorZero(Feed(poly, Zeros(n), bits));
    ZerosKeep(poly, r, n);
    ReverseInvolution(bits);
    assert Reverse(Zeros(n)) == Zeros(n);
  }

  lemma {:induction false} PadWindow(d: seq<bool>, lo: nat, n: nat)
    requires forall i :: 0 <= i < |d| && !(lo <= i < lo + n) ==> !d[i]
    requires lo <= |d|
    ensures var w := seq(n, i requires 0 <= i < n => lo + i < |d| && d[lo + i]);
      d + Zeros(lo + n) == Zeros(lo) + w + Zeros(|d|)
  {
  }

  /** Every change inside the window reaches the register. */
  lemma {:induction false} BurstReachesRegister(poly: Word, r: Word, a: seq<bool>, b: seq<bool>, lo: nat)
    requires |poly| == |r| > 0 && poly[0]
    requires DifferWithin(a, b, lo, |poly|) && lo <= |a| && a != b
    ensures Feed(poly, r, a) != Feed(poly, r, b)
  {
    hide Feed;
    var n, d := |poly|, Xor(a, b);
    var z := Zeros(n);
    var w := seq(n, i requires 0 <= i < n => lo + i < |d| && d[lo + i]);
    FeedLinear(poly, r, r, a, b);
    XorZero(r);
    XorCancel(Feed(poly, r, a), Feed(poly, r, b));
    PadWindow(d, lo, n);
    FeedConcat(poly, z, d, Zeros(lo + n));
    FeedConcat(poly, z, Zeros(lo) + w, Zeros(|d|));
    FeedConcat(poly, z, Zeros(lo), w);
    ZerosLeaveZero(poly, lo);
    ZerosLeaveZero(poly, lo + n);
    ZerosKeep(poly, Feed(poly, z, w), |d|);
    WindowKeeps(poly, w);
    var i :| 0 <= i < |a| && a[i] != b[i];
    assert w[i - lo];
    assert w != Zeros(n);
  }

  lemma {:induction false} SameParts(a: seq<bool>, b: seq<bool>, c: seq<bool>, d: seq<bool>)
    requires |a| == |c| && a + b == c + d
    ensures a == c && b == d
  {
    assert a == (a + b)[..|a|] && c == (c + d)[..|c|];
    assert b == (a + b)[|a|..] && d == (c + d)[|c|..];
  }

  lemma {:induction false} ByteBitsDistinguish(reflectIn: bool, x: Byte, y: Byte)
    requires ByteBits(reflectIn, x) == ByteBits(reflectIn, y)
    ensures x == y
  {
    ReverseInvolution(x);
    ReverseInvolution(y);
  }

  lemma {:induction false} MessageBitsDistinguish(reflectIn: bool, a: seq<Byte>, b: seq<Byte>)
    requires |a| == |b| && MessageBits(reflectIn, a) == MessageBits(reflectIn, b)
    ensures a == b
  {
    hide ByteBits;
    if a != [] {
      var k := |a| - 1;
      SameParts(MessageBits(reflectIn, a[..k]), ByteBits(reflectIn, a[k]),
                MessageBits(reflectIn, b[..k]), ByteBits(reflectIn, b[k]));
      MessageBitsDistinguish(reflectIn, a[..k], b[..k]);
      ByteBitsDistinguish(reflectIn, a[k], b[k]);
      assert a == a[..k] + [a[k]] && b == b[..k] + [b[k]];
    }
  }

  lemma {:induction false} FinishDistinguishes(p: Params, r: Word, s: Word)
    requires p.Valid() && |r| == |s| == p.Width() && p.Finish(r) == p.Finish(s)
    ensures r == s
  {
    var x, y := if p.reflectRem then Reverse(r) else r, if p.reflectRem then Reverse(s) else s;
    XorTwice(x, p.final);
    XorTwice(y, p.final);
    ReverseInvolution(r);
    ReverseInvolution(s);
  }

  /** Two different messages of one length that differ only inside a window of the register's width, in the order in
      which their bits are read, have different checksums, whatever the start, the final XOR and the flags. */
  lemma {:induction false} BurstChangesChecksum(p: Params, a: seq<Byte>, b: seq<Byte>, lo: nat)
    requires p.Valid() && p.poly[0] && |a| == |b| && a != b && lo <= 8 * |a|
    requires DifferWithin(MessageBits(p.reflectIn, a), MessageBits(p.reflectIn, b), lo, p.Width())
    ensures p.Checksum(a) != p.Checksum(b)
  {
    hide MessageBits;
    var x, y := MessageBits(p.reflectIn, a), MessageBits(p.reflectIn, b);
    if x == y {
      MessageBitsDistinguish(p.reflectIn, a, b);
    } else {
      BurstReachesRegister(p.poly, p.init, x, y, lo);
      if p.Checksum(a) == p.Checksum(b) {
        FinishDistinguishes(p, Feed(p.poly, p.init, x), Feed(p.poly, p.init, y));
      }
    }
  }

  /** The change that a polynomial without a constant term loses: the register that one step clears. */
  function LostChange(poly: Word): (r: Word)
    requires |poly| > 0
    ensures |r| == |poly| && r[|poly| - 1]
  {
    Shr(poly, 1)[|poly| - 1 := true]
  }

  lemma {:induction false} LostChangeIsLost(poly: Word)
    requires |poly| > 0 && !poly[0]
    ensures Feed(poly, Zeros(|poly|), MsbFirst(LostChange(poly))) == Zeros(|poly|)
  {
    hide Feed;
    var n, s := |poly|, LostChange(poly);
    var bits := MsbFirst(s);
    FeedSplit(poly, s, Zeros(n));
    assert TopBits(s, n) == bits;
    XorZero(bits);
    assert Shl(s, n) == Zeros(n);
    XorZero(Feed(poly, Zeros(n), bits));
    assert Zeros(n) == [false] + Zeros(n - 1);
    FeedConcat(poly, s, [false], Zeros(n - 1));
    FeedOne(poly, s, false);
    assert Shl(s, 1) == poly;
    XorZero(poly);
    assert Step(poly, s, false) == Zeros(n);
    ZerosLeaveZero(poly, n - 1);
  }

  /** Every change inside a window of the register's width is noticed, from every start. */
  ghost predicate NoticesBursts(poly: Word)
    requires |poly| > 0
  {
    forall r: Word, a: seq<bool>, b: seq<bool>, lo: nat ::
      |r| == |poly| && DifferWithin(a, b, lo, |poly|) && lo <= |a| && a != b ==> Feed(poly, r, a) != Feed(poly, r, b)
  }

  lemma {:induction false} NoticesBurstsExactly(poly: Word)
    requires |poly| > 0
    ensures NoticesBursts(poly) <==> poly[0]
  {
    hide Feed;
    if poly[0] {
      forall r: Word, a: seq<bool>, b: seq<bool>, lo: nat
        | |r| == |poly| && DifferWithin(a, b, lo, |poly|) && lo <= |a| && a != b
        ensures Feed(poly, r, a) != Feed(poly, r, b)
      {
        BurstReachesRegister(poly, r, a, b, lo);
      }
    } else {
      var z, bits := Zeros(|poly|), MsbFirst(LostChange(poly));
      LostChangeIsLost(poly);
      ZerosLeaveZero(poly, |poly|);
      assert bits[0] && !z[0];
      assert DifferWithin(bits, z, 0, |poly|);
    }
  }

  lemma {:induction false} LowBit(v: nat, n: nat)
    requires n > 0
    ensures FromNat(v, n)[0] <==> v % 2 == 1
  {
  }

  /** The packets' CRC-32 notices every burst of up to 32 bits. */
  lemma {:induction false} Crc32NoticesBursts()
    ensures NoticesBursts(Crc32().poly)
  {
    hide FromNat, NoticesBursts;
    LowBit(0x04C11DB7, 32);
    NoticesBurstsExactly(Crc32().poly);
  }
}
