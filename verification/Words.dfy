/** Unsigned machine words of any width, as bit sequences with the least significant bit first. */
module Words {

  type Word = seq<bool>

  type Byte = w: Word | |w| == 8 witness Zeros(8)

  function Zeros(n: nat): (w: Word)
    ensures |w| == n
  {
    seq(n, i => false)
  }

  function ZeroByte(): Byte {
    Zeros(8)
  }

  function Xor(a: Word, b: Word): (w: Word)
    requires |a| == |b|
    ensures |w| == |a|
  {
    seq(|a|, i requires 0 <= i < |a| => a[i] != b[i])
  }

  function Or(a: Word, b: Word): (w: Word)
    requires |a| == |b|
    ensures |w| == |a|
  {
    seq(|a|, i requires 0 <= i < |a| => a[i] || b[i])
  }

  /** `a << k`: bits shifted past the width are lost. */
  function Shl(a: Word, k: nat): (w: Word)
    ensures |w| == |a|
  {
    seq(|a|, i requires 0 <= i < |a| => i >= k && a[i - k])
  }

  /** `a >> k`. */
  function Shr(a: Word, k: nat): (w: Word)
    ensures |w| == |a|
  {
    seq(|a|, i requires 0 <= i < |a| => i + k < |a| && a[i + k])
  }

  /** Conversion to an unsigned type of `n` bits: zero-extends or truncates. */
  function Cast(a: Word, n: nat): (w: Word)
    ensures |w| == n
  {
    seq(n, i requires 0 <= i < n => i < |a| && a[i])
  }

  /** `a & ((1 << n) - 1)`. */
  function Mask(a: Word, n: nat): (w: Word)
    ensures |w| == |a|
  {
    Cast(Cast(a, n), |a|)
  }

  /** The word of width `n` whose only bit set is bit `k`. */
  function OneBit(n: nat, k: nat): (w: Word)
    requires k < n
    ensures |w| == n
  {
    Zeros(n)[k := true]
  }

  function Reverse<T>(a: seq<T>): (r: seq<T>)
    ensures |r| == |a|
  {
    seq(|a|, i requires 0 <= i < |a| => a[|a| - 1 - i])
  }

  /** The bits of a word in the order a shift register consumes them: most significant first. */
  function MsbFirst(a: Word): (bits: seq<bool>)
    ensures |bits| == |a|
  {
    Reverse(a)
  }

  function CondXor(a: Word, b: Word, c: bool): (w: Word)
    requires |a| == |b|
    ensures |w| == |a|
  {
    if c then Xor(a, b) else a
  }

  lemma {:induction false} ReverseInvolution<T>(a: seq<T>)
    ensures Reverse(Reverse(a)) == a
  {
    forall i | 0 <= i < |a| ensures Reverse(Reverse(a))[i] == a[i] {
    }
  }

  lemma {:induction false} ReverseXor(a: Word, b: Word)
    requires |a| == |b|
    ensures Reverse(Xor(a, b)) == Xor(Reverse(a), Reverse(b))
  {
  }

  lemma {:induction false} XorZero(a: Word)
    ensures Xor(a, Zeros(|a|)) == a
    ensures Xor(Zeros(|a|), a) == a
    ensures Xor(a, a) == Zeros(|a|)
  {
  }

  lemma {:induction false} XorAssociative(a: Word, b: Word, c: Word)
    requires |a| == |b| == |c|
    ensures Xor(Xor(a, b), c) == Xor(a, Xor(b, c))
  {
  }

  lemma {:induction false} XorTwice(a: Word, b: Word)
    requires |a| == |b|
    ensures Xor(b, Xor(a, b)) == a
  {
  }

  lemma {:induction false} XorConcat(a: Word, b: Word, c: Word, d: Word)
    requires |a| == |c| && |b| == |d|
    ensures Xor(a + b, c + d) == Xor(a, c) + Xor(b, d)
  {
  }

  lemma {:induction false} ShlOnce(a: Word, k: nat)
    ensures Shl(Shl(a, k), 1) == Shl(a, k + 1)
  {
  }

  lemma {:induction false} XorCancel(a: Word, b: Word)
    requires |a| == |b|
    ensures Xor(a, b) == Zeros(|a|) <==> a == b
  {
    if Xor(a, b) == Zeros(|a|) {
      forall i | 0 <= i < |a| ensures a[i] == b[i] {
        assert Xor(a, b)[i] == Zeros(|a|)[i];
      }
    } else if a == b {
      XorZero(a);
    }
  }

  // ----- numbers -----

  function ToNat(a: Word): (v: nat)
  {
    if a == [] then 0 else (if a[0] then 1 else 0) + 2 * ToNat(a[1..])
  }

  function FromNat(v: nat, n: nat): (a: Word)
    ensures |a| == n
  {
    if n == 0 then [] else [v % 2 == 1] + FromNat(v / 2, n - 1)
  }

  function Pow2(n: nat): (p: nat)
    ensures p > 0
  {
    if n == 0 then 1 else 2 * Pow2(n - 1)
  }

  /** Words of width n and numbers below 2^n are in bijection. */
  lemma {:induction false} ToNatFromNat(v: nat, n: nat)
    requires v < Pow2(n)
    ensures ToNat(FromNat(v, n)) == v
  {
    if n > 0 {
      ToNatFromNat(v / 2, n - 1);
      assert FromNat(v, n)[1..] == FromNat(v / 2, n - 1);
    }
  }

  lemma {:induction false} FromNatToNat(a: Word)
    ensures ToNat(a) < Pow2(|a|)
    ensures FromNat(ToNat(a), |a|) == a
  {
    if a != [] {
      FromNatToNat(a[1..]);
      assert a == [a[0]] + a[1..];
    }
  }
}
