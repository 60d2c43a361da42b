/** Machine words as the bits they hold, most significant bit first.
    A u8, u16 or u32 of the source is a Word of 8, 16 or 32 bits, and each C operator on
    unsigned words is a function on bits.  The lemmas at the end tie those functions to
    the arithmetic C defines them by. */
module Words {

  type Word = seq<bool>
  type Byte = w: Word | |w| == 8 witness seq(8, _ => false)

  function Zeros(n: nat): (w: Word) {
    seq(n, _ => false)
  }

  function Xor(a: Word, b: Word): (c: Word)
    requires |a| == |b|
  {
    seq(|a|, i requires 0 <= i < |a| => a[i] != b[i])
  }

  function Not(a: Word): Word {
    seq(|a|, i requires 0 <= i < |a| => !a[i])
  }

  /** w << 1, the top bit falling off */
  function Shl(w: Word): Word
    requires |w| > 0
  {
    w[1..] + [false]
  }

  /** w >> 1 */
  function Shr(w: Word): Word
    requires |w| > 0
  {
    [false] + w[..|w| - 1]
  }

  /** (w << 1) | bit */
  function ShiftIn(w: Word, bit: bool): Word
    requires |w| > 0
  {
    w[1..] + [bit]
  }

  /** The number a word holds */
  function Val(w: Word): nat {
    if w == [] then 0 else 2 * Val(w[..|w| - 1]) + if w[|w| - 1] then 1 else 0
  }

  /** The low bits of n, as C keeps them on conversion to a narrower word */
  function FromNat(n: nat, width: nat): (w: Word)
    ensures |w| == width
  {
    if width == 0 then [] else FromNat(n / 2, width - 1) + [n % 2 == 1]
  }

  function Reverse(w: Word): (r: Word)
    ensures |r| == |w|
    ensures forall i :: 0 <= i < |w| ==> r[i] == w[|w| - 1 - i]
  {
    seq(|w|, i requires 0 <= i < |w| => w[|w| - 1 - i])
  }

  function Pow2(n: nat): nat {
    if n == 0 then 1 else 2 * Pow2(n - 1)
  }

  /** a & b of unsigned numbers */
  function And(a: nat, b: nat): nat {
    if a == 0 || b == 0 then 0
    else (if a % 2 == 1 && b % 2 == 1 then 1 else 0) + 2 * And(a / 2, b / 2)
  }

  // ---------------------------------------------------------------- bit algebra

  lemma XorSelf(a: Word)
    ensures Xor(a, a) == Zeros(|a|)
  {
  }

  lemma XorZeros(a: Word)
    ensures Xor(a, Zeros(|a|)) == a
    ensures Xor(Zeros(|a|), a) == a
  {
  }

  lemma XorAppend(a: Word, b: Word, c: Word, d: Word)
    requires |a| == |c| && |b| == |d|
    ensures Xor(a + b, c + d) == Xor(a, c) + Xor(b, d)
  {
  }

  lemma XorAssoc(a: Word, b: Word, c: Word)
    requires |a| == |b| == |c|
    ensures Xor(Xor(a, b), c) == Xor(a, Xor(b, c))
  {
  }

  /** Two words with the same difference from a third are equal. */
  lemma XorCancel(a: Word, b: Word, c: Word)
    requires |a| == |b| == |c|
    requires Xor(a, b) == Xor(a, c)
    ensures b == c
  {
    forall i | 0 <= i < |b|
      ensures b[i] == c[i]
    {
      assert Xor(a, b)[i] == Xor(a, c)[i];
    }
  }

  lemma ReverseTwice(w: Word)
    ensures Reverse(Reverse(w)) == w
  {
  }

  lemma ReverseXor(a: Word, b: Word)
    requires |a| == |b|
    ensures Reverse(Xor(a, b)) == Xor(Reverse(a), Reverse(b))
  {
  }

  lemma ReverseAppend(a: Word, b: Word)
    ensures Reverse(a + b) == Reverse(b) + Reverse(a)
  {
  }

  // ---------------------------------------------------------------- bits and numbers

  lemma {:induction false} ValBound(w: Word)
    ensures Val(w) < Pow2(|w|)
  {
    if w == [] {
    } else {
      ValBound(w[..|w| - 1]);
    }
  }

  lemma {:induction false} FromVal(w: Word)
    ensures FromNat(Val(w), |w|) == w
  {
    if w == [] {
    } else {
      FromVal(w[..|w| - 1]);
      assert w == w[..|w| - 1] + [w[|w| - 1]];
    }
  }

  /** Widening a number that fits adds zero bits on top. */
  lemma {:induction false} FromNatWide(n: nat, width: nat, extra: nat)
    requires n < Pow2(width)
    ensures FromNat(n, extra + width) == Zeros(extra) + FromNat(n, width)
  {
    if width > 0 {
      FromNatWide(n / 2, width - 1, extra);
      assert Zeros(extra) + (FromNat(n / 2, width - 1) + [n % 2 == 1])
          == (Zeros(extra) + FromNat(n / 2, width - 1)) + [n % 2 == 1];
    } else {
      FromNatZero(extra);
    }
  }

  lemma {:induction false} FromNatZero(width: nat)
    ensures FromNat(0, width) == Zeros(width)
  {
    if width == 0 {
    } else {
      FromNatZero(width - 1);
    }
  }

  lemma {:induction false} ValTop(w: Word)
    requires w != []
    ensures Val(w) == (if w[0] then Pow2(|w| - 1) else 0) + Val(w[1..])
  {
    if |w| <= 1 {
    } else {
      var v := w[..|w| - 1];
      ValTop(v);
      assert w[1..][..|w| - 2] == v[1..];
    }
  }

  /** Testing the top bit and shifting in a bit mean what C says they mean for an unsigned
      word: a shift left doubles the number and wraps once exactly when it does not fit. */
  lemma ShiftLeftArithmetic(w: Word, bit: bool)
    requires w != []
    ensures w[0] <==> 2 * Val(w) >= Pow2(|w|)
    ensures Val(ShiftIn(w, bit)) == 2 * Val(w) - (if w[0] then Pow2(|w|) else 0) + if bit then 1 else 0
  {
    ValTop(w);
    var rest := w[1..];
    ValBound(rest);
    var v := ShiftIn(w, bit);
    assert v[..|v| - 1] == rest && v[|v| - 1] == bit;
    assert Pow2(|w|) == 2 * Pow2(|rest|);
  }

  /** Testing the low bit and shifting right mean parity and halving. */
  lemma ShiftRightArithmetic(w: Word)
    requires w != []
    ensures Val(w) == 2 * Val(Shr(w)) + if w[|w| - 1] then 1 else 0
  {
    var half := w[..|w| - 1];
    assert Shr(w)[1..] == half;
    ValTop(Shr(w));
  }

  lemma ValSnoc(w: Word, bit: bool)
    ensures Val(w + [bit]) == 2 * Val(w) + if bit then 1 else 0
  {
    assert (w + [bit])[..|w|] == w;
  }

  /** ~w is what is missing to all ones. */
  lemma {:induction false} NotArithmetic(w: Word)
    ensures |Not(w)| == |w| && Val(Not(w)) == Pow2(|w|) - 1 - Val(w)
  {
    if w == [] {
    } else {
      var init, last := w[..|w| - 1], w[|w| - 1];
      NotArithmetic(init);
      assert w == init + [last] && Not(w) == Not(init) + [!last];
      ValSnoc(init, last);
      ValSnoc(Not(init), !last);
    }
  }

  /** A byte is the sum of its bits' weights, the first bit's being 128. */
  lemma ByteArithmetic(b: Byte)
    ensures Val(b) == (if b[0] then 128 else 0) + (if b[1] then 64 else 0) + (if b[2] then 32 else 0)
      + (if b[3] then 16 else 0) + (if b[4] then 8 else 0) + (if b[5] then 4 else 0)
      + (if b[6] then 2 else 0) + if b[7] then 1 else 0
  {
    NibbleArithmetic([], b[..4]);
    NibbleArithmetic(b[..4], b[4..]);
    assert [] + b[..4] == b[..4] && b[..4] + b[4..] == b;
  }

  lemma NibbleArithmetic(w: Word, d: Word)
    requires |d| == 4
    ensures Val(w + d) == 16 * Val(w) + (if d[0] then 8 else 0) + (if d[1] then 4 else 0)
      + (if d[2] then 2 else 0) + if d[3] then 1 else 0
  {
    assert w + d == (((w + [d[0]]) + [d[1]]) + [d[2]]) + [d[3]];
    ValSnoc(w, d[0]);
    ValSnoc(w + [d[0]], d[1]);
    ValSnoc((w + [d[0]]) + [d[1]], d[2]);
    ValSnoc(((w + [d[0]]) + [d[1]]) + [d[2]], d[3]);
  }
}
