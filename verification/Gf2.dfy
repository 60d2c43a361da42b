/** Polynomials over GF(2), and division by x^w + g as the CRC routines do it.
    A polynomial is the Word of its coefficients, highest power first; g is the generator
    without its leading x^w term, as the source stores it. */
module Gf2 {
  import opened Common
  import opened Words

  // ---------------------------------------------------------------- the specification

  /** Schoolbook product: |a| + |b| - 1 coefficients. */
  function PolyMul(a: Word, b: Word): (p: Word)
    requires b != []
    ensures |p| == |a| + |b| - 1
  {
    if a == [] then Zeros(|b| - 1) else
    Xor((if a[0] then b else Zeros(|b|)) + Zeros(|a| - 1), [false] + PolyMul(a[1..], b))
  }

  /** q is a quotient and r the remainder of s divided by x^|g| + g. */
  ghost predicate Divides(s: Word, g: Word, q: Word, r: Word) {
    && |q| == |s|
    && |r| == |g|
    && Zeros(|g|) + s == Xor(PolyMul(q, [true] + g), Zeros(|s|) + r)
  }

  /** r is s modulo x^|g| + g. */
  ghost predicate IsRemainder(s: Word, g: Word, r: Word) {
    exists q :: Divides(s, g, q, r)
  }

  // ---------------------------------------------------------------- the shift register

  /** One turn of the register: shift a message bit in, and reduce when a bit falls out. */
  function Step(r: Word, bit: bool, g: Word): (r': Word)
    requires |r| == |g| > 0
    ensures |r'| == |g|
  {
    if r[0] then Xor(ShiftIn(r, bit), g) else ShiftIn(r, bit)
  }

  function Divide(r: Word, s: Word, g: Word): (r': Word)
    requires |r| == |g| > 0
    ensures |r'| == |g|
    decreases s
  {
    if s == [] then r else Divide(Step(r, s[0], g), s[1..], g)
  }

  /** The bits that fall out of the register: the quotient. */
  function Quotient(r: Word, s: Word, g: Word): (q: Word)
    requires |r| == |g| > 0
    ensures |q| == |s|
    decreases s
  {
    if s == [] then [] else [r[0]] + Quotient(Step(r, s[0], g), s[1..], g)
  }

  /** The CRC of a message: w zero bits are run through the register after it. */
  function Crc(m: Word, g: Word): (c: Word)
    requires g != []
    ensures |c| == |g|
  {
    Divide(Zeros(|g|), m + Zeros(|g|), g)
  }

  lemma {:induction false} DivideAppend(r: Word, s: Word, t: Word, g: Word)
    requires |r| == |g| > 0
    ensures Divide(r, s + t, g) == Divide(Divide(r, s, g), t, g)
    decreases s
  {
    if s == [] {
      assert s + t == t;
    } else {
      TailOfAppend(s, t);
      DivideAppend(Step(r, s[0], g), s[1..], t, g);
    }
  }

  lemma DivideSnoc(r: Word, s: Word, bit: bool, g: Word)
    requires |r| == |g| > 0
    ensures Divide(r, s + [bit], g) == Step(Divide(r, s, g), bit, g)
  {
    DivideAppend(r, s, [bit], g);
    assert [bit][1..] == [];
  }

  // ---------------------------------------------------------------- correctness of division

  /** What is in the register and still to come is, at every turn, the quotient still to
      come times the generator plus the final register. */
  lemma {:induction false} DivideCorrect(r: Word, s: Word, g: Word)
    requires |r| == |g| > 0
    ensures r + s == Xor(PolyMul(Quotient(r, s, g), [true] + g), Zeros(|s|) + Divide(r, s, g))
    decreases s
  {
    var b := [true] + g;
    if s == [] {
      assert r + s == r;
      assert Zeros(0) + r == r;
      XorZeros(r);
    } else {
      var s', r' := s[1..], Step(r, s[0], g);
      var q', d := Quotient(r', s', g), Divide(r', s', g);
      DivideCorrect(r', s', g);
      var q := Quotient(r, s, g);
      assert q[1..] == q';
      var head := (if r[0] then b else Zeros(|b|)) + Zeros(|s'|);
      var rest := Zeros(|s'|) + d;
      StepHead(r, s, g);
      AddLeading(head, PolyMul(q', b), rest, r' + s');
      assert Zeros(|s|) + d == [false] + rest;
    }
  }

  lemma AddLeading(head: Word, p: Word, rest: Word, sum: Word)
    requires |p| == |rest| == |sum| && |head| == |p| + 1
    requires sum == Xor(p, rest)
    ensures Xor(head, [false] + sum) == Xor(Xor(head, [false] + p), [false] + rest)
  {
  }

  lemma StepHead(r: Word, s: Word, g: Word)
    requires |r| == |g| > 0 && s != []
    ensures var b := [true] + g;
      r + s == Xor((if r[0] then b else Zeros(|b|)) + Zeros(|s| - 1), [false] + (Step(r, s[0], g) + s[1..]))
  {
    var b := [true] + g;
    var head := (if r[0] then b else Zeros(|b|)) + Zeros(|s| - 1);
    var tail := [false] + (Step(r, s[0], g) + s[1..]);
    forall i | 0 <= i < |r + s|
      ensures (r + s)[i] == (head[i] != tail[i])
    {
      if 0 < i <= |g| {
        assert tail[i] == Step(r, s[0], g)[i - 1];
        assert ShiftIn(r, s[0])[i - 1] == (r + s)[i];
      }
    }
  }

  /** Division is unique: one quotient and one remainder. */
  lemma {:induction false} DivideUnique(q: Word, r: Word, q': Word, r': Word, g: Word)
    requires |q| == |q'| && |r| == |r'| == |g|
    requires Xor(PolyMul(q, [true] + g), Zeros(|q|) + r) == Xor(PolyMul(q', [true] + g), Zeros(|q|) + r')
    ensures q == q' && r == r'
  {
    var b := [true] + g;
    if q == [] {
      assert Zeros(0) + r == r && Zeros(0) + r' == r';
      XorCancel(Zeros(|g|), r, r');
    } else {
      var left, right := Xor(PolyMul(q, b), Zeros(|q|) + r), Xor(PolyMul(q', b), Zeros(|q|) + r');
      assert left[0] == q[0] && right[0] == q'[0];
      var head := (if q[0] then b else Zeros(|b|)) + Zeros(|q| - 1);
      var rest, rest' := Zeros(|q| - 1) + r, Zeros(|q| - 1) + r';
      var p, p' := PolyMul(q[1..], b), PolyMul(q'[1..], b);
      assert Zeros(|q|) + r == [false] + rest && Zeros(|q|) + r' == [false] + rest';
      XorAssoc(head, [false] + p, [false] + rest);
      XorAssoc(head, [false] + p', [false] + rest');
      XorCancel(head, Xor([false] + p, [false] + rest), Xor([false] + p', [false] + rest'));
      assert Xor([false] + p, [false] + rest)[1..] == Xor(p, rest);
      assert Xor([false] + p', [false] + rest')[1..] == Xor(p', rest');
      DivideUnique(q[1..], r, q'[1..], r', g);
      assert q == [q[0]] + q[1..] && q' == [q'[0]] + q'[1..];
    }
  }

  /** The register ends on the remainder, and on nothing else. */
  lemma DivideIsRemainder(s: Word, g: Word, r: Word)
    requires g != []
    ensures IsRemainder(s, g, r) <==> r == Divide(Zeros(|g|), s, g)
  {
    var q, d := Quotient(Zeros(|g|), s, g), Divide(Zeros(|g|), s, g);
    DivideCorrect(Zeros(|g|), s, g);
    assert Divides(s, g, q, d);
    if IsRemainder(s, g, r) {
      var q' :| Divides(s, g, q', r);
      DivideUnique(q', r, q, d, g);
    }
  }

  /** The CRC is m(x) x^w modulo the generator. */
  lemma CrcIsRemainder(m: Word, g: Word, r: Word)
    requires g != []
    ensures IsRemainder(m + Zeros(|g|), g, r) <==> r == Crc(m, g)
  {
    DivideIsRemainder(m + Zeros(|g|), g, r);
  }

  /** The message 1 has the generator itself for its CRC, however many zeros are before it. */
  lemma CrcOfOne(k: nat, g: Word)
    requires g != []
    ensures Crc(Zeros(k) + [true], g) == g
  {
    var w, z := |g|, Zeros(|g|);
    var r := [true] + Zeros(w - 1);
    CrcLeadingZeros(k, [true], g);
    assert [true] + z == r + [false];
    DivideLoadsAll(r, g);
    DivideSnoc(z, r, false, g);
    assert ShiftIn(r, false) == z;
    XorZeros(g);
  }

  // ---------------------------------------------------------------- linearity

  lemma StepXor(r: Word, bit: bool, r': Word, bit': bool, g: Word)
    requires |r| == |r'| == |g| > 0
    ensures Step(Xor(r, r'), bit != bit', g) == Xor(Step(r, bit, g), Step(r', bit', g))
  {
    var v, v' := ShiftIn(r, bit), ShiftIn(r', bit');
    assert ShiftIn(Xor(r, r'), bit != bit') == Xor(v, v');
  }

  lemma {:induction false} DivideXor(r: Word, s: Word, r': Word, s': Word, g: Word)
    requires |r| == |r'| == |g| > 0
    requires |s| == |s'|
    ensures Divide(Xor(r, r'), Xor(s, s'), g) == Xor(Divide(r, s, g), Divide(r', s', g))
    decreases s
  {
    if s == [] {
    } else {
      StepXor(r, s[0], r', s'[0], g);
      assert Xor(s, s')[1..] == Xor(s[1..], s'[1..]);
      DivideXor(Step(r, s[0], g), s[1..], Step(r', s'[0], g), s'[1..], g);
    }
  }

  /** While only zeros fall out, the register is a plain shift register. */
  lemma {:induction false} DivideShifts(r: Word, t: Word, s: Word, g: Word)
    requires |r| == |g| > 0
    requires r == Zeros(|s|) + t
    ensures Divide(r, s, g) == t + s
    decreases s
  {
    if s == [] {
      assert r == t == t + s;
    } else {
      var t' := t + [s[0]];
      assert Step(r, s[0], g) == Zeros(|s| - 1) + t';
      DivideShifts(Step(r, s[0], g), t', s[1..], g);
      assert t' + s[1..] == t + s;
    }
  }

  /** Into a zero register a word of no more bits just loads. */
  lemma DivideLoads(t: Word, s: Word, g: Word)
    requires |t| + |s| == |g| > 0
    requires t == Zeros(|t|)
    ensures Divide(Zeros(|g|), s, g) == t + s
  {
    var z := Zeros(|g|);
    assert z == Zeros(|s|) + t;
    DivideShifts(z, t, s, g);
  }

  lemma {:induction false} DivideZeros(k: nat, g: Word)
    requires g != []
    ensures Divide(Zeros(|g|), Zeros(k), g) == Zeros(|g|)
  {
    if k == 0 {
    } else {
      DivideZeros(k - 1, g);
      assert Step(Zeros(|g|), false, g) == Zeros(|g|);
      assert Zeros(k)[0] == false && Zeros(k)[1..] == Zeros(k - 1);
    }
  }

  /** XOR-linearity of the CRC. */
  lemma CrcXor(m: Word, m': Word, g: Word)
    requires g != [] && |m| == |m'|
    ensures Crc(Xor(m, m'), g) == Xor(Crc(m, g), Crc(m', g))
  {
    var z := Zeros(|g|);
    XorZeros(z);
    XorAppend(m, z, m', z);
    DivideXor(z, m + z, z, m' + z, g);
  }

  /** Zero bits in front of a message do not change its CRC. */
  lemma CrcLeadingZeros(k: nat, m: Word, g: Word)
    requires g != []
    ensures Crc(Zeros(k) + m, g) == Crc(m, g)
  {
    var z := Zeros(|g|);
    assert (Zeros(k) + m) + z == Zeros(k) + (m + z);
    DivideAppend(z, Zeros(k), m + z, g);
    DivideZeros(k, g);
  }

  // ---------------------------------------------------------------- what an odd generator adds

  /** A shift-and-reduce turn never maps a non-zero register to zero. */
  lemma StepKeepsNonZero(r: Word, g: Word)
    requires |r| == |g| > 0
    requires g[|g| - 1]
    requires r != Zeros(|g|)
    ensures Step(r, false, g) != Zeros(|g|)
  {
    var r' := Step(r, false, g);
    if r[0] {
      assert r'[|g| - 1];
    } else {
      var i :| 0 <= i < |g| && r[i];
      assert r'[i - 1];
    }
  }

  lemma {:induction false} TurnsKeepNonZero(r: Word, k: nat, g: Word)
    requires |r| == |g| > 0
    requires g[|g| - 1]
    requires r != Zeros(|g|)
    ensures Divide(r, Zeros(k), g) != Zeros(|g|)
    decreases k
  {
    if k == 0 {
    } else {
      StepKeepsNonZero(r, g);
      TurnsKeepNonZero(Step(r, false, g), k - 1, g);
      DivideTurn(r, k, g);
    }
  }

  lemma DivideTurn(r: Word, k: nat, g: Word)
    requires |r| == |g| > 0 && k > 0
    ensures Divide(r, Zeros(k), g) == Divide(Step(r, false, g), Zeros(k - 1), g)
  {
    assert Zeros(k)[0] == false && Zeros(k)[1..] == Zeros(k - 1);
  }

  /** The low end of an even generator hides a one: this non-zero register turns to zero. */
  lemma EvenGeneratorLoses(k: nat, g: Word)
    requires k > 0 && g != []
    requires !g[|g| - 1]
    ensures Divide([true] + g[..|g| - 1], Zeros(k), g) == Zeros(|g|)
  {
    var r := [true] + g[..|g| - 1];
    EvenStep(r, g);
    DivideTurn(r, k, g);
    DivideZeros(k - 1, g);
  }

  lemma EvenStep(r: Word, g: Word)
    requires g != [] && !g[|g| - 1] && r == [true] + g[..|g| - 1]
    ensures Step(r, false, g) == Zeros(|g|)
  {
    LastBit(g);
    AppendAssoc([true], g[..|g| - 1], [false]);
    GeneratorCancels(r, false, g);
  }

  lemma LastBit(g: Word)
    requires g != []
    ensures g[..|g| - 1] + [g[|g| - 1]] == g
  {
  }

  /** The generator with its leading term, once it is in the register, is reduced to zero. */
  lemma GeneratorCancels(r: Word, bit: bool, g: Word)
    requires g != [] && r + [bit] == [true] + g
    ensures Step(r, bit, g) == Zeros(|g|)
  {
    assert (r + [bit])[1..] == ShiftIn(r, bit);
    assert ([true] + g)[1..] == g;
    assert r[0] == (r + [bit])[0];
    XorSelf(g);
  }

  // ---------------------------------------------------------------- check value

  /** A full word shifted in lands on top of the turned register. */
  lemma DivideOnTop(r: Word, c: Word, g: Word)
    requires |r| == |c| == |g| > 0
    ensures Divide(r, c, g) == Xor(Divide(r, Zeros(|g|), g), c)
  {
    DivideLoadsAll(c, g);
    XorZeros(r);
    XorZeros(c);
    DivideApart(r, c, Zeros(|g|), g);
  }

  lemma DivideLoadsAll(c: Word, g: Word)
    requires |c| == |g| > 0
    ensures Divide(Zeros(|g|), c, g) == c
  {
    var t := Zeros(0);
    assert t + c == c;
    DivideLoads(t, c, g);
  }

  lemma DivideApart(r: Word, c: Word, z: Word, g: Word)
    requires |r| == |c| == |g| == |z| > 0
    requires Xor(r, z) == r && Xor(z, c) == c
    ensures Divide(r, c, g) == Xor(Divide(r, z, g), Divide(z, c, g))
  {
    DivideXor(r, z, z, c, g);
  }

  lemma CrcResidue(m: Word, c: Word, g: Word)
    requires g != [] && |c| == |g|
    ensures Crc(m + c, g) == Divide(Xor(Crc(m, g), c), Zeros(|g|), g)
  {
    var z := Zeros(|g|);
    var r := Divide(z, m, g);
    AppendAssoc(m, c, z);
    DivideAppend(z, m, c + z, g);
    DivideAppend(r, c, z, g);
    DivideAppend(z, m, z, g);
    DivideOnTop(r, c, g);
  }

  /** A message followed by its CRC leaves nothing in the register; with an odd generator
      no other check value does. */
  lemma CrcAppended(m: Word, c: Word, g: Word)
    requires g != [] && |c| == |g|
    ensures c == Crc(m, g) ==> Crc(m + c, g) == Zeros(|g|)
    ensures g[|g| - 1] ==> (Crc(m + c, g) == Zeros(|g|) <==> c == Crc(m, g))
  {
    CrcResidue(m, c, g);
    var d := Xor(Crc(m, g), c);
    if c == Crc(m, g) {
      XorSelf(c);
      DivideZeros(|g|, g);
    } else if g[|g| - 1] {
      if d == Zeros(|g|) {
        XorSelf(c);
        assert Xor(c, Crc(m, g)) == d;
        XorCancel(c, Crc(m, g), c);
      }
      TurnsKeepNonZero(d, |g|, g);
    }
  }

  // ---------------------------------------------------------------- burst errors

  /** An error whose wrong bits all lie in a window of |burst| bits, after `before` right ones */
  function BurstError(before: nat, burst: Word, after: nat): Word {
    Zeros(before) + burst + Zeros(after)
  }

  ghost predicate DetectsBursts(g: Word)
    requires g != []
  {
    forall m, before: nat, burst, after: nat ::
      |burst| <= |g| && burst != Zeros(|burst|) && |m| == before + |burst| + after ==>
        Crc(Xor(m, BurstError(before, burst, after)), g) != Crc(m, g)
  }

  lemma CrcOfBurst(before: nat, burst: Word, after: nat, t: Word, g: Word)
    requires |t| + |burst| == |g| > 0
    requires t == Zeros(|t|)
    ensures Crc(BurstError(before, burst, after), g) == Divide(t + burst, Zeros(after + |g|), g)
  {
    var z, tail, end := Zeros(|g|), Zeros(after), Zeros(after + |g|);
    var rest := burst + tail;
    assert BurstError(before, burst, after) == Zeros(before) + rest;
    CrcLeadingZeros(before, rest, g);
    assert rest + z == burst + end;
    DivideAppend(z, burst, end, g);
    DivideLoads(t, burst, g);
  }

  lemma BurstDetected(m: Word, before: nat, burst: Word, after: nat, g: Word)
    requires g != [] && g[|g| - 1]
    requires |burst| <= |g| && burst != Zeros(|burst|)
    requires |m| == before + |burst| + after
    ensures Crc(Xor(m, BurstError(before, burst, after)), g) != Crc(m, g)
  {
    var e := BurstError(before, burst, after);
    CrcXor(m, e, g);
    var t := Zeros(|g| - |burst|);
    var r := t + burst;
    CrcOfBurst(before, burst, after, t, g);
    assert r != Zeros(|g|) by {
      assert r[|g| - |burst|..] == burst;
      assert Zeros(|g|)[|g| - |burst|..] == Zeros(|burst|);
    }
    TurnsKeepNonZero(r, after + |g|, g);
    if Xor(Crc(m, g), Crc(e, g)) == Crc(m, g) {
      XorZeros(Crc(m, g));
      XorCancel(Crc(m, g), Crc(e, g), Zeros(|g|));
      assert false;
    }
  }

  /** Every burst no longer than the register is detected exactly when the generator is odd. */
  lemma BurstDetection(g: Word)
    requires g != []
    ensures DetectsBursts(g) <==> g[|g| - 1]
  {
    if g[|g| - 1] {
      forall m, before: nat, burst, after: nat
        | |burst| <= |g| && burst != Zeros(|burst|) && |m| == before + |burst| + after
        ensures Crc(Xor(m, BurstError(before, burst, after)), g) != Crc(m, g)
      {
        BurstDetected(m, before, burst, after, g);
      }
    } else {
      // A zero message hit by the one burst that the register turns to zero
      EvenGeneratorLoses(|g|, g);
      var burst := [true] + g[..|g| - 1];
      var m := Zeros(|g|);
      var e := BurstError(0, burst, 0);
      assert e == burst;
      XorZeros(e);
      assert [] + burst == burst && [] == Zeros(0);
      CrcOfBurst(0, burst, 0, [], g);
      DivideZeros(2 * |g|, g);
      assert m + Zeros(|g|) == Zeros(2 * |g|);
      assert Crc(Xor(m, BurstError(0, burst, 0)), g) == Crc(m, g);
    }
  }

  // ---------------------------------------------------------------- errors of odd weight

  /** An odd number of ones */
  function Odd(w: Word): bool {
    if w == [] then false else w[0] != Odd(w[1..])
  }

  lemma {:induction false} OddAppend(a: Word, b: Word)
    ensures Odd(a + b) == (Odd(a) != Odd(b))
  {
    if a == [] {
      assert a + b == b;
    } else {
      TailOfAppend(a, b);
      OddAppend(a[1..], b);
    }
  }

  lemma {:induction false} OddXor(a: Word, b: Word)
    requires |a| == |b|
    ensures Odd(Xor(a, b)) == (Odd(a) != Odd(b))
  {
    if a == [] {
    } else {
      assert Xor(a, b)[1..] == Xor(a[1..], b[1..]);
      OddXor(a[1..], b[1..]);
    }
  }

  lemma {:induction false} OddZeros(k: nat)
    ensures !Odd(Zeros(k))
  {
    if k == 0 {
    } else {
      assert Zeros(k)[1..] == Zeros(k - 1);
      OddZeros(k - 1);
    }
  }

  lemma OddBit(bit: bool)
    ensures Odd([bit]) == bit
  {
    assert [bit][1..] == [];
  }

  /** With a generator of odd weight every turn keeps the parity of the register and the bits
      shifted in. */
  lemma OddStep(r: Word, bit: bool, g: Word)
    requires |r| == |g| > 0 && Odd(g)
    ensures Odd(Step(r, bit, g)) == (Odd(r) != bit)
  {
    OddAppend(r[1..], [bit]);
    OddBit(bit);
    OddXor(ShiftIn(r, bit), g);
  }

  lemma {:induction false} OddDivide(r: Word, s: Word, g: Word)
    requires |r| == |g| > 0 && Odd(g)
    ensures Odd(Divide(r, s, g)) == (Odd(r) != Odd(s))
    decreases s
  {
    if s == [] {
    } else {
      OddStep(r, s[0], g);
      OddDivide(Step(r, s[0], g), s[1..], g);
    }
  }

  lemma OddCrc(m: Word, g: Word)
    requires g != [] && Odd(g)
    ensures Odd(Crc(m, g)) == Odd(m)
  {
    OddZeros(|g|);
    OddAppend(m, Zeros(|g|));
    OddDivide(Zeros(|g|), m + Zeros(|g|), g);
  }

  /** The generator itself, leading term and all, has CRC zero. */
  lemma GeneratorUndetected(g: Word)
    requires g != []
    ensures Crc([true] + g, g) == Zeros(|g|)
  {
    var w, z := |g|, Zeros(|g|);
    var r, bit := [true] + g[..w - 1], g[w - 1];
    LastBit(g);
    AppendAssoc([true], g[..w - 1], [bit]);
    DivideLoadsAll(r, g);
    DivideSnoc(z, r, bit, g);
    GeneratorCancels(r, bit, g);
    DivideAppend(z, [true] + g, z, g);
    DivideZeros(w, g);
  }

  ghost predicate DetectsOdd(g: Word)
    requires g != []
  {
    forall m, e: Word :: |m| == |e| && Odd(e) ==> Crc(Xor(m, e), g) != Crc(m, g)
  }

  /** Every error with an odd number of wrong bits is detected exactly when the generator
      without its leading term has an odd number of ones. */
  lemma OddDetection(g: Word)
    requires g != []
    ensures DetectsOdd(g) <==> Odd(g)
  {
    if Odd(g) {
      forall m, e: Word | |m| == |e| && Odd(e)
        ensures Crc(Xor(m, e), g) != Crc(m, g)
      {
        CrcXor(m, e, g);
        OddCrc(e, g);
        OddXor(Crc(m, g), Crc(e, g));
      }
    } else {
      var m := Zeros(|g| + 1);
      EvenMissed(m, [true] + g, g);
    }
  }

  lemma EvenMissed(m: Word, e: Word, g: Word)
    requires g != [] && !Odd(g) && e == [true] + g && m == Zeros(|e|)
    ensures Odd(e) && Crc(Xor(m, e), g) == Crc(m, g)
  {
    OddBit(true);
    OddAppend([true], g);
    XorZeros(e);
    GeneratorUndetected(g);
    assert m + Zeros(|g|) == Zeros(|m| + |g|);
    DivideZeros(|m| + |g|, g);
  }
}
