/** The other shapes a CRC takes: byte at a time, through a table, and mirrored. */
module CrcForms {
  import opened Common
  import opened Words
  import opened Gf2

  /** A message as one polynomial, each byte's high bit first */
  function Bits(msg: seq<Byte>): (m: Word)
    ensures |m| == 8 * |msg|
  {
    if msg == [] then [] else msg[0] + Bits(msg[1..])
  }

  lemma {:induction false} BitsAppend(a: seq<Byte>, b: seq<Byte>)
    ensures Bits(a + b) == Bits(a) + Bits(b)
  {
    if a == [] {
      assert a + b == b;
    } else {
      TailOfAppend(a, b);
      BitsAppend(a[1..], b);
      AppendAssoc(a[0], Bits(a[1..]), Bits(b));
    }
  }

  lemma BitsSnoc(a: seq<Byte>, b: Byte)
    ensures Bits(a + [b]) == Bits(a) + b
  {
    BitsAppend(a, [b]);
    assert Bits([b]) == b + Bits([][..]);
    assert b + [] == b;
  }

  lemma {:induction false} BitsXor(a: seq<Byte>, b: seq<Byte>)
    requires |a| == |b|
    ensures Bits(XorBytes(a, b)) == Xor(Bits(a), Bits(b))
  {
    if a == [] {
    } else {
      BitsXor(a[1..], b[1..]);
      assert XorBytes(a, b)[1..] == XorBytes(a[1..], b[1..]);
      XorAppend(a[0], Bits(a[1..]), b[0], Bits(b[1..]));
    }
  }

  function XorBytes(a: seq<Byte>, b: seq<Byte>): (c: seq<Byte>)
    requires |a| == |b|
    ensures |c| == |a|
  {
    seq(|a|, i requires 0 <= i < |a| => Xor(a[i], b[i]))
  }

  /** A message followed by the bytes of its CRC has CRC zero; with an odd generator no other
      check bytes do. */
  lemma CheckBytes(msg: seq<Byte>, check: seq<Byte>, g: Word)
    requires g != [] && 8 * |check| == |g|
    ensures Bits(check) == Crc(Bits(msg), g) ==> Crc(Bits(msg + check), g) == Zeros(|g|)
    ensures g[|g| - 1] ==> (Crc(Bits(msg + check), g) == Zeros(|g|) <==> Bits(check) == Crc(Bits(msg), g))
  {
    BitsAppend(msg, check);
    CrcAppended(Bits(msg), Bits(check), g);
  }

  /** Bytes damaged by one burst no longer than the register change the CRC. */
  lemma DamageDetected(msg: seq<Byte>, error: seq<Byte>, before: nat, burst: Word, after: nat, g: Word)
    requires g != [] && g[|g| - 1] && |msg| == |error|
    requires Bits(error) == BurstError(before, burst, after)
    requires |burst| <= |g| && burst != Zeros(|burst|)
    ensures Crc(Bits(XorBytes(msg, error)), g) != Crc(Bits(msg), g)
  {
    BitsXor(msg, error);
    BurstDetected(Bits(msg), before, burst, after, g);
  }

  // ---------------------------------------------------------------- byte at a time

  /** Eight turns of the register with nothing shifted in */
  function Turn8(r: Word, g: Word): (r': Word)
    requires |r| == |g| > 0
    ensures |r'| == |g|
  {
    Divide(r, Zeros(8), g)
  }

  /** A byte in the top eight bits of a register-sized word: byte << (w - 8) */
  function OnTop(b: Byte, width: nat): (r: Word)
    requires width >= 8
    ensures |r| == width
  {
    b + Zeros(width - 8)
  }

  /** The customary CRC loop: XOR each byte onto the top of the register and turn it. */
  function Direct(r: Word, msg: seq<Byte>, g: Word): (r': Word)
    requires |r| == |g| >= 8
    ensures |r'| == |g|
    decreases msg
  {
    if msg == [] then r else Direct(Turn8(Xor(r, OnTop(msg[0], |g|)), g), msg[1..], g)
  }

  lemma Turn8Xor(r: Word, r': Word, g: Word)
    requires |r| == |r'| == |g| > 0
    ensures Turn8(Xor(r, r'), g) == Xor(Turn8(r, g), Turn8(r', g))
  {
    XorZeros(Zeros(8));
    DivideXor(r, Zeros(8), r', Zeros(8), g);
  }

  /** Reading a byte early, at the low end, is the same as XORing it on top w turns later. */
  lemma ByteMovesUp(r: Word, b: Byte, g: Word)
    requires |r| == |g| >= 8
    ensures Divide(Divide(r, b, g), Zeros(|g|), g)
         == Turn8(Xor(Divide(r, Zeros(|g|), g), OnTop(b, |g|)), g)
  {
    var w := |g|;
    var z := Zeros(w);
    var low := Zeros(w - 8) + b;
    assert Divide(r, b, g) == Xor(Turn8(r, g), low) by {
      DivideLoads(Zeros(w - 8), b, g);
      XorZeros(r);
      XorZeros(b);
      DivideXor(r, Zeros(8), z, b, g);
    }
    assert Divide(Xor(Turn8(r, g), low), z, g) == Xor(Divide(Turn8(r, g), z, g), Divide(low, z, g)) by {
      XorZeros(z);
      DivideXor(Turn8(r, g), z, low, z, g);
    }
    assert Divide(low, z, g) == Turn8(OnTop(b, w), g) by {
      assert z == Zeros(w - 8) + Zeros(8);
      DivideAppend(low, Zeros(w - 8), Zeros(8), g);
      DivideShifts(low, b, Zeros(w - 8), g);
    }
    assert Divide(Turn8(r, g), z, g) == Turn8(Divide(r, z, g), g) by {
      assert Zeros(8) + z == z + Zeros(8);
      DivideAppend(r, Zeros(8), z, g);
      DivideAppend(r, z, Zeros(8), g);
    }
    Turn8Xor(Divide(r, z, g), OnTop(b, w), g);
  }

  lemma {:induction false} DirectIsDivide(r: Word, msg: seq<Byte>, g: Word)
    requires |r| == |g| >= 8
    ensures Direct(Divide(r, Zeros(|g|), g), msg, g) == Divide(r, Bits(msg) + Zeros(|g|), g)
    decreases msg
  {
    var z := Zeros(|g|);
    if msg == [] {
      assert Bits(msg) + z == z;
    } else {
      var b, rest := msg[0], msg[1..];
      ByteMovesUp(r, b, g);
      DirectIsDivide(Divide(r, b, g), rest, g);
      AppendAssoc(b, Bits(rest), z);
      DivideAppend(r, b, Bits(rest) + z, g);
    }
  }

  /** From a zero register the byte loop computes the CRC. */
  lemma DirectIsCrc(msg: seq<Byte>, g: Word)
    requires |g| >= 8
    ensures Direct(Zeros(|g|), msg, g) == Crc(Bits(msg), g)
  {
    DivideZeros(|g|, g);
    DirectIsDivide(Zeros(|g|), msg, g);
  }

  lemma {:induction false} DirectSnoc(r: Word, msg: seq<Byte>, b: Byte, g: Word)
    requires |r| == |g| >= 8
    ensures Direct(r, msg + [b], g) == Turn8(Xor(Direct(r, msg, g), OnTop(b, |g|)), g)
    decreases msg
  {
    if msg == [] {
      assert msg + [b] == [b];
      assert [b][1..] == [];
    } else {
      assert (msg + [b])[1..] == msg[1..] + [b];
      DirectSnoc(Turn8(Xor(r, OnTop(msg[0], |g|)), g), msg[1..], b, g);
    }
  }

  /** The byte loop is linear in its register. */
  lemma {:induction false} DirectXor(r: Word, r': Word, msg: seq<Byte>, g: Word)
    requires |r| == |r'| == |g| >= 8
    ensures Direct(Xor(r, r'), msg, g) == Xor(Divide(r, Zeros(8 * |msg|), g), Direct(r', msg, g))
    decreases msg
  {
    if msg == [] {
      assert Zeros(0) == [];
    } else {
      var b := OnTop(msg[0], |g|);
      AbsorbXor(r, r', b, g);
      DirectXor(Turn8(r, g), Turn8(Xor(r', b), g), msg[1..], g);
      DivideEight(r, |msg[1..]|, g);
    }
  }

  lemma AbsorbXor(r: Word, r': Word, b: Word, g: Word)
    requires |r| == |r'| == |b| == |g| >= 8
    ensures Turn8(Xor(Xor(r, r'), b), g) == Xor(Turn8(r, g), Turn8(Xor(r', b), g))
  {
    XorAssoc(r, r', b);
    Turn8Xor(r, Xor(r', b), g);
  }

  lemma DivideEight(r: Word, n: nat, g: Word)
    requires |r| == |g| >= 8
    ensures Divide(r, Zeros(8 * (n + 1)), g) == Divide(Turn8(r, g), Zeros(8 * n), g)
  {
    assert Zeros(8 * (n + 1)) == Zeros(8) + Zeros(8 * n);
    DivideAppend(r, Zeros(8), Zeros(8 * n), g);
  }

  /** What the augmented message becomes when the loop starts from r: its first bits, as many
      as r has, are XORed with r. */
  function Preset(r: Word, msg: seq<Byte>): (m: Word) {
    Xor(r + Zeros(8 * |msg|), Bits(msg) + Zeros(|r|))
  }

  /** From any register the loop ends on the remainder of that message, and on nothing else. */
  lemma DirectIsRemainder(r: Word, msg: seq<Byte>, g: Word, end: Word)
    requires |r| == |g| >= 8
    ensures IsRemainder(Preset(r, msg), g, end) <==> end == Direct(r, msg, g)
  {
    var z, tail := Zeros(|g|), Zeros(8 * |msg|);
    DivideIsRemainder(Preset(r, msg), g, end);
    XorZeros(z);
    DivideXor(z, r + tail, z, Bits(msg) + z, g);
    DivideAppend(z, r, tail, g);
    DivideLoadsAll(r, g);
    DirectIsCrc(msg, g);
    DirectXor(r, z, msg, g);
    XorZeros(r);
  }

  // ---------------------------------------------------------------- through a table

  /** The table entry of a byte */
  function Entry(b: Byte, g: Word): (r: Word)
    requires |g| >= 8
    ensures |r| == |g|
  {
    Turn8(OnTop(b, |g|), g)
  }

  /** Eight turns are one look-up: the low bits move up and the top byte's entry is XORed in. */
  lemma TurnByTable(r: Word, g: Word)
    requires |r| == |g| >= 8
    ensures Turn8(r, g) == Xor(r[8..] + Zeros(8), Entry(r[..8], g))
  {
    var top: Byte := r[..8];
    var low := Zeros(8) + r[8..];
    assert r == Xor(low, OnTop(top, |g|));
    Turn8Xor(low, OnTop(top, |g|), g);
    DivideShifts(low, r[8..], Zeros(8), g);
  }

  lemma TableStep(r: Word, b: Byte, g: Word)
    requires |r| == |g| >= 8
    ensures Turn8(Xor(r, OnTop(b, |g|)), g) == Xor(r[8..] + Zeros(8), Entry(Xor(r[..8], b), g))
  {
    var r' := Xor(r, OnTop(b, |g|));
    assert r'[..8] == Xor(r[..8], b);
    assert r'[8..] == r[8..];
    TurnByTable(r', g);
  }

  /** The table entry of the byte 1 is the generator, as is the CRC of that one byte. */
  lemma EntryOfOne(b: Byte, g: Word)
    requires |g| >= 8 && b == Zeros(7) + [true]
    ensures Entry(b, g) == g && Crc(Bits([b]), g) == g
  {
    CrcOfOne(7, g);
    assert Bits([b]) == b + Bits([b][1..]) == b;
    DirectIsCrc([b], g);
    DirectSnoc(Zeros(|g|), [], b, g);
    assert [] + [b] == [b];
    XorZeros(OnTop(b, |g|));
  }

  // ---------------------------------------------------------------- mirrored

  /** One turn of a register that shifts right: low bit out, a message bit in on top */
  function StepRight(r: Word, bit: bool, h: Word): (r': Word)
    requires |r| == |h| > 0
    ensures |r'| == |h|
  {
    var v := [bit] + r[..|r| - 1];
    if r[|r| - 1] then Xor(v, h) else v
  }

  function DivideRight(r: Word, s: Word, h: Word): (r': Word)
    requires |r| == |h| > 0
    ensures |r'| == |h|
    decreases s
  {
    if s == [] then r else DivideRight(StepRight(r, s[0], h), s[1..], h)
  }

  /** Eight turns to the right with nothing shifted in */
  function Turn8Right(r: Word, h: Word): (r': Word)
    requires |r| == |h| > 0
    ensures |r'| == |h|
  {
    DivideRight(r, Zeros(8), h)
  }

  lemma DivideTurnRight(r: Word, k: nat, h: Word)
    requires |r| == |h| > 0 && k > 0
    ensures DivideRight(r, Zeros(k), h) == DivideRight(StepRight(r, false, h), Zeros(k - 1), h)
  {
    assert Zeros(k)[0] == false && Zeros(k)[1..] == Zeros(k - 1);
  }

  /** A byte in the low eight bits of a register-sized word */
  function Below(b: Byte, width: nat): (r: Word)
    requires width >= 8
    ensures |r| == width
  {
    Zeros(width - 8) + b
  }

  /** The CRC loop of a serial line that sends the low bit first: XOR each byte into the
      low end and shift right, with the reversed generator. */
  function LsbFirst(r: Word, msg: seq<Byte>, h: Word): (r': Word)
    requires |r| == |h| >= 8
    ensures |r'| == |h|
    decreases msg
  {
    if msg == [] then r else LsbFirst(Turn8Right(Xor(r, Below(msg[0], |h|)), h), msg[1..], h)
  }

  function ReverseBytes(msg: seq<Byte>): (r: seq<Byte>)
    ensures |r| == |msg|
    ensures forall i :: 0 <= i < |msg| ==> r[i] == Reverse(msg[i])
  {
    seq(|msg|, i requires 0 <= i < |msg| => Reverse(msg[i]))
  }

  lemma StepMirrors(r: Word, bit: bool, g: Word)
    requires |r| == |g| > 0
    ensures Reverse(Step(r, bit, g)) == StepRight(Reverse(r), bit, Reverse(g))
  {
    assert Reverse(ShiftIn(r, bit)) == [bit] + Reverse(r)[..|r| - 1];
    ReverseXor(ShiftIn(r, bit), g);
  }

  lemma {:induction false} DivideMirrors(r: Word, s: Word, g: Word)
    requires |r| == |g| > 0
    ensures Reverse(Divide(r, s, g)) == DivideRight(Reverse(r), s, Reverse(g))
    decreases s
  {
    if s == [] {
    } else {
      StepMirrors(r, s[0], g);
      DivideMirrors(Step(r, s[0], g), s[1..], g);
    }
  }

  /** Mirroring register, generator and every byte mirrors the result. */
  lemma {:induction false} LsbFirstMirrors(r: Word, msg: seq<Byte>, g: Word)
    requires |r| == |g| >= 8
    ensures LsbFirst(Reverse(r), msg, Reverse(g)) == Reverse(Direct(r, ReverseBytes(msg), g))
    decreases msg
  {
    if msg == [] {
    } else {
      var b := msg[0];
      assert ReverseBytes(msg)[1..] == ReverseBytes(msg[1..]);
      var r' := Xor(r, OnTop(Reverse(b), |g|));
      assert Reverse(r') == Xor(Reverse(r), Below(b, |g|));
      DivideMirrors(r', Zeros(8), g);
      LsbFirstMirrors(Turn8(r', g), msg[1..], g);
    }
  }

  lemma {:induction false} LsbFirstSnoc(r: Word, msg: seq<Byte>, b: Byte, h: Word)
    requires |r| == |h| >= 8
    ensures LsbFirst(r, msg + [b], h) == Turn8Right(Xor(LsbFirst(r, msg, h), Below(b, |h|)), h)
    decreases msg
  {
    if msg == [] {
      assert msg + [b] == [b];
      assert [b][1..] == [];
    } else {
      assert (msg + [b])[1..] == msg[1..] + [b];
      LsbFirstSnoc(Turn8Right(Xor(r, Below(msg[0], |h|)), h), msg[1..], b, h);
    }
  }

  /** The entry of a byte in the mirrored table */
  function EntryRight(b: Byte, h: Word): (r: Word)
    requires |h| >= 8
    ensures |r| == |h|
  {
    Turn8Right(Below(b, |h|), h)
  }

  /** The two tables mirror each other. */
  lemma EntriesMirror(b: Byte, g: Word)
    requires |g| >= 8
    ensures EntryRight(Reverse(b), Reverse(g)) == Reverse(Entry(b, g))
  {
    assert Reverse(OnTop(b, |g|)) == Below(Reverse(b), |g|);
    DivideMirrors(OnTop(b, |g|), Zeros(8), g);
  }

  /** With the low bit first it is the byte 0x80 whose entry, and whose CRC, is the generator. */
  lemma EntryRightOfTop(b: Byte, h: Word)
    requires |h| >= 8 && b == [true] + Zeros(7)
    ensures EntryRight(b, h) == h && LsbFirst(Zeros(|h|), [b], h) == h
  {
    var one: Byte := ReverseTop(b);
    ReverseTwice(h);
    MirroredEntry(one, b, Reverse(h), h);
    LsbFirstOne(b, h);
  }

  lemma ReverseTop(b: Byte) returns (one: Byte)
    requires b == [true] + Zeros(7)
    ensures one == Zeros(7) + [true] && Reverse(one) == b
  {
    one := Zeros(7) + [true];
  }

  lemma MirroredEntry(one: Byte, b: Byte, g: Word, h: Word)
    requires |g| >= 8 && one == Zeros(7) + [true] && b == Reverse(one) && h == Reverse(g)
    ensures EntryRight(b, h) == h
  {
    EntryOfOne(one, g);
    EntriesMirror(one, g);
  }

  lemma LsbFirstOne(b: Byte, h: Word)
    requires |h| >= 8
    ensures LsbFirst(Zeros(|h|), [b], h) == EntryRight(b, h)
  {
    LsbFirstSnoc(Zeros(|h|), [], b, h);
    assert [] + [b] == [b];
    XorZeros(Below(b, |h|));
  }

  lemma ReverseSplit(s: Word)
    requires |s| >= 8
    ensures Reverse(s[8..] + Zeros(8)) == Zeros(8) + Reverse(s)[..|s| - 8]
    ensures Reverse(s[..8]) == Reverse(s)[|s| - 8..]
  {
  }

  lemma TurnRightByTable(r: Word, h: Word)
    requires |r| == |h| >= 8
    ensures Turn8Right(r, h) == Xor(Zeros(8) + r[..|h| - 8], EntryRight(r[|h| - 8..], h))
  {
    var s, g := Reverse(r), Reverse(h);
    ReverseTwice(r);
    ReverseTwice(h);
    ReverseSplit(s);
    calc {
      Turn8Right(r, h);
      { DivideMirrors(s, Zeros(8), g); }
      Reverse(Turn8(s, g));
      { TurnByTable(s, g); }
      Reverse(Xor(s[8..] + Zeros(8), Entry(s[..8], g)));
      { ReverseXor(s[8..] + Zeros(8), Entry(s[..8], g)); }
      Xor(Reverse(s[8..] + Zeros(8)), Reverse(Entry(s[..8], g)));
      { EntriesMirror(s[..8], g); }
      Xor(Zeros(8) + r[..|h| - 8], EntryRight(Reverse(s[..8]), h));
    }
  }

  lemma TableStepRight(r: Word, b: Byte, h: Word)
    requires |r| == |h| >= 8
    ensures Turn8Right(Xor(r, Below(b, |h|)), h)
         == Xor(Zeros(8) + r[..|h| - 8], EntryRight(Xor(r[|h| - 8..], b), h))
  {
    XorBelow(r, b, |h|);
    TurnRightByTable(Xor(r, Below(b, |h|)), h);
  }

  lemma XorBelow(r: Word, b: Byte, width: nat)
    requires |r| == width >= 8
    ensures Xor(r, Below(b, width))[width - 8..] == Xor(r[width - 8..], b)
    ensures Xor(r, Below(b, width))[..width - 8] == r[..width - 8]
  {
  }
}
