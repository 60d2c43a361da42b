/** The CRC routines: ble_lt_sdk/proj/simu/crc_sw.c. */
module CrcSw {
  import opened Common
  import opened Words
  import opened Gf2
  import opened CrcForms

  type U32 = w: Word | |w| == 32 witness seq(32, _ => false)

  /** Four hexadecimal digits, as a 16-bit literal writes them */
  function Hex(a: nat, b: nat, c: nat, d: nat): (w: Word)
    ensures |w| == 16
  {
    Digit(a) + Digit(b) + Digit(c) + Digit(d)
  }

  function Digit(d: nat): Word {
    [d / 8 % 2 == 1, d / 4 % 2 == 1, d / 2 % 2 == 1, d % 2 == 1]
  }

  const MODE0_POLY: Word := Hex(1, 0, 2, 1)
  const MODE1_POLY: Word := Hex(8, 0, 0, 5)
  const MODE2_POLY: Word := Hex(8, 0xb, 0xb, 7)
  const MODE3_POLY: U32 := Hex(0, 4, 0xc, 1) + Hex(1, 0xd, 0xb, 7)
  const MODE0_REVERSED: Word := Hex(8, 4, 0, 8)
  const MODE3_REVERSED: U32 := Hex(0xe, 0xd, 0xb, 8) + Hex(8, 3, 2, 0)

  lemma DigitArithmetic(w: Word, d: nat)
    requires d < 16
    ensures Val(w + Digit(d)) == 16 * Val(w) + d
  {
    NibbleArithmetic(w, Digit(d));
    Binary(d);
  }

  lemma Binary(d: nat)
    requires d < 16
    ensures d == 8 * (d / 8) + 4 * (d / 4 % 2) + 2 * (d / 2 % 2) + d % 2
    ensures d / 8 < 2 && d / 8 % 2 == d / 8
  {
  }

  lemma HexArithmetic(w: Word, a: nat, b: nat, c: nat, d: nat)
    requires a < 16 && b < 16 && c < 16 && d < 16
    ensures Val(w + Hex(a, b, c, d)) == 0x1_0000 * Val(w) + 0x1000 * a + 0x100 * b + 0x10 * c + d
  {
    var x, y, z := w + Digit(a), w + Digit(a) + Digit(b), w + Digit(a) + Digit(b) + Digit(c);
    assert w + Hex(a, b, c, d) == z + Digit(d);
    DigitArithmetic(w, a);
    DigitArithmetic(x, b);
    DigitArithmetic(y, c);
    DigitArithmetic(z, d);
  }

  lemma Literal16(a: nat, b: nat, c: nat, d: nat, g: Word)
    requires a < 16 && b < 16 && c < 16 && d < 16 && g == Hex(a, b, c, d)
    ensures Val(g) == 0x1000 * a + 0x100 * b + 0x10 * c + d
  {
    HexArithmetic([], a, b, c, d);
    assert [] + g == g;
  }

  lemma Literal32(a: nat, b: nat, c: nat, d: nat, a': nat, b': nat, c': nat, d': nat, g: Word)
    requires a < 16 && b < 16 && c < 16 && d < 16 && a' < 16 && b' < 16 && c' < 16 && d' < 16
    requires g == Hex(a, b, c, d) + Hex(a', b', c', d')
    ensures Val(g) == 0x1000_0000 * a + 0x100_0000 * b + 0x10_0000 * c + 0x1_0000 * d
      + 0x1000 * a' + 0x100 * b' + 0x10 * c' + d'
  {
    Literal16(a, b, c, d, Hex(a, b, c, d));
    HexArithmetic(Hex(a, b, c, d), a', b', c', d');
  }

  /** The generators are the numbers of crc_sw.h, and the mirrored ones those written in reverse. */
  lemma GeneratorNumbers()
    ensures Val(MODE0_POLY) == 0x1021 && Val(MODE1_POLY) == 0x8005 && Val(MODE2_POLY) == 0x8bb7
    ensures Val(MODE3_POLY) == 0x04c1_1db7
    ensures Val(MODE0_REVERSED) == 0x8408 && Val(MODE3_REVERSED) == 0xedb8_8320
  {
    Literal16(1, 0, 2, 1, MODE0_POLY);
    Literal16(8, 0, 0, 5, MODE1_POLY);
    Literal16(8, 0xb, 0xb, 7, MODE2_POLY);
    Literal32(0, 4, 0xc, 1, 1, 0xd, 0xb, 7, MODE3_POLY);
    Literal16(8, 4, 0, 8, MODE0_REVERSED);
    Literal32(0xe, 0xd, 0xb, 8, 8, 3, 2, 0, MODE3_REVERSED);
  }

  /** The generator the source reverses by hand is the mirror image it should be, and so is
      the 0x8408 of the usual right-shifting form. */
  lemma ReversedPolys()
    ensures Reverse(MODE0_POLY) == MODE0_REVERSED
    ensures Reverse(MODE3_POLY) == MODE3_REVERSED
  {
    ReverseAppend(Hex(0, 4, 0xc, 1), Hex(1, 0xd, 0xb, 7));
    assert Reverse(Hex(1, 0xd, 0xb, 7)) == Hex(0xe, 0xd, 0xb, 8);
    assert Reverse(Hex(0, 4, 0xc, 1)) == Hex(8, 3, 2, 0);
  }

  /** Every generator of crc_sw.h is odd, so each catches every burst no longer than itself. */
  lemma GeneratorsDetectBursts()
    ensures DetectsBursts(MODE0_POLY) && DetectsBursts(MODE1_POLY)
    ensures DetectsBursts(MODE2_POLY) && DetectsBursts(MODE3_POLY)
  {
    assert MODE0_POLY[15] && MODE1_POLY[15] && MODE2_POLY[15] && MODE3_POLY[31];
    BurstDetection(MODE0_POLY);
    BurstDetection(MODE1_POLY);
    BurstDetection(MODE2_POLY);
    BurstDetection(MODE3_POLY);
  }

  /** Two of the generators catch every error with an odd number of wrong bits; the other two
      let some through. */
  lemma GeneratorsDetectOdd(g: Word)
    requires g == MODE0_POLY || g == MODE1_POLY || g == MODE2_POLY || g == MODE3_POLY
    ensures DetectsOdd(g) <==> g == MODE0_POLY || g == MODE1_POLY
  {
    GeneratorParities();
    OddDetection(g);
  }

  lemma GeneratorParities()
    ensures Odd(MODE0_POLY) && Odd(MODE1_POLY) && !Odd(MODE2_POLY) && !Odd(MODE3_POLY)
  {
    OddParities();
    EvenParity();
    ParityOfHalves(MODE3_POLY);
  }

  lemma EvenParity()
    ensures !Odd(MODE2_POLY)
  {
    Parity(8, 0xb, 0xb, 7, MODE2_POLY, false);
  }

  lemma OddParities()
    ensures Odd(MODE0_POLY) && Odd(MODE1_POLY)
  {
    Parity(1, 0, 2, 1, MODE0_POLY, true);
    Parity(8, 0, 0, 5, MODE1_POLY, true);
  }

  lemma Parity(a: nat, b: nat, c: nat, d: nat, g: Word, odd: bool)
    requires g == Hex(a, b, c, d) && odd == OddDigits(a, b, c, d)
    ensures Odd(g) == odd
  {
    OddHex(a, b, c, d, g);
  }

  lemma ParityOfHalves(g: Word)
    requires g == Hex(0, 4, 0xc, 1) + Hex(1, 0xd, 0xb, 7)
    ensures !Odd(g)
  {
    var high, low := g[..16], g[16..];
    assert g == high + low && high == Hex(0, 4, 0xc, 1) && low == Hex(1, 0xd, 0xb, 7);
    Parity(0, 4, 0xc, 1, high, false);
    Parity(1, 0xd, 0xb, 7, low, false);
    OddAppend(high, low);
  }

  predicate OddDigits(a: nat, b: nat, c: nat, d: nat) {
    (OddDigit(a) != OddDigit(b)) != (OddDigit(c) != OddDigit(d))
  }

  predicate OddDigit(d: nat) {
    ((d / 8 % 2 == 1) != (d / 4 % 2 == 1)) != ((d / 2 % 2 == 1) != (d % 2 == 1))
  }

  lemma OddHex(a: nat, b: nat, c: nat, d: nat, g: Word)
    requires g == Hex(a, b, c, d)
    ensures Odd(g) == OddDigits(a, b, c, d)
  {
    OddFour(Digit(a));
    OddFour(Digit(b));
    OddFour(Digit(c));
    OddFour(Digit(d));
    OddAppend(Digit(a), Digit(b));
    OddAppend(Digit(a) + Digit(b), Digit(c));
    OddAppend(Digit(a) + Digit(b) + Digit(c), Digit(d));
  }

  lemma OddFour(w: Word)
    requires |w| == 4
    ensures Odd(w) == ((w[0] != w[1]) != (w[2] != w[3]))
  {
    OddBit(w[0]);
    OddBit(w[1]);
    OddBit(w[2]);
    OddBit(w[3]);
    OddAppend([w[0]], [w[1]]);
    OddAppend([w[2]], [w[3]]);
    OddAppend([w[0]] + [w[1]], [w[2]] + [w[3]]);
    assert w == ([w[0]] + [w[1]]) + ([w[2]] + [w[3]]);
  }

  /** crc16_bitwise and crc32_bitwise, one routine in the source for each width of register.
      The stream is shifted out of its buffer as it is read. */
  method Bitwise(stream: array<Byte>, lenM1: nat, poly: Word) returns (crc: Word)
    requires poly != []
    requires lenM1 < stream.Length
    modifies stream
    ensures crc == Crc(Bits(old(stream[..lenM1 + 1])), poly)
    ensures stream[..] == Zeroed(old(stream[..]), lenM1 + 1)
  {
    ghost var msg := stream[..];
    crc := Zeros(|poly|);
    var i := 0;
    while i <= lenM1
      invariant 0 <= i <= lenM1 + 1
      invariant |crc| == |poly|
      invariant crc == Divide(Zeros(|poly|), Bits(msg[..i]), poly)
      invariant stream[..] == Zeroed(msg, i)
    {
      crc := ShiftByte(stream, i, crc, poly);
      ReadByte(Zeros(|poly|), msg, i, poly);
      i := i + 1;
    }
    DivideAppend(Zeros(|poly|), Bits(msg[..i]), Zeros(|poly|), poly);
    crc := TurnOut(crc, poly);
  }

  /** The body of the outer loop: one byte of the stream into the register */
  method ShiftByte(stream: array<Byte>, i: nat, start: Word, poly: Word) returns (crc: Word)
    requires |start| == |poly| > 0
    requires i < stream.Length
    modifies stream
    ensures crc == Divide(start, old(stream[i]), poly)
    ensures stream[i] == Zeros(8)
    ensures forall k :: 0 <= k < stream.Length && k != i ==> stream[k] == old(stream[k])
  {
    ghost var byte := stream[i];
    crc := start;
    var j := 0;
    while j < 8
      invariant 0 <= j <= 8
      invariant |crc| == |poly|
      invariant stream[i] == byte[j..] + Zeros(j)
      invariant crc == Divide(start, byte[..j], poly)
      invariant forall k :: 0 <= k < stream.Length && k != i ==> stream[k] == old(stream[k])
    {
      ReadBit(start, byte, j, poly);
      if crc[0] {
        crc := ShiftIn(crc, stream[i][0]);
        crc := Xor(crc, poly);
      } else {
        crc := ShiftIn(crc, stream[i][0]);
      }
      stream[i] := Shl(stream[i]);
      j := j + 1;
    }
    assert byte[..8] == byte;
    assert byte[8..] + Zeros(8) == Zeros(8);
  }

  /** The last loop: as many turns as the register is wide, with nothing shifted in */
  method TurnOut(start: Word, poly: Word) returns (crc: Word)
    requires |start| == |poly| > 0
    ensures crc == Divide(start, Zeros(|poly|), poly)
  {
    crc := start;
    var k := 0;
    while k < |poly|
      invariant 0 <= k <= |poly|
      invariant |crc| == |poly|
      invariant Divide(crc, Zeros(|poly| - k), poly) == Divide(start, Zeros(|poly|), poly)
    {
      DivideTurn(crc, |poly| - k, poly);
      if crc[0] {
        crc := Shl(crc);
        crc := Xor(crc, poly);
      } else {
        crc := Shl(crc);
      }
      k := k + 1;
    }
  }

  lemma ReadBit(r: Word, byte: Byte, j: nat, poly: Word)
    requires |r| == |poly| > 0 && j < 8
    ensures Divide(r, byte[..j + 1], poly) == Step(Divide(r, byte[..j], poly), byte[j], poly)
    ensures byte[j + 1..] + Zeros(j + 1) == Shl(byte[j..] + Zeros(j))
  {
    assert byte[..j + 1] == byte[..j] + [byte[j]];
    DivideSnoc(r, byte[..j], byte[j], poly);
  }

  lemma ReadByte(r: Word, msg: seq<Byte>, i: nat, poly: Word)
    requires |r| == |poly| > 0 && i < |msg|
    ensures Divide(r, Bits(msg[..i + 1]), poly) == Divide(Divide(r, Bits(msg[..i]), poly), msg[i], poly)
  {
    assert msg[..i + 1] == msg[..i] + [msg[i]];
    BitsSnoc(msg[..i], msg[i]);
    DivideAppend(r, Bits(msg[..i]), msg[i], poly);
  }

  /** The buffer once its first n bytes have been shifted out */
  ghost function Zeroed(msg: seq<Byte>, n: nat): (r: seq<Byte>)
    requires n <= |msg|
    ensures |r| == |msg|
    ensures forall k :: 0 <= k < |msg| ==> r[k] == if k < n then Zeros(8) else msg[k]
  {
    var zero: Byte := Zeros(8);
    seq(|msg|, k requires 0 <= k < |msg| => if k < n then zero else msg[k])
  }

  // ---------------------------------------------------------------- bit reversal

  /** crc_reverseBitU32, crc_reverseBitU16 and reverseBitU8 */
  method ReverseBits(src: Word) returns (result: Word)
    ensures result == Reverse(src)
  {
    var temp := src;
    result := Zeros(|src|);
    var k := 0;
    while k < |src|
      invariant 0 <= k <= |src|
      invariant temp == Zeros(k) + src[..|src| - k]
      invariant result == Zeros(|src| - k) + Reverse(src)[..k]
    {
      ReverseBit(src, k);
      result := ShiftIn(result, temp[|temp| - 1]);
      temp := Shr(temp);
      k := k + 1;
    }
  }

  lemma ReverseBit(src: Word, k: nat)
    requires k < |src|
    ensures var temp := Zeros(k) + src[..|src| - k];
      && temp[|src| - 1] == Reverse(src)[k]
      && Shr(temp) == Zeros(k + 1) + src[..|src| - (k + 1)]
      && ShiftIn(Zeros(|src| - k) + Reverse(src)[..k], Reverse(src)[k])
         == Zeros(|src| - (k + 1)) + Reverse(src)[..k + 1]
  {
  }

  /** crc16_calc.  Reversing every byte and the result gives the CRC of a line that sends
      the low bit first, with the mirrored generator. */
  method Crc16Calc(crcArray: array<Byte>, len: nat) returns (result: Word)
    requires 1 <= len <= 128 && len <= crcArray.Length
    ensures result == LsbFirst(Zeros(16), crcArray[..len], MODE0_REVERSED)
    ensures Reverse(result) == Crc(Bits(ReverseBytes(crcArray[..len])), MODE0_POLY)
  {
    ReversedPolys();
    ReversedIsLsbFirst(crcArray[..len], MODE0_POLY);
    ReverseTwice(Crc(Bits(ReverseBytes(crcArray[..len])), MODE0_POLY));
    result := ReversedCrc(crcArray, len, MODE0_POLY);
  }

  method ReversedCrc(crcArray: array<Byte>, len: nat, poly: Word) returns (result: Word)
    requires 1 <= len <= 128 && len <= crcArray.Length
    requires |poly| == 16
    ensures result == LsbFirst(Zeros(16), crcArray[..len], Reverse(poly))
  {
    var temp := new Byte[128];
    for i := 0 to len
      invariant temp[..i] == crcArray[..i]
    {
      temp[i] := crcArray[i];
    }
    var msg := crcArray[..len];
    for i := 0 to len
      invariant forall k :: 0 <= k < i ==> temp[k] == Reverse(msg[k])
      invariant forall k :: i <= k < len ==> temp[k] == msg[k]
    {
      var reversed := ReverseBits(temp[i]);
      temp[i] := reversed;
    }
    assert temp[..len] == ReverseBytes(msg);
    result := Bitwise(temp, len - 1, poly);
    result := ReverseBits(result);
    ReversedIsLsbFirst(msg, poly);
  }

  lemma ReversedIsLsbFirst(msg: seq<Byte>, g: Word)
    requires |g| >= 8
    ensures LsbFirst(Zeros(|g|), msg, Reverse(g)) == Reverse(Crc(Bits(ReverseBytes(msg)), g))
  {
    DirectIsCrc(ReverseBytes(msg), g);
    LsbFirstMirrors(Zeros(|g|), msg, g);
    ReverseSame(|g|);
  }

  lemma ReverseSame(width: nat)
    ensures Reverse(Zeros(width)) == Zeros(width)
    ensures Reverse(Not(Zeros(width))) == Not(Zeros(width))
  {
  }

  // ---------------------------------------------------------------- through the table

  /** r << k */
  function ShlBy(w: Word, k: nat): Word
    requires k <= |w|
  {
    w[k..] + Zeros(k)
  }

  /** r >> k */
  function ShrBy(w: Word, k: nat): Word
    requires k <= |w|
  {
    Zeros(k) + w[..|w| - k]
  }

  /** w & 0xff as a byte */
  function LowByte(w: Word): Byte
    requires |w| >= 8
  {
    w[|w| - 8..]
  }

  /** The file's static crcTable with the routines that fill it and read it, and the
      generator for each bit order */
  class Crc32 {
    const crcTable: array<U32>
    const poly: U32
    const reversed: U32

    constructor ()
      ensures Valid() && fresh(crcTable)
      ensures poly == MODE3_POLY && reversed == MODE3_REVERSED
    {
      ReversedPolys();
      crcTable := new U32[256];
      poly := MODE3_POLY;
      reversed := MODE3_REVERSED;
    }

    ghost predicate Valid() {
      crcTable.Length == 256 && reversed == Reverse(poly)
    }

    /** The table is the one that crc32_buildTable(endian) leaves. */
    ghost predicate Built(endian: bool)
      reads crcTable
    {
      && Valid()
      && forall b: Byte :: Val(b) < 256 && crcTable[Val(b)] == EntryOf(b, endian)
    }

    ghost function EntryOf(b: Byte, endian: bool): U32 {
      if endian then Entry(b, poly) else EntryRight(b, reversed)
    }

    /** crc32_buildTable */
    method BuildTable(endian: bool)
      requires Valid()
      modifies crcTable
      ensures Built(endian)
    {
      for i := 0 to 256
        invariant BuiltTo(crcTable[..], i, endian)
      {
        var c := BuildEntry(i, endian);
        OneEntryMore(crcTable[..], i, endian, c);
        crcTable[i] := c;
      }
      AllEntries(crcTable[..], endian);
    }

    /** The first n entries are in place. */
    ghost predicate BuiltTo(table: seq<U32>, n: nat, endian: bool) {
      n <= |table| && forall k :: 0 <= k < n ==> table[k] == EntryOf(FromNat(k, 8), endian)
    }

    lemma OneEntryMore(table: seq<U32>, n: nat, endian: bool, c: U32)
      requires n < |table| && BuiltTo(table, n, endian) && c == EntryOf(FromNat(n, 8), endian)
      ensures BuiltTo(table[n := c], n + 1, endian)
    {
    }

    lemma AllEntries(table: seq<U32>, endian: bool)
      requires |table| == 256 && BuiltTo(table, 256, endian)
      ensures forall b: Byte :: Val(b) < 256 && table[Val(b)] == EntryOf(b, endian)
    {
      forall b: Byte
        ensures Val(b) < 256 && table[Val(b)] == EntryOf(b, endian)
      {
        ValBound(b);
        FromVal(b);
        assert Pow2(8) == 256;
      }
    }

    /** The body of the outer loop of crc32_buildTable */
    method BuildEntry(i: nat, endian: bool) returns (c: U32)
      requires i < 256
      ensures c == EntryOf(FromNat(i, 8), endian)
    {
      var polynomial := if endian then poly else reversed;
      ghost var entry;
      c, entry := BuildStart(i, endian);
      var j := 8;
      while j != 0
        invariant 0 <= j <= 8
        invariant TurnsTo(c, j, endian, entry)
      {
        c := BuildTurn(c, j, polynomial, endian, entry);
        j := j - 1;
      }
      TurnsDone(c, endian, entry);
    }

    /** What the inner loop starts from */
    method BuildStart(i: nat, endian: bool) returns (c: U32, ghost entry: U32)
      requires i < 256
      ensures entry == EntryOf(FromNat(i, 8), endian) && TurnsTo(c, 8, endian, entry)
    {
      c := if endian then ShlBy(FromNat(i, 32), 24) else FromNat(i, 32);
      entry := StartAt(i, endian, c);
    }

    /** The body of the inner loop */
    method BuildTurn(c: U32, ghost j: nat, polynomial: U32, endian: bool, ghost entry: U32) returns (c': U32)
      requires polynomial == if endian then poly else reversed
      requires j > 0 && TurnsTo(c, j, endian, entry)
      ensures TurnsTo(c', j - 1, endian, entry)
    {
      TurnOnce(c, j, endian, entry);
      if endian {
        c' := if c[0] then Xor(Shl(c), polynomial) else Shl(c);
      } else {
        c' := if c[31] then Xor(Shr(c), polynomial) else Shr(c);
      }
    }

    /** After j more turns the register will hold the entry. */
    ghost predicate TurnsTo(c: U32, j: nat, endian: bool, entry: U32) {
      entry == if endian then Divide(c, Zeros(j), poly) else DivideRight(c, Zeros(j), reversed)
    }

    lemma TurnOnce(c: U32, j: nat, endian: bool, entry: U32)
      requires j > 0
      requires TurnsTo(c, j, endian, entry)
      ensures endian ==> TurnsTo(if c[0] then Xor(Shl(c), poly) else Shl(c), j - 1, endian, entry)
      ensures !endian ==> TurnsTo(if c[31] then Xor(Shr(c), reversed) else Shr(c), j - 1, endian, entry)
    {
      if endian {
        assert Shl(c) == ShiftIn(c, false);
        DivideTurn(c, j, poly);
      } else {
        DivideTurnRight(c, j, reversed);
      }
    }

    lemma TurnsDone(c: U32, endian: bool, entry: U32)
      requires TurnsTo(c, 0, endian, entry)
      ensures c == entry
    {
      assert Zeros(0) == [];
    }

    lemma StartAt(i: nat, endian: bool, c: U32) returns (entry: U32)
      requires i < 256
      requires c == if endian then ShlBy(FromNat(i, 32), 24) else FromNat(i, 32)
      ensures entry == EntryOf(FromNat(i, 8), endian)
      ensures TurnsTo(c, 8, endian, entry)
    {
      entry := EntryOf(FromNat(i, 8), endian);
      assert Pow2(8) == 256;
      FromNatWide(i, 8, 24);
      assert c == if endian then OnTop(FromNat(i, 8), 32) else Below(FromNat(i, 8), 32);
    }

    /** crc32_calcCrc, the running checksum passed in and out */
    method CalcCrc(checksum: U32, str: seq<Byte>, endian: bool) returns (updated: U32)
      requires Built(endian)
      ensures updated == Running(checksum, str, endian)
    {
      updated := checksum;
      for j := 0 to |str|
        invariant updated == Running(checksum, str[..j], endian)
      {
        var b := str[j];
        ghost var sofar := str[..j];
        assert str[..j + 1] == sofar + [b];
        RunningSnoc(checksum, sofar, b, endian);
        updated := CalcByte(updated, b, endian);
      }
      assert str[..|str|] == str;
    }

    /** The body of the loop of crc32_calcCrc */
    method CalcByte(r: U32, b: Byte, endian: bool) returns (updated: U32)
      requires Built(endian)
      ensures updated == Absorb(r, b, endian)
    {
      if endian {
        IndexHigh(r, b);
        var tableIndex := LowByte(Xor(ShrBy(r, 24), Below(b, 32)));
        updated := Xor(ShlBy(r, 8), crcTable[Val(tableIndex)]);
      } else {
        IndexLow(r, b);
        var tableIndex := LowByte(Xor(r, Below(b, 32)));
        updated := Xor(ShrBy(r, 8), crcTable[Val(tableIndex)]);
      }
    }

    /** The running checksum without a table */
    ghost function Running(r: U32, str: seq<Byte>, endian: bool): U32 {
      if endian then Direct(r, str, poly) else LsbFirst(r, str, reversed)
    }

    ghost function Absorb(r: U32, b: Byte, endian: bool): U32 {
      if endian then Turn8(Xor(r, OnTop(b, 32)), poly)
      else Turn8Right(Xor(r, Below(b, 32)), reversed)
    }

    lemma RunningSnoc(r: U32, str: seq<Byte>, b: Byte, endian: bool)
      ensures Running(r, str + [b], endian) == Absorb(Running(r, str, endian), b, endian)
    {
      if endian {
        DirectSnoc(r, str, b, poly);
      } else {
        LsbFirstSnoc(r, str, b, reversed);
      }
    }

    lemma IndexHigh(r: U32, b: Byte)
      ensures Absorb(r, b, true)
           == Xor(ShlBy(r, 8), EntryOf(LowByte(Xor(ShrBy(r, 24), Below(b, 32))), true))
    {
      HighByte(r, b);
      TableStep(r, b, poly);
    }

    lemma HighByte(r: U32, b: Byte)
      ensures LowByte(Xor(ShrBy(r, 24), Below(b, 32))) == Xor(r[..8], b)
    {
    }

    lemma IndexLow(r: U32, b: Byte)
      ensures Absorb(r, b, false)
           == Xor(ShrBy(r, 8), EntryOf(LowByte(Xor(r, Below(b, 32))), false))
    {
      XorBelow(r, b, 32);
      TableStepRight(r, b, reversed);
    }

    /** crc32_getCrc.  Most significant bit first, the table form computes what the bitwise
        form computes.  The other way round, with every byte's low bit first, the remainder is
        that of the message with its first 32 bits complemented, and it is complemented itself
        and mirrored (clause 3.2.9 of IEEE 802.3). */
    method GetCrc(str: seq<Byte>, endian: bool) returns (crc: U32)
      requires Built(endian)
      ensures endian ==> crc == Crc(Bits(str), poly)
      ensures !endian ==> forall rest: U32 ::
        IsRemainder(Preset(Not(Zeros(32)), ReverseBytes(str)), poly, rest) <==> crc == Not(Reverse(rest))
    {
      var checksum := if endian then Zeros(32) else Not(Zeros(32));
      crc := CalcCrc(checksum, str, endian);
      if endian {
        DirectIsCrc(str, poly);
      } else {
        LsbFirstMirrors(Not(Zeros(32)), str, poly);
        ReverseSame(32);
        ghost var end := crc;
        crc := Not(crc);
        forall rest: U32
          ensures IsRemainder(Preset(Not(Zeros(32)), ReverseBytes(str)), poly, rest) <==> crc == Not(Reverse(rest))
        {
          DirectIsRemainder(Not(Zeros(32)), ReverseBytes(str), poly, rest);
          NotReverse(end, rest, Direct(Not(Zeros(32)), ReverseBytes(str), poly));
        }
      }
    }

    lemma NotReverse(end: Word, rest: Word, direct: Word)
      requires |rest| == |direct| && end == Reverse(direct)
      ensures Not(end) == Not(Reverse(rest)) <==> rest == direct
    {
      if Not(end) == Not(Reverse(rest)) {
        ReverseTwice(direct);
        ReverseTwice(rest);
        NotTwice(end);
        NotTwice(Reverse(rest));
      }
    }

    lemma NotTwice(w: Word)
      ensures Not(Not(w)) == w
    {
    }
  }
}
