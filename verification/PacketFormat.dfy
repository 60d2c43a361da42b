/** The packet-format matcher of tools/vc_beacon_configurator/tl_ble_moduleDlg.cpp: a packet is
    shown field by field if it fits one of the configured patterns. */
module PacketFormat {
  import opened Common
  import opened Words
  import opened HexText

  /** One int of format_buff, as the bytes pb[0], pb[1], pb[2] and pb[3] */
  datatype Field = Field(low: u8, high: u8, bits: u8, kind: u8)

  const END := Field(0, 0, 0, 0)
  const TIME_STAMP := 0x84

  function Width(f: Field): nat {
    f.kind % 16
  }

  /** How many bytes are looked at for a field of `nb` bytes */
  function Looked(nb: nat): (n: nat) {
    if nb == 4 then 4 else if nb >= 3 then 3 else 2
  }

  /** d: the number that these bytes are, low byte first */
  function Number(nb: nat, p: seq<u8>): (d: nat)
    requires Looked(nb) <= |p|
    ensures d < 0x1_0000_0000
  {
    var two: int := p[0] as int + p[1] as int * 0x100;
    var three: int := two + if nb >= 3 then p[2] as int * 0x1_0000 else 0;
    three + if nb == 4 then p[3] as int * 0x100_0000 else 0
  }

  function Wanted(f: Field): nat {
    f.low + f.high * 256
  }

  // ---------------------------------------------------------------- masks

  predicate BitAt(n: nat, k: nat) {
    if k == 0 then n % 2 == 1 else BitAt(n / 2, k - 1)
  }

  /** n << s */
  function ShiftUp(n: nat, s: nat): nat {
    if s == 0 then n else 2 * ShiftUp(n, s - 1)
  }

  /** m: ones from bit `s` to bit `e` */
  function Mask(s: nat, e: nat): nat {
    if e < s then 0 else (Pow2Above(e - s + 1); ShiftUp(ShiftUp(1, e - s + 1) - 1, s))
  }

  lemma {:induction false} Pow2Above(k: nat)
    ensures ShiftUp(1, k) == Pow2(k) > 0
  {
    if k == 0 {
    } else {
      Pow2Above(k - 1);
    }
  }

  lemma {:induction false} NoBits(k: nat)
    ensures !BitAt(0, k)
  {
    if k == 0 {
    } else {
      NoBits(k - 1);
    }
  }

  lemma {:induction false} OnesBits(n: nat, k: nat)
    ensures Pow2(n) > 0 && (BitAt(Pow2(n) - 1, k) <==> k < n)
  {
    if n == 0 {
      NoBits(k);
    } else {
      OnesBits(n - 1, if k == 0 then 0 else k - 1);
      assert (Pow2(n) - 1) / 2 == Pow2(n - 1) - 1;
    }
  }

  lemma {:induction false} ShiftedBits(n: nat, s: nat, k: nat)
    ensures BitAt(ShiftUp(n, s), k) <==> k >= s && BitAt(n, k - s)
  {
    if s == 0 || k == 0 {
    } else {
      ShiftedBits(n, s - 1, k - 1);
    }
  }

  lemma MaskBits(s: nat, e: nat, k: nat)
    ensures BitAt(Mask(s, e), k) <==> s <= k <= e
  {
    if e < s {
      NoBits(k);
    } else {
      Pow2Above(e - s + 1);
      ShiftedBits(ShiftUp(1, e - s + 1) - 1, s, k);
      if k >= s {
        OnesBits(e - s + 1, k - s);
      }
    }
  }

  ghost predicate SameBits(a: nat, b: nat, m: nat) {
    forall k: nat :: BitAt(m, k) ==> BitAt(a, k) == BitAt(b, k)
  }

  lemma SameBitsHalved(a: nat, b: nat, m: nat)
    ensures SameBits(a, b, m) <==> (m % 2 == 1 ==> a % 2 == b % 2) && SameBits(a / 2, b / 2, m / 2)
  {
    if SameBits(a, b, m) {
      assert BitAt(m, 0) ==> BitAt(a, 0) == BitAt(b, 0);
      forall k: nat | BitAt(m / 2, k)
        ensures BitAt(a / 2, k) == BitAt(b / 2, k)
      {
        assert BitAt(m, k + 1);
        assert BitAt(a, k + 1) == BitAt(b, k + 1);
      }
    }
    if (m % 2 == 1 ==> a % 2 == b % 2) && SameBits(a / 2, b / 2, m / 2) {
      forall k: nat | BitAt(m, k)
        ensures BitAt(a, k) == BitAt(b, k)
      {
        if k > 0 {
          assert BitAt(m / 2, k - 1);
        }
      }
    }
  }

  lemma AndHalved(a: nat, m: nat)
    ensures And(a, m) == (if a % 2 == 1 && m % 2 == 1 then 1 else 0) + 2 * And(a / 2, m / 2)
  {
  }

  /** Masked numbers are equal exactly when they agree in every bit of the mask. */
  lemma {:induction false} MaskedEqual(a: nat, b: nat, m: nat)
    ensures And(a, m) == And(b, m) <==> SameBits(a, b, m)
  {
    if m == 0 {
      forall k: nat
        ensures !BitAt(0, k)
      {
        NoBits(k);
      }
    } else {
      AndHalved(a, m);
      AndHalved(b, m);
      SameBitsHalved(a, b, m);
      MaskedEqual(a / 2, b / 2, m / 2);
    }
  }

  // ---------------------------------------------------------------- what a packet matches

  /** The packet, from this field on, has the bits wanted. */
  ghost predicate FieldMatches(f: Field, p: seq<u8>) {
    && Looked(Width(f)) <= |p|
    && forall k :: f.bits % 16 <= k <= f.bits / 16 ==> BitAt(Number(Width(f), p), k) == BitAt(Wanted(f), k)
  }

  /** The comparison in the source is this match. */
  lemma ComparisonMatches(f: Field, p: seq<u8>)
    requires Looked(Width(f)) <= |p|
    ensures var m := Mask(f.bits % 16, f.bits / 16);
      FieldMatches(f, p) <==> And(Number(Width(f), p), m) == And(Wanted(f), m)
  {
    var s, e := f.bits % 16, f.bits / 16;
    MaskedEqual(Number(Width(f), p), Wanted(f), Mask(s, e));
    forall k: nat
      ensures BitAt(Mask(s, e), k) <==> s <= k <= e
    {
      MaskBits(s, e, k);
    }
  }

  /** On the bytes: the low half of the third byte of a field is the first bit compared and its high
      half the last, bits 0 to 7 being those of the packet's byte and of the field's first, and
      8 to 15 those of the next bytes. */
  lemma MatchesOnBytes(f: Field, p: seq<u8>)
    requires Looked(Width(f)) <= |p|
    ensures var s, e := f.bits % 16, f.bits / 16;
      FieldMatches(f, p) <==>
        && (forall k: nat :: s <= k <= e && k < 8 ==> BitAt(p[0], k) == BitAt(f.low, k))
        && (forall k: nat :: s <= k + 8 <= e && k < 8 ==> BitAt(p[1], k) == BitAt(f.high, k))
  {
    var s, e := f.bits % 16, f.bits / 16;
    if FieldMatches(f, p) {
      forall k: nat | s <= k <= e && k < 8
        ensures BitAt(p[0], k) == BitAt(f.low, k)
      {
        FieldBits(f, p, k);
      }
      forall k: nat | s <= k + 8 <= e && k < 8
        ensures BitAt(p[1], k) == BitAt(f.high, k)
      {
        FieldBits(f, p, k);
        assert BitAt(Number(Width(f), p), k + 8) == BitAt(Wanted(f), k + 8);
      }
    } else {
      var k :| s <= k <= e && BitAt(Number(Width(f), p), k) != BitAt(Wanted(f), k);
      var j := if k < 8 then k else k - 8;
      FieldBits(f, p, j);
    }
  }

  lemma FieldBits(f: Field, p: seq<u8>, k: nat)
    requires Looked(Width(f)) <= |p| && k < 8
    ensures BitAt(Number(Width(f), p), k) == BitAt(p[0], k) && BitAt(Number(Width(f), p), k + 8) == BitAt(p[1], k)
    ensures BitAt(Wanted(f), k) == BitAt(f.low, k) && BitAt(Wanted(f), k + 8) == BitAt(f.high, k)
  {
    var rest := (if Width(f) >= 3 then p[2] as int else 0) + if Width(f) == 4 then 0x100 * p[3] as int else 0;
    TwoBytesBits(p[0], p[1], rest, Number(Width(f), p), k);
    TwoBytesBits(f.low, f.high, 0, Wanted(f), k);
  }

  lemma TwoBytesBits(b0: u8, b1: u8, rest: nat, n: nat, k: nat)
    requires n == b0 as int + 0x100 * b1 as int + 0x1_0000 * rest && k < 8
    ensures BitAt(n, k) == BitAt(b0, k) && BitAt(n, k + 8) == BitAt(b1, k)
  {
    StackedByte(b0, b1 as int + 0x100 * rest, k);
    StackedByte(b0, b1 as int + 0x100 * rest, k + 8);
    StackedByte(b1, rest, k);
  }

  lemma StackedByte(b: u8, rest: nat, k: nat)
    ensures BitAt(b as int + 0x100 * rest, k) == if k < 8 then BitAt(b, k) else BitAt(rest, k - 8)
  {
    ShiftedByte(rest);
    assert Pow2(8) == 256;
    Stacked(b, rest, 8, k);
  }

  lemma ShiftedByte(n: nat)
    ensures ShiftUp(n, 8) == 0x100 * n
  {
    assert ShiftUp(n, 1) == 2 * n;
    assert ShiftUp(n, 2) == 2 * ShiftUp(n, 1);
    assert ShiftUp(n, 3) == 2 * ShiftUp(n, 2);
    assert ShiftUp(n, 4) == 2 * ShiftUp(n, 3);
    assert ShiftUp(n, 5) == 2 * ShiftUp(n, 4);
    assert ShiftUp(n, 6) == 2 * ShiftUp(n, 5);
    assert ShiftUp(n, 7) == 2 * ShiftUp(n, 6);
  }

  lemma {:induction false} Stacked(low: nat, rest: nat, s: nat, k: nat)
    requires low < Pow2(s)
    ensures BitAt(low + ShiftUp(rest, s), k) == if k < s then BitAt(low, k) else BitAt(rest, k - s)
    decreases s
  {
    if s == 0 || k == 0 {
    } else {
      Stacked(low / 2, rest, s - 1, k - 1);
      assert (low + ShiftUp(rest, s)) / 2 == low / 2 + ShiftUp(rest, s - 1);
    }
  }

  /** Each field begins where the ones before it end, their widths being the low half of the fourth
      byte. */
  lemma {:induction false} OffsetNext(fields: seq<Field>, j: nat)
    requires j < |fields|
    ensures Offset(fields, 0) == 0 && Offset(fields, j + 1) == Offset(fields, j) + fields[j].kind % 16
    decreases j
  {
    if j == 0 {
      assert Offset(fields[1..], 0) == 0;
    } else {
      OffsetNext(fields[1..], j - 1);
    }
  }

  /** What is left of the packet behind a field */
  function Behind(f: Field, p: seq<u8>): seq<u8> {
    if Width(f) <= |p| then p[Width(f)..] else []
  }

  ghost predicate Matches(fields: seq<Field>, p: seq<u8>) {
    fields == [] || (FieldMatches(fields[0], p) && Matches(fields[1..], Behind(fields[0], p)))
  }

  /** Where the j-th field begins */
  function Offset(fields: seq<Field>, j: nat): nat
    requires j <= |fields|
  {
    if j == 0 then 0 else Width(fields[0]) + Offset(fields[1..], j - 1)
  }

  ghost predicate MatchesAt(fields: seq<Field>, p: seq<u8>, j: nat)
    requires j < |fields|
  {
    Offset(fields, j) <= |p| && FieldMatches(fields[j], p[Offset(fields, j)..])
  }

  /** A packet matches exactly when each field matches at its cumulative offset. */
  lemma {:induction false} MatchesAtOffsets(fields: seq<Field>, p: seq<u8>)
    ensures Matches(fields, p) <==> forall j: nat :: j < |fields| ==> MatchesAt(fields, p, j)
  {
    if fields == [] {
    } else {
      var f, rest, q := fields[0], fields[1..], Behind(fields[0], p);
      assert p[0..] == p;
      assert MatchesAt(fields, p, 0) <==> FieldMatches(f, p);
      MatchesAtOffsets(rest, q);
      forall j: nat | j < |rest|
        ensures MatchesAt(fields, p, j + 1) <==> Width(f) <= |p| && MatchesAt(rest, q, j)
      {
        MatchesFurther(fields, p, j);
      }
      forall j: nat | 0 < j < |fields|
        ensures MatchesAt(fields, p, j) <==> Width(f) <= |p| && MatchesAt(rest, q, j - 1)
      {
        MatchesFurther(fields, p, j - 1);
      }
      if rest != [] && Width(f) > |p| {
        assert !MatchesAt(fields, p, 1) by { MatchesFurther(fields, p, 0); }
      }
    }
  }

  lemma MatchesFurther(fields: seq<Field>, p: seq<u8>, j: nat)
    requires j + 1 < |fields|
    ensures MatchesAt(fields, p, j + 1) <==> Width(fields[0]) <= |p| && MatchesAt(fields[1..], Behind(fields[0], p), j)
  {
    var w, at := Width(fields[0]), Offset(fields[1..], j);
    assert Offset(fields, j + 1) == w + at;
    if w + at <= |p| {
      assert p[w..][at..] == p[w + at..];
    }
  }

  // ---------------------------------------------------------------- what is shown of it

  /** A number as hexadecimal digits, the bytes given low byte first */
  function Digits(p: seq<u8>): string {
    if p == [] then "" else Digits(p[1..]) + Pair(p[0])
  }

  /** How many bytes Hex2Text shows of a field of `nb` */
  function ShownBytes(nb: nat): nat {
    if 2 <= nb <= 4 then nb else 1
  }

  function HexField(nb: nat, p: seq<u8>): string
    requires ShownBytes(nb) <= |p|
  {
    Digits(p[..ShownBytes(nb)]) + " "
  }

  /** %03d of a number that three digits hold */
  function Decimal3(n: nat): (t: string)
    requires n < 1000
    ensures |t| == 3
  {
    [DecimalDigit(n / 100), DecimalDigit(n / 10 % 10), DecimalDigit(n % 10)]
  }

  function DecimalDigit(n: nat): char
    requires n < 10
  {
    '0' + n as char
  }

  /** Ticks of 1/32 microsecond as seconds, milliseconds and microseconds */
  function TimeText(d: nat): (t: string)
    requires d < 0x1_0000_0000
    ensures |t| == 12
  {
    var us := d / 32;
    Decimal3(us / 1000000) + ":" + Decimal3(us / 1000 % 1000) + ":" + Decimal3(us % 1000) + " "
  }

  function FieldText(f: Field, p: seq<u8>): string
    requires Looked(Width(f)) <= |p|
  {
    if f.kind == TIME_STAMP then TimeText(Number(Width(f), p)) else HexField(Width(f), p)
  }

  ghost function FieldsText(fields: seq<Field>, p: seq<u8>): string
    requires Matches(fields, p)
  {
    if fields == [] then "" else FieldText(fields[0], p) + FieldsText(fields[1..], Behind(fields[0], p))
  }

  /** The part of the packet that is dumped when `left` bytes are left */
  function Left(p: seq<u8>, left: int): seq<u8> {
    if left <= 0 then [] else if Capped(left) <= |p| then p[..Capped(left)] else p
  }

  // ---------------------------------------------------------------- reading it back

  function Backwards(p: seq<u8>): seq<u8> {
    if p == [] then [] else Backwards(p[1..]) + [p[0]]
  }

  lemma {:induction false} DigitsRead(p: seq<u8>)
    ensures Paired(Digits(p)) && Bytes(Digits(p)) == Backwards(p)
  {
    if p == [] {
    } else {
      DigitsRead(p[1..]);
      PairIsRead(p[0]);
      BytesAppend(Digits(p[1..]), Pair(p[0]));
    }
  }

  lemma FieldRead(f: Field, p: seq<u8>)
    requires Looked(Width(f)) <= |p| && f.kind != TIME_STAMP
    ensures Paired(FieldText(f, p)) && Bytes(FieldText(f, p)) == Backwards(p[..ShownBytes(Width(f))])
  {
    var shown := p[..ShownBytes(Width(f))];
    DigitsRead(shown);
    assert Paired(" ") && Bytes(" ") == [] by { assert " "[1..] == ""; }
    BytesAppend(Digits(shown), " ");
  }

  /** Text in which every second character is no separator, from the first on, is all pairs. */
  lemma {:induction false} AllPairs(t: string)
    requires |t| % 2 == 0 && forall i :: 0 <= i < |t| && i % 2 == 0 ==> t[i] >= '0'
    ensures Paired(t) && |Bytes(t)| == |t| / 2
    decreases |t|
  {
    if t == "" {
    } else {
      AllPairs(t[2..]);
    }
  }

  lemma TimeMisread(d: nat)
    requires d < 0x1_0000_0000
    ensures Paired(TimeText(d)) && |Bytes(TimeText(d))| == 6
  {
    AllPairs(TimeText(d));
  }

  lemma {:induction false} BackwardsAt(p: seq<u8>)
    ensures |Backwards(p)| == |p| && forall i :: 0 <= i < |p| ==> Backwards(p)[i] == p[|p| - 1 - i]
  {
    if p == [] {
    } else {
      BackwardsAt(p[1..]);
    }
  }

  /** The text of a field reads back as the field's bytes exactly when it has one to four and is
      no time stamp.  Of any other width only the first byte is shown, and a time stamp's text
      is not of bytes. */
  lemma FieldReadsBack(f: Field, p: seq<u8>)
    requires Looked(Width(f)) <= |p| && f.kind % 16 <= |p|
    ensures Paired(FieldText(f, p))
    ensures Bytes(FieldText(f, p)) == Backwards(p[..f.kind % 16]) <==> 1 <= f.kind % 16 <= 4 && f.kind != 0x84
  {
    BackwardsAt(p[..Width(f)]);
    if f.kind == TIME_STAMP {
      TimeMisread(Number(Width(f), p));
    } else {
      FieldRead(f, p);
      BackwardsAt(p[..ShownBytes(Width(f))]);
    }
  }

  /** The text of a field that is no time stamp: of its two, three or four bytes, or of the first,
      the last first, two digits in lower case each; and a blank */
  lemma FieldTextShape(f: Field, p: seq<u8>, i: nat)
    requires Looked(Width(f)) <= |p| && f.kind != 0x84
    requires i < if 2 <= f.kind % 16 <= 4 then f.kind % 16 else 1
    ensures var t, n := FieldText(f, p), if 2 <= f.kind % 16 <= 4 then f.kind % 16 else 1;
      && |t| == 2 * n + 1 && t[2 * n] == ' '
      && t[2 * i] == "0123456789abcdef"[p[n - 1 - i] / 16] && t[2 * i + 1] == "0123456789abcdef"[p[n - 1 - i] % 16]
  {
    DigitsAt(p[..ShownBytes(Width(f))], i);
  }

  lemma {:induction false} DigitsAt(p: seq<u8>, i: nat)
    requires i < |p|
    ensures var t := Digits(p);
      && |t| == 2 * |p|
      && t[2 * i] == "0123456789abcdef"[p[|p| - 1 - i] / 16]
      && t[2 * i + 1] == "0123456789abcdef"[p[|p| - 1 - i] % 16]
    decreases |p|
  {
    DigitsLength(p[1..]);
    if i < |p| - 1 {
      DigitsAt(p[1..], i);
    } else {
      DigitTable(p[0] / 16);
      DigitTable(p[0] % 16);
    }
  }

  lemma {:induction false} DigitsLength(p: seq<u8>)
    ensures |Digits(p)| == 2 * |p|
  {
    if p == [] {
    } else {
      DigitsLength(p[1..]);
    }
  }

  /** The bytes of each field turned around, as its number is written */
  function Turned(fields: seq<Field>, p: seq<u8>): seq<u8> {
    if fields == [] then []
    else if Width(fields[0]) <= |p| then
      Backwards(p[..Width(fields[0])]) + Turned(fields[1..], Behind(fields[0], p))
    else []
  }

  ghost predicate Plain(fields: seq<Field>) {
    forall j :: 0 <= j < |fields| ==> 1 <= Width(fields[j]) <= 4 && fields[j].kind != TIME_STAMP
  }

  /** What is shown of a packet: its fields, and a dump of what is left of its `len` bytes */
  ghost function Shown(fields: seq<Field>, p: seq<u8>, len: int): string
    requires Matches(fields, p)
  {
    WithDump(FieldsText(fields, p), Remainder(fields, p), len - Offset(fields, |fields|))
  }

  /** A text, and a dump of so many of these bytes */
  function WithDump(text: string, q: seq<u8>, left: int): string {
    text + Dump(Left(q, left))
  }

  function Remainder(fields: seq<Field>, p: seq<u8>): seq<u8> {
    if fields == [] then p else Remainder(fields[1..], Behind(fields[0], p))
  }

  lemma {:induction false} FieldsRead(fields: seq<Field>, p: seq<u8>)
    requires Matches(fields, p) && Plain(fields)
    ensures Offset(fields, |fields|) <= |p|
    ensures Paired(FieldsText(fields, p)) && Bytes(FieldsText(fields, p)) == Turned(fields, p)
    ensures |Remainder(fields, p)| == |p| - Offset(fields, |fields|)
  {
    if fields == [] {
    } else {
      var f, rest, q := fields[0], fields[1..], Behind(fields[0], p);
      FieldsRead(rest, q);
      FieldRead(f, p);
      BytesAppend(FieldText(f, p), FieldsText(rest, q));
    }
  }

  /** The text shows every byte of the packet, in order but for the bytes of a field, if its
      fields are of one to four bytes and are not time stamps. */
  lemma ShownReadsBack(fields: seq<Field>, p: seq<u8>)
    requires Matches(fields, p) && Plain(fields) && |p| <= MAXB2TSIZE
    ensures Paired(Shown(fields, p, |p|))
    ensures Bytes(Shown(fields, p, |p|)) == Turned(fields, p) + Remainder(fields, p)
  {
    FieldsRead(fields, p);
    var rest := Remainder(fields, p);
    assert Left(rest, |rest|) == rest;
    DumpReadsBack(rest);
    BytesAppend(FieldsText(fields, p), Dump(rest));
  }

  function ReadDecimal3(t: string): int
    requires |t| == 3
  {
    (t[0] as int - '0' as int) * 100 + (t[1] as int - '0' as int) * 10 + (t[2] as int - '0' as int)
  }

  lemma Decimal3Read(n: nat)
    requires n < 1000
    ensures ReadDecimal3(Decimal3(n)) == n
  {
  }

  /** A time stamp reads back as its microseconds. */
  lemma TimeReadsBack(d: nat)
    requires d < 0x1_0000_0000
    ensures var t := TimeText(d);
      && 1000000 * ReadDecimal3(t[..3]) + 1000 * ReadDecimal3(t[4..7]) + ReadDecimal3(t[8..11]) == d / 32
      && t[3] == ':' && t[7] == ':' && t[11] == ' '
  {
    var us := d / 32;
    TimeParts(Decimal3(us / 1000000), Decimal3(us / 1000 % 1000), Decimal3(us % 1000));
    Decimal3Read(us / 1000000);
    Decimal3Read(us / 1000 % 1000);
    Decimal3Read(us % 1000);
    Thousands(us);
  }

  /** A field of kind 0x84 is shown as the time stamp of its four bytes, low byte first. */
  lemma StampShown(f: Field, p: seq<u8>)
    requires f.kind == 0x84 && 4 <= |p|
    ensures var d := p[0] as int + 0x100 * p[1] as int + 0x1_0000 * p[2] as int + 0x100_0000 * p[3] as int;
      0 <= d < 0x1_0000_0000 && FieldText(f, p) == TimeText(d)
  {
    NumberOfFour(p);
    assert Width(f) == 4;
  }

  lemma NumberOfFour(p: seq<u8>)
    requires 4 <= |p|
    ensures Number(4, p) as int ==
      p[0] as int + 0x100 * p[1] as int + 0x1_0000 * p[2] as int + 0x100_0000 * p[3] as int
  {
  }

  lemma TimeParts(s: string, ms: string, us: string)
    requires |s| == |ms| == |us| == 3
    ensures var t := s + ":" + ms + ":" + us + " ";
      && |t| == 12 && t[..3] == s && t[4..7] == ms && t[8..11] == us
      && t[3] == ':' && t[7] == ':' && t[11] == ' '
  {
  }

  lemma Thousands(n: nat)
    ensures n / 1000 / 1000 == n / 1000000
    ensures (n - n % 1000) / 1000 == n / 1000
    ensures n == 1000000 * (n / 1000000) + 1000 * (n / 1000 % 1000) + n % 1000
  {
  }

  // ---------------------------------------------------------------- the routines

  /** Hex2Text */
  method Hex2Text(lpD: array<char>, at: nat, lpS: array<u8>, from: nat, n: nat) returns (d: nat)
    requires from + ShownBytes(n) <= lpS.Length
    requires at + |HexField(n, lpS[from..])| <= lpD.Length
    modifies lpD
    ensures var text := HexField(n, old(lpS[from..]));
      d == |text| && lpD[..] == Over(old(lpD[..]), at, text)
  {
    var text := HexDigits(lpS[from..], n);
    var end := Put(lpD, at, text);
    d := end - at;
  }

  method HexDigits(p: seq<u8>, n: nat) returns (text: string)
    requires ShownBytes(n) <= |p|
    ensures text == HexField(n, p)
  {
    DigitsOfFew(p, ShownBytes(n));
    if n == 2 {
      text := Pair(p[1]) + Pair(p[0]);
    } else if n == 3 {
      text := Pair(p[2]) + Pair(p[1]) + Pair(p[0]);
    } else if n == 4 {
      text := Pair(p[3]) + Pair(p[2]) + Pair(p[1]) + Pair(p[0]);
    } else {
      text := Pair(p[0]);
    }
    text := text + " ";
  }

  lemma DigitsOfFew(p: seq<u8>, n: nat)
    requires 1 <= n <= 4 && n <= |p|
    ensures Digits(p[..n]) == (if n == 4 then Pair(p[3]) else "") + (if n >= 3 then Pair(p[2]) else "")
      + (if n >= 2 then Pair(p[1]) else "") + Pair(p[0])
  {
    var q := p[..n];
    assert Digits(q) == Digits(q[1..]) + Pair(p[0]);
    if n >= 2 {
      assert Digits(q[1..]) == Digits(q[2..]) + Pair(p[1]) by { assert q[1..][1..] == q[2..]; }
    }
    if n >= 3 {
      assert Digits(q[2..]) == Digits(q[3..]) + Pair(p[2]) by { assert q[2..][1..] == q[3..]; }
    }
    if n == 4 {
      assert Digits(q[3..]) == Digits(q[4..]) + Pair(p[3]) by { assert q[3..][1..] == q[4..]; }
    }
  }

  /** Time2Text.  sprintf ends the twelve characters with a NUL that is not counted. */
  method Time2Text(lpD: array<char>, at: nat, ticks: nat) returns (n: nat)
    requires ticks < 0x1_0000_0000 && at + 12 < lpD.Length
    modifies lpD
    ensures n == 12 && lpD[..] == Over(old(lpD[..]), at, TimeText(ticks) + ['\0'])
  {
    var d := ticks / 32;
    Thousands(d);
    var us := d % 1000;
    d := (d - us) / 1000;
    Thousands(d);
    var ms := d % 1000;
    d := (d - ms) / 1000;
    var text := Decimal3(d) + ":" + Decimal3(ms) + ":" + Decimal3(us) + " ";
    var end := Put(lpD, at, text + ['\0']);
    n := 12;
  }

  // ---------------------------------------------------------------- the matcher

  /** The fields of a pattern: up to a zero, at most sixteen */
  function Fields(words: seq<Field>): seq<Field> {
    if words == [] || words[0] == END then [] else [words[0]] + Fields(words[1..])
  }

  /** They are what is before the first zero. */
  lemma {:induction false} FieldsBeforeZero(words: seq<Field>)
    ensures Fields(words) <= words
    ensures forall i :: 0 <= i < |Fields(words)| ==> words[i] != Field(0, 0, 0, 0)
    ensures |Fields(words)| < |words| ==> words[|Fields(words)|] == Field(0, 0, 0, 0)
  {
    if words == [] || words[0] == END {
    } else {
      FieldsBeforeZero(words[1..]);
      assert forall i :: 0 < i < |Fields(words)| ==> words[i] == words[1..][i - 1];
    }
  }

  function Pattern(buff: seq<Field>, i: nat): seq<Field>
    requires 16 * i + 16 <= |buff|
  {
    Fields(buff[16 * i..16 * i + 16])
  }

  /** The characters that a field's text takes while it is written: a time stamp's has a NUL
      behind it. */
  function Space(f: Field, p: seq<u8>): nat
    requires Looked(Width(f)) <= |p|
  {
    |FieldText(f, p)| + if f.kind == TIME_STAMP then 1 else 0
  }

  /** Of the sixteen words from 16 i on, those before the first zero */
  lemma PatternWords(buff: seq<Field>, i: nat)
    requires 16 * i + 16 <= |buff|
    ensures var n := |Pattern(buff, i)|;
      && n <= 16 && Pattern(buff, i) == buff[16 * i..16 * i + n]
      && (forall j :: 0 <= j < n ==> Pattern(buff, i)[j] != Field(0, 0, 0, 0))
      && (n < 16 ==> buff[16 * i + n] == Field(0, 0, 0, 0))
  {
    var words := buff[16 * i..16 * i + 16];
    FieldsBeforeZero(words);
    var n := |Fields(words)|;
    assert n < 16 ==> words[n] == buff[16 * i + n];
    assert words[..n] == buff[16 * i..16 * i + n];
  }

  /** All that is read and written when a packet is held against these fields stays inside its
      buffers: `left` bytes of the packet are still to be shown, in `room` characters. */
  ghost predicate Inside(fields: seq<Field>, p: seq<u8>, left: int, room: int) {
    if fields == [] then
      (left > 0 ==> Capped(left) <= |p|) && |Dump(Left(p, left))| < room
    else
      var f := fields[0];
      && Looked(Width(f)) <= |p|
      && (FieldMatches(f, p) ==>
           && Width(f) <= |p| && Space(f, p) <= room
           && Inside(fields[1..], Behind(f, p), left - Width(f), room - |FieldText(f, p)|))
  }

  /** Fields `rest` are still to be compared, with the packet from `at` on; `out` is the text so far. */
  ghost predicate Underway(fields: seq<Field>, p: seq<u8>, len: int, rest: seq<Field>, at: nat, out: string, room: int)
  {
    && at <= |p|
    && Inside(rest, p[at..], len - at, room)
    && at + Offset(rest, |rest|) == Offset(fields, |fields|)
    && (Matches(fields, p) <==> Matches(rest, p[at..]))
    && (Matches(rest, p[at..]) ==>
         && out + FieldsText(rest, p[at..]) == FieldsText(fields, p)
         && Remainder(rest, p[at..]) == Remainder(fields, p))
  }

  lemma Begins(fields: seq<Field>, p: seq<u8>, len: int, room: int)
    requires Inside(fields, p, len, room)
    ensures Underway(fields, p, len, fields, 0, "", room)
  {
    assert p[0..] == p;
    if Matches(fields, p) {
      assert "" + FieldsText(fields, p) == FieldsText(fields, p);
    }
  }

  /** Before a field is compared: it is there to be read, and must match. */
  lemma AtField(fields: seq<Field>, p: seq<u8>, len: int, rest: seq<Field>, f: Field, at: nat, out: string, room: int)
    requires Underway(fields, p, len, rest, at, out, room)
    requires rest != [] && rest[0] == f
    ensures at + Looked(Width(f)) <= |p|
    ensures Matches(fields, p) ==> FieldMatches(f, p[at..])
    ensures FieldMatches(f, p[at..]) ==> Space(f, p[at..]) <= room
  {
  }

  lemma Advance(fields: seq<Field>, p: seq<u8>, len: int, rest: seq<Field>, at: nat, out: string, room: int,
                f: Field, next: seq<Field>, text: string, at': nat, out': string, room': int)
    requires Underway(fields, p, len, rest, at, out, room)
    requires rest != [] && rest[0] == f && rest[1..] == next
    requires FieldMatches(f, p[at..]) && text == FieldText(f, p[at..])
    requires at' == at + Width(f) && out' == out + text && room' == room - |text|
    ensures Underway(fields, p, len, next, at', out', room')
  {
    var q := p[at..];
    OffsetFirst(rest);
    assert Matches(rest, q) == Matches(next, Behind(f, q));
    if Matches(rest, q) {
      TextFirst(rest, q, out);
    }
    assert Behind(f, q) == p[at'..];
  }

  lemma OffsetFirst(fields: seq<Field>)
    requires fields != []
    ensures Offset(fields, |fields|) == Width(fields[0]) + Offset(fields[1..], |fields[1..]|)
  {
  }

  lemma TextFirst(fields: seq<Field>, p: seq<u8>, out: string)
    requires fields != [] && Matches(fields, p)
    ensures var f, q := fields[0], Behind(fields[0], p);
      && out + FieldsText(fields, p) == out + FieldText(f, p) + FieldsText(fields[1..], q)
      && Remainder(fields, p) == Remainder(fields[1..], q)
  {
    var f, q := fields[0], Behind(fields[0], p);
    AppendAssoc(out, FieldText(f, p), FieldsText(fields[1..], q));
  }

  /** The text of one field */
  method PutField(pd: array<char>, po: nat, ps: array<u8>, pi: nat, f: Field, d: nat) returns (n: nat)
    requires pi + Looked(Width(f)) <= ps.Length && d == Number(Width(f), ps[pi..])
    requires po + Space(f, ps[pi..]) <= pd.Length
    modifies pd
    ensures var text := FieldText(f, old(ps[pi..]));
      n == |text| && pd[..po + n] == old(pd[..po]) + text
  {
    ghost var text := FieldText(f, ps[pi..]);
    if f.kind == TIME_STAMP {
      OverExtends(pd[..], po, text, ['\0']);
      n := Time2Text(pd, po, d);
    } else {
      assert text + [] == text;
      OverExtends(pd[..], po, text, []);
      n := Hex2Text(pd, po, ps, pi, Width(f));
    }
  }

  lemma OverExtends(mem: seq<char>, at: nat, text: string, more: string)
    requires at + |text + more| <= |mem|
    ensures Over(mem, at, text + more)[..at + |text|] == mem[..at] + text
  {
  }

  lemma FieldsNext(words: seq<Field>, j: nat)
    requires j < |words|
    ensures var rest := Fields(words[j..]);
      if words[j] == END then rest == [] else rest != [] && rest[0] == words[j] && rest[1..] == Fields(words[j + 1..])
  {
    assert words[j..][1..] == words[j + 1..];
  }

  /** The pattern has been followed up to its j-th field, and `out` is the text so far. */
  ghost predicate Followed(p: seq<u8>, len: int, words: seq<Field>, j: nat, pi: nat, out: string, room: int) {
    j <= |words| && Underway(Fields(words), p, len, Fields(words[j..]), pi, out, room)
  }

  lemma FollowsNone(p: seq<u8>, len: int, words: seq<Field>, out: string, room: int)
    requires Inside(Fields(words), p, len, room) && out == ""
    ensures Followed(p, len, words, 0, 0, out, room)
  {
    Begins(Fields(words), p, len, room);
    assert words[0..] == words;
  }

  lemma FollowsAll(p: seq<u8>, len: int, words: seq<Field>, j: nat, pi: nat, out: string, room: int)
    requires Followed(p, len, words, j, pi, out, room) && (j == |words| || words[j] == END)
    ensures Followed(p, len, words, |words|, pi, out, room) && Matches(Fields(words), p)
  {
    if j < |words| {
      FieldsNext(words, j);
    }
    assert words[|words|..] == [];
  }

  /** The inner loop of format_parse */
  method Compare(ps: array<u8>, ghost len: int, pd: array<char>, words: seq<Field>)
    returns (match_: bool, pi: nat, po: nat)
    requires |words| == 16
    requires Inside(Fields(words), ps[..], len, pd.Length)
    modifies pd
    ensures match_ <==> Matches(Fields(words), ps[..])
    ensures match_ ==> po <= pd.Length && Followed(ps[..], len, words, 16, pi, pd[..po], pd.Length - po)
  {
    pi, po := 0, 0;
    var j := 0;
    FollowsNone(ps[..], len, words, pd[..po], pd.Length);
    while j < 16 && words[j] != END
      invariant 0 <= j <= 16 && po <= pd.Length
      invariant Followed(ps[..], len, words, j, pi, pd[..po], pd.Length - po)
    {
      match_ := FieldFits(ps, len, words, j, pi, pd[..po], pd.Length - po);
      if !match_ {
        return;
      }
      pi, po := TakeField(ps, len, pd, words, j, pi, po);
      j := j + 1;
    }
    FollowsAll(ps[..], len, words, j, pi, pd[..po], pd.Length - po);
    match_ := true;
  }

  /** The comparison under the mask */
  method Differs(f: Field, d: nat, ghost p: seq<u8>) returns (differs: bool)
    requires Looked(Width(f)) <= |p| && d == Number(Width(f), p)
    ensures differs <==> !FieldMatches(f, p)
  {
    var m := Mask(f.bits % 16, f.bits / 16);
    ComparisonMatches(f, p);
    differs := And(d, m) != And(Wanted(f), m);
  }

  /** The field is compared. */
  method FieldFits(ps: array<u8>, ghost len: int, words: seq<Field>, j: nat, at: nat,
                   ghost out: string, ghost room: int)
    returns (fits: bool)
    requires j < |words| && words[j] != END && Followed(ps[..], len, words, j, at, out, room)
    ensures at + Looked(Width(words[j])) <= ps.Length
    ensures fits <==> FieldMatches(words[j], ps[..][at..])
    ensures fits ==> Space(words[j], ps[..][at..]) <= room
    ensures !fits ==> !Matches(Fields(words), ps[..])
  {
    AtNext(ps[..], len, words, j, at, out, room);
    assert ps[..][at..] == ps[at..];
    var d := Number(Width(words[j]), ps[at..]);
    var differs := Differs(words[j], d, ps[at..]);
    fits := !differs;
  }

  /** A field that matches is put into the text. */
  method TakeField(ps: array<u8>, ghost len: int, pd: array<char>, words: seq<Field>, j: nat, at: nat, out: nat)
    returns (pi: nat, po: nat)
    requires j < |words| && words[j] != END && out <= pd.Length
    requires Followed(ps[..], len, words, j, at, pd[..out], pd.Length - out)
    requires at + Looked(Width(words[j])) <= ps.Length && FieldMatches(words[j], ps[..][at..])
    requires Space(words[j], ps[..][at..]) <= pd.Length - out
    modifies pd
    ensures po <= pd.Length && Followed(ps[..], len, words, j + 1, pi, pd[..po], pd.Length - po)
  {
    ghost var p, sofar := ps[..], pd[..out];
    assert p[at..] == ps[at..];
    var n := PutField(pd, out, ps, at, words[j], Number(Width(words[j]), ps[at..]));
    po := out + n;
    pi := at + Width(words[j]);
    FollowsOn(p, len, words, j, at, sofar, pd.Length - out, FieldText(words[j], p[at..]), pi, pd[..po], pd.Length - po);
  }

  lemma AtNext(p: seq<u8>, len: int, words: seq<Field>, j: nat, at: nat, out: string, room: int)
    requires j < |words| && words[j] != END && Followed(p, len, words, j, at, out, room)
    ensures var f := words[j];
      && at + Looked(Width(f)) <= |p|
      && (Matches(Fields(words), p) ==> FieldMatches(f, p[at..]))
      && (FieldMatches(f, p[at..]) ==> Space(f, p[at..]) <= room)
  {
    FieldsNext(words, j);
    AtField(Fields(words), p, len, Fields(words[j..]), words[j], at, out, room);
  }

  lemma FollowsOn(p: seq<u8>, len: int, words: seq<Field>, j: nat, at: nat, out: string, room: int,
                  text: string, at': nat, out': string, room': int)
    requires j < |words| && words[j] != END && Followed(p, len, words, j, at, out, room)
    requires at <= |p| && FieldMatches(words[j], p[at..]) && text == FieldText(words[j], p[at..])
    requires at' == at + Width(words[j]) && out' == out + text && room' == room - |text|
    ensures Followed(p, len, words, j + 1, at', out', room')
  {
    FieldsNext(words, j);
    Advance(Fields(words), p, len, Fields(words[j..]), at, out, room,
            words[j], Fields(words[j + 1..]), text, at', out', room');
  }

  /** The memory begins with this text and a NUL. */
  ghost predicate Terminated(mem: seq<char>, text: string) {
    text + ['\0'] <= mem
  }

  /** Bin2Text, after a text */
  method DumpBehind(pd: array<char>, po: nat, ps: array<u8>, pi: nat, n: nat, ghost before: string, ghost x: seq<u8>)
    requires po <= pd.Length && before == pd[..po] && |Dump(x)| < pd.Length - po
    requires pi + Capped(n) <= ps.Length && x == ps[pi..pi + Capped(n)]
    modifies pd
    ensures Terminated(pd[..], before + Dump(x))
  {
    OverTerminated(pd[..], po, before, Dump(x));
    var m := Bin2Text(pd, po, ps, pi, n);
  }

  lemma OverTerminated(mem: seq<char>, at: nat, before: string, text: string)
    requires at + |text| < |mem| && before == mem[..at]
    ensures Terminated(Over(mem, at, text + ['\0']), before + text)
  {
  }

  lemma LeftIs(p: seq<u8>, at: nat, n: nat)
    requires at + Capped(n) <= |p|
    ensures Left(p[at..], n) == p[at..at + Capped(n)]
  {
  }

  method DumpRest(pd: array<char>, po: nat, ps: array<u8>, pi: nat, n: nat, ghost before: string)
    requires po <= pd.Length && before == pd[..po] && pi + Capped(n) <= ps.Length
    requires |Dump(Left(ps[..][pi..], n))| < pd.Length - po
    modifies pd
    ensures Terminated(pd[..], before + Dump(Left(ps[..][pi..], n)))
  {
    LeftIs(ps[..], pi, n);
    assert ps[..][pi..pi + Capped(n)] == ps[pi..pi + Capped(n)];
    DumpBehind(pd, po, ps, pi, n, before, ps[pi..pi + Capped(n)]);
  }

  /** What follows the last field: a dump of the rest of the packet, or only a NUL */
  method Finish(ps: array<u8>, left: int, pd: array<char>, pi: nat, po: nat, ghost before: string)
    requires po <= pd.Length && pd[..po] == before
    requires pi <= ps.Length && (left > 0 ==> pi + Capped(left) <= ps.Length)
    requires |Dump(Left(ps[..][pi..], left))| < pd.Length - po
    modifies pd
    ensures Terminated(pd[..], before + Dump(Left(ps[..][pi..], left)))
  {
    if left > 0 {
      DumpRest(pd, po, ps, pi, left, before);
    } else {
      EndText(pd, po, before);
      assert before + "" == before;
    }
  }

  method EndText(pd: array<char>, po: nat, ghost before: string)
    requires po < pd.Length && before == pd[..po]
    modifies pd
    ensures Terminated(pd[..], before)
  {
    pd[po] := '\0';
    assert pd[..][..po + 1] == before + ['\0'];
  }

  lemma ShownLast(p: seq<u8>, len: int, words: seq<Field>, pi: nat, out: string, room: int)
    requires Followed(p, len, words, |words|, pi, out, room) && Matches(Fields(words), p)
    ensures pi <= |p| && (len - pi > 0 ==> pi + Capped(len - pi) <= |p|)
    ensures var rest := Left(p[pi..], len - pi);
      |Dump(rest)| < room && Shown(Fields(words), p, len) == out + Dump(rest)
  {
    assert words[|words|..] == [];
    ShownIs(Fields(words), p, len, [], pi, out, room);
  }

  lemma ShownIs(fields: seq<Field>, p: seq<u8>, len: int, rest: seq<Field>, pi: nat, out: string, room: int)
    requires Underway(fields, p, len, rest, pi, out, room) && Matches(fields, p) && rest == []
    ensures len - pi > 0 ==> Capped(len - pi) <= |p[pi..]|
    ensures |Dump(Left(p[pi..], len - pi))| < room
    ensures Shown(fields, p, len) == out + Dump(Left(p[pi..], len - pi))
  {
    NothingLeft(p[pi..], rest);
    NothingInside(rest, p[pi..], len - pi, room);
    assert out + "" == out;
    ShownOf(fields, p, len, out, p[pi..], len - pi);
  }

  lemma {:induction false} ShownOf(fields: seq<Field>, p: seq<u8>, len: int, text: string, q: seq<u8>, left: int)
    requires Matches(fields, p)
    requires text == FieldsText(fields, p) && q == Remainder(fields, p) && left == len - Offset(fields, |fields|)
    ensures Shown(fields, p, len) == WithDump(text, q, left)
  {
  }

  lemma NothingInside(rest: seq<Field>, q: seq<u8>, left: int, room: int)
    requires rest == [] && Inside(rest, q, left, room)
    ensures left > 0 ==> Capped(left) <= |q|
    ensures |Dump(Left(q, left))| < room
  {
  }

  lemma NothingLeft(p: seq<u8>, rest: seq<Field>)
    requires rest == []
    ensures Offset(rest, |rest|) == 0
    ensures Matches(rest, p) && FieldsText(rest, p) == "" && Remainder(rest, p) == p
  {
  }

  /** No pattern before the i-th matches. */
  ghost predicate Reached(buff: seq<Field>, i: nat, p: seq<u8>)
    requires 16 * i <= |buff|
  {
    forall h: nat :: h < i ==> !Matches(Pattern(buff, h), p)
  }

  lemma ReachedNext(buff: seq<Field>, i: nat, p: seq<u8>)
    requires 16 * i + 16 <= |buff| && Reached(buff, i, p) && !Matches(Pattern(buff, i), p)
    ensures Reached(buff, i + 1, p)
  {
  }

  /** format_parse.  The result is the first pattern that the packet matches, and the text shows
      the packet by it; what was written for patterns that failed does not show.
      The source first reads ps[3], to no effect. */
  method FormatParse(ps: array<u8>, len: nat, pd: array<char>, formatBuff: array<Field>, formatNum: nat)
    returns (id: int)
    requires 16 * formatNum <= formatBuff.Length
    requires 4 <= ps.Length
    requires forall i: nat :: i < formatNum && Reached(formatBuff[..], i, ps[..]) ==>
      Inside(Pattern(formatBuff[..], i), ps[..], len, pd.Length)
    requires Reached(formatBuff[..], formatNum, ps[..]) ==> Inside([], ps[..], len, pd.Length)
    modifies pd
    ensures -1 <= id < formatNum
    ensures Reached(formatBuff[..], if id < 0 then formatNum else id, ps[..])
    ensures id >= 0 ==> Matches(Pattern(formatBuff[..], id), ps[..])
    ensures id >= 0 ==> Terminated(pd[..], Shown(Pattern(formatBuff[..], id), ps[..], len))
    ensures id < 0 ==> Terminated(pd[..], Dump(Left(ps[..], len)))
  {
    ghost var buff, p := formatBuff[..], ps[..];
    var i := 0;
    while i < formatNum
      invariant 0 <= i <= formatNum
      invariant formatBuff[..] == buff && ps[..] == p
      invariant Reached(buff, i, p)
    {
      var words := formatBuff[16 * i..16 * i + 16];
      assert Pattern(buff, i) == Fields(words);
      var found := Try(ps, len, pd, words);
      if found {
        return i;
      }
      ReachedNext(buff, i, p);
      i := i + 1;
    }
    DumpAll(ps, len, pd);
    id := -1;
  }

  /** One pattern, to the end if it matches */
  method Try(ps: array<u8>, len: nat, pd: array<char>, words: seq<Field>) returns (found: bool)
    requires |words| == 16
    requires Inside(Fields(words), ps[..], len, pd.Length)
    modifies pd
    ensures found <==> Matches(Fields(words), ps[..])
    ensures found ==> Terminated(pd[..], Shown(Fields(words), ps[..], len))
  {
    var pi, po;
    found, pi, po := Compare(ps, len, pd, words);
    if found {
      ShownLast(ps[..], len, words, pi, pd[..po], pd.Length - po);
      Finish(ps, len - pi, pd, pi, po, pd[..po]);
    }
  }

  /** A packet that matches nothing */
  method DumpAll(ps: array<u8>, len: nat, pd: array<char>)
    requires Inside([], ps[..], len, pd.Length)
    modifies pd
    ensures Terminated(pd[..], Dump(Left(ps[..], len)))
  {
    assert ps[..][0..] == ps[..];
    DumpRest(pd, 0, ps, 0, len, "");
    assert "" + Dump(Left(ps[..], len)) == Dump(Left(ps[..], len));
  }
}
