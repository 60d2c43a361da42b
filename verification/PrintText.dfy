/** What printf.c prints: the text of padded strings and numbers, and a reader that undoes it. */
module PrintText {
  import opened Common

  /** The flag bits PAD_RIGHT and PAD_ZERO */
  datatype Pad = Pad(right: bool, zero: bool)

  const TWO32: nat := 0x1_0000_0000

  function Repeat(c: char, n: nat): (s: string)
    ensures |s| == n && forall i :: 0 <= i < n ==> s[i] == c
  {
    seq(n, _ => c)
  }

  /** prints: the string, filled up to the width on one side */
  function Padded(s: string, width: int, pad: Pad): (t: string)
    ensures |t| == if width > |s| then width else |s|
  {
    var fill := Repeat(if pad.zero then '0' else ' ', if width > |s| then width - |s| else 0);
    if pad.right then s + fill else fill + s
  }

  predicate IsBase(b: nat) {
    b == 10 || b == 16
  }

  function DigitChar(d: nat, letbase: char): char
    requires d < 16 && (letbase == 'a' || letbase == 'A')
  {
    if d < 10 then '0' + d as char else letbase + (d - 10) as char
  }

  /** u / b and u % b, for the bases there are */
  function Quot(u: nat, b: nat): (q: nat)
    requires IsBase(b)
    ensures q == u / b && (u > 0 ==> q < u)
  {
    if b == 10 then u / 10 else u / 16
  }

  function Rem(u: nat, b: nat): (r: nat)
    requires IsBase(b)
    ensures r == u % b < b
  {
    if b == 10 then u % 10 else u % 16
  }

  function Digits(u: nat, b: nat, letbase: char): string
    requires IsBase(b) && (letbase == 'a' || letbase == 'A')
  {
    if u == 0 then "" else Digits(Quot(u, b), b, letbase) + [DigitChar(Rem(u, b), letbase)]
  }

  /** The text printi makes of a magnitude and a sign */
  function SignedText(u: nat, negative: bool, width: int, pad: Pad, b: nat, letbase: char): string
    requires IsBase(b) && (letbase == 'a' || letbase == 'A')
  {
    var digits := Digits(u, b, letbase);
    if !negative then Padded(digits, width, pad)
    else if width != 0 && pad.zero then "-" + Padded(digits, width - 1, pad)
    else Padded("-" + digits, width, pad)
  }

  /** A 32-bit int as the unsigned it is converted to */
  function Unsigned(i: int): nat
    requires -0x8000_0000 <= i < 0x8000_0000
  {
    if i < 0 then i + TWO32 else i
  }

  /** printi */
  function Number(i: int, b: nat, sg: bool, width: int, pad: Pad, letbase: char): string
    requires -0x8000_0000 <= i < 0x8000_0000
    requires IsBase(b) && (letbase == 'a' || letbase == 'A')
  {
    if i == 0 then Padded("0", width, pad)
    else if sg && b == 10 && i < 0 then SignedText(-i, true, width, pad, b, letbase)
    else SignedText(Unsigned(i), false, width, pad, b, letbase)
  }

  // ---------------------------------------------------------------- reading a number back

  function DigitValue(c: char): Option<nat> {
    if '0' <= c <= '9' then Some((c - '0') as nat)
    else if 'a' <= c <= 'f' then Some((c - 'a') as nat + 10)
    else if 'A' <= c <= 'F' then Some((c - 'A') as nat + 10)
    else None
  }

  function Times(v: nat, b: nat): nat
    requires IsBase(b)
  {
    if b == 10 then 10 * v else 16 * v
  }

  function ReadDigits(s: string, b: nat): Option<nat>
    requires IsBase(b)
  {
    if s == "" then Some(0) else
    var init, last := ReadDigits(s[..|s| - 1], b), DigitValue(s[|s| - 1]);
    if init.Some? && last.Some? && last.value < b then Some(Times(init.value, b) + last.value) else None
  }

  function TrimLeft(s: string): string {
    if s != "" && s[0] == ' ' then TrimLeft(s[1..]) else s
  }

  function TrimRight(s: string): string {
    if s != "" && s[|s| - 1] == ' ' then TrimRight(s[..|s| - 1]) else s
  }

  function Signed(negative: bool, v: nat): int {
    var n: int := v;
    if negative then -n else n
  }

  /** An optional sign and at least one digit, between blanks */
  function Read(s: string, b: nat): Option<int>
    requires IsBase(b)
  {
    var t := TrimRight(TrimLeft(s));
    if t == "" then None
    else if t[0] == '-' && |t| > 1 then
      match ReadDigits(t[1..], b) { case Some(v) => Some(Signed(true, v)) case None => None }
    else
      match ReadDigits(t, b) { case Some(v) => Some(Signed(false, v)) case None => None }
  }

  // ---------------------------------------------------------------- round trip

  lemma Decimals(u: nat, b: nat)
    requires IsBase(b)
    ensures Times(Quot(u, b), b) + Rem(u, b) == u
  {
  }

  /** The number a text stands for, by the conversion that printed it */
  function Meant(i: int, b: nat, sg: bool): int
    requires -0x8000_0000 <= i < 0x8000_0000
  {
    if sg && b == 10 then i else Unsigned(i)
  }

  lemma {:induction false} DigitsRead(u: nat, b: nat, letbase: char)
    requires IsBase(b) && (letbase == 'a' || letbase == 'A')
    ensures ReadDigits(Digits(u, b, letbase), b) == Some(u)
    ensures u > 0 ==> Digits(u, b, letbase) != ""
    ensures forall c :: c in Digits(u, b, letbase) ==> c != ' ' && c != '-' && c != '\0'
    decreases u
  {
    if u == 0 {
    } else {
      var q, d := Quot(u, b), Rem(u, b);
      DigitsRead(q, b, letbase);
      Decimals(u, b);
      DigitReads(d, letbase);
      SnocReads(Digits(q, b, letbase), DigitChar(d, letbase), b);
    }
  }

  lemma DigitReads(d: nat, letbase: char)
    requires d < 16 && (letbase == 'a' || letbase == 'A')
    ensures DigitValue(DigitChar(d, letbase)) == Some(d)
    ensures DigitChar(d, letbase) != ' ' && DigitChar(d, letbase) != '-' && DigitChar(d, letbase) != '\0'
  {
  }

  lemma {:induction false} SnocReads(s: string, c: char, b: nat)
    requires IsBase(b)
    requires ReadDigits(s, b).Some? && DigitValue(c).Some? && DigitValue(c).value < b
    ensures ReadDigits(s + [c], b) == Some(Times(ReadDigits(s, b).value, b) + DigitValue(c).value)
  {
    assert (s + [c])[..|s|] == s;
  }

  lemma {:induction false} LeadingZeros(n: nat, s: string, b: nat)
    requires IsBase(b)
    ensures ReadDigits(Repeat('0', n) + s, b) == ReadDigits(s, b)
    decreases |s|, n
  {
    var z := Repeat('0', n);
    if s == "" {
      assert z + s == z;
      if n > 0 {
        assert z[..n - 1] == Repeat('0', n - 1);
        LeadingZeros(n - 1, "", b);
        assert Repeat('0', n - 1) + "" == Repeat('0', n - 1);
      }
    } else {
      assert (z + s)[..|z + s| - 1] == z + s[..|s| - 1];
      LeadingZeros(n, s[..|s| - 1], b);
    }
  }

  /** Zeros behind a number make it greater. */
  lemma {:induction false} TrailingZeros(s: string, n: nat, b: nat)
    requires IsBase(b) && n > 0
    requires ReadDigits(s, b).Some? && ReadDigits(s, b).value > 0
    ensures ReadDigits(s + Repeat('0', n), b).Some?
    ensures ReadDigits(s + Repeat('0', n), b).value > ReadDigits(s, b).value
    decreases n
  {
    var t := s + Repeat('0', n);
    assert t[..|t| - 1] == s + Repeat('0', n - 1);
    if n > 1 {
      TrailingZeros(s, n - 1, b);
    } else {
      assert s + Repeat('0', 0) == s;
    }
  }

  predicate NoBlankEnds(s: string) {
    s != "" && s[0] != ' ' && s[|s| - 1] != ' '
  }

  lemma {:induction false} TrimLeftBlanks(n: nat, s: string)
    requires NoBlankEnds(s)
    ensures TrimLeft(Repeat(' ', n) + s) == s
  {
    if n > 0 {
      assert (Repeat(' ', n) + s)[1..] == Repeat(' ', n - 1) + s;
      TrimLeftBlanks(n - 1, s);
    } else {
      assert Repeat(' ', 0) + s == s;
    }
  }

  lemma {:induction false} TrimRightBlanks(s: string, n: nat)
    requires NoBlankEnds(s)
    ensures TrimRight(s + Repeat(' ', n)) == s
  {
    var t := s + Repeat(' ', n);
    if n > 0 {
      assert t[..|t| - 1] == s + Repeat(' ', n - 1);
      TrimRightBlanks(s, n - 1);
    } else {
      assert t == s;
    }
  }

  /** Blanks on either side are not read. */
  lemma ReadPadded(s: string, width: int, right: bool, b: nat)
    requires NoBlankEnds(s) && IsBase(b)
    ensures Read(Padded(s, width, Pad(right, false)), b) == Read(s, b)
  {
    var n := if width > |s| then width - |s| else 0;
    var t := Padded(s, width, Pad(right, false));
    if right {
      assert t[0] == s[0];
      TrimRightBlanks(s, n);
    } else {
      TrimLeftBlanks(n, s);
      TrimRightBlanks(s, 0);
      assert s + Repeat(' ', 0) == s;
    }
    TrimRightBlanks(s, 0);
    assert s + Repeat(' ', 0) == s;
  }

  /** Reading digits, or a minus sign and digits, that have no blanks about them */
  lemma ReadPlain(digits: string, negative: bool, b: nat)
    requires IsBase(b)
    requires digits != "" && forall c :: c in digits ==> c != ' ' && c != '-'
    requires ReadDigits(digits, b).Some?
    ensures var s := if negative then "-" + digits else digits;
      NoBlankEnds(s) && Read(s, b) == Some(Signed(negative, ReadDigits(digits, b).value))
  {
    var s := if negative then "-" + digits else digits;
    assert digits[0] in digits && digits[|digits| - 1] in digits;
    TrimRightBlanks(s, 0);
    assert s + Repeat(' ', 0) == s;
    if negative {
      assert s[1..] == digits;
    }
  }

  /** The condition under which zeros are written behind the digits of a number */
  predicate ZerosBehind(i: int, b: nat, sg: bool, width: int, pad: Pad, letbase: char)
    requires -0x8000_0000 <= i < 0x8000_0000
    requires IsBase(b) && (letbase == 'a' || letbase == 'A')
  {
    pad.right && pad.zero && i != 0 && width > |Number(i, b, sg, 0, pad, letbase)|
  }

  lemma DigitsPadded(digits: string, u: nat, negative: bool, width: int, pad: Pad, b: nat)
    requires IsBase(b) && u > 0 && pad.zero
    requires digits != "" && ReadDigits(digits, b) == Some(u)
    requires forall c :: c in digits ==> c != ' ' && c != '-'
    ensures var s := Padded(digits, width, pad);
      (Read(if negative then "-" + s else s, b) == Some(Signed(negative, u)))
        <==> !(pad.right && width > |digits|)
  {
    var n := if width > |digits| then width - |digits| else 0;
    var s := Padded(digits, width, pad);
    assert forall c :: c in s ==> c in digits || c == '0';
    if pad.right {
      if n > 0 {
        TrailingZeros(digits, n, b);
      } else {
        assert s == digits;
      }
    } else {
      LeadingZeros(n, digits, b);
    }
    ReadPlain(s, negative, b);
  }

  /** Every 32-bit value reads back from its text, in every width and padding, except that
      zeros written behind the digits change it. */
  lemma NumberReadsBack(i: int, b: nat, sg: bool, width: nat, pad: Pad, letbase: char)
    requires -0x8000_0000 <= i < 0x8000_0000
    requires IsBase(b) && (letbase == 'a' || letbase == 'A')
    ensures Read(Number(i, b, sg, width, pad, letbase), b) == Some(Meant(i, b, sg))
       <==> !ZerosBehind(i, b, sg, width, pad, letbase)
  {
    if i == 0 {
      ZeroReadsBack(width, pad, b);
    } else {
      var negative := sg && b == 10 && i < 0;
      var u := if negative then -i else Unsigned(i);
      assert Meant(i, b, sg) == Signed(negative, u);
      TextReadsBack(u, negative, width, pad, b, letbase,
                    Number(i, b, sg, width, pad, letbase), Number(i, b, sg, 0, pad, letbase));
    }
  }

  lemma TextReadsBack(u: nat, negative: bool, width: nat, pad: Pad, b: nat, letbase: char, text: string, plain: string)
    requires IsBase(b) && (letbase == 'a' || letbase == 'A') && u > 0
    requires text == SignedText(u, negative, width, pad, b, letbase)
    requires plain == SignedText(u, negative, 0, pad, b, letbase)
    ensures Read(text, b) == Some(Signed(negative, u)) <==> !(pad.right && pad.zero && width > |plain|)
  {
    SignedReadsBack(u, negative, width, pad, b, letbase);
  }

  lemma SignedReadsBack(u: nat, negative: bool, width: nat, pad: Pad, b: nat, letbase: char)
    requires IsBase(b) && (letbase == 'a' || letbase == 'A') && u > 0
    ensures Read(SignedText(u, negative, width, pad, b, letbase), b) == Some(Signed(negative, u))
       <==> !(pad.right && pad.zero && width > |SignedText(u, negative, 0, pad, b, letbase)|)
  {
    var digits := Digits(u, b, letbase);
    DigitsRead(u, b, letbase);
    assert |SignedText(u, negative, 0, pad, b, letbase)| == |digits| + if negative then 1 else 0;
    if pad.zero && (!negative || width != 0) {
      DigitsPadded(digits, u, negative, if negative then width - 1 else width, pad, b);
    } else {
      ReadPlain(digits, negative, b);
      var s := if negative then "-" + digits else digits;
      if pad.zero {
        assert Padded(s, width, pad) == s;
      } else {
        ReadPadded(s, width, pad.right, b);
      }
    }
  }

  lemma ZeroReadsBack(width: nat, pad: Pad, b: nat)
    requires IsBase(b)
    ensures Read(Padded("0", width, pad), b) == Some(0)
  {
    var n := if width > 1 then width - 1 else 0;
    assert ReadDigits("", b) == Some(0);
    assert "0"[..0] == "";
    assert ReadDigits("0", b) == Some(0);
    if pad.zero {
      var s := Padded("0", width, pad);
      assert s == Repeat('0', n) + "0";
      LeadingZeros(n, "0", b);
      ReadPlain(s, false, b);
    } else {
      ReadPlain("0", false, b);
      ReadPadded("0", width, pad.right, b);
    }
  }

  function Ten(k: nat): nat {
    if k == 0 then 1 else 10 * Ten(k - 1)
  }

  lemma {:induction false} DigitCount(u: nat, b: nat, letbase: char, k: nat)
    requires IsBase(b) && (letbase == 'a' || letbase == 'A')
    requires u < Ten(k)
    ensures |Digits(u, b, letbase)| <= k
    decreases k
  {
    if u == 0 {
    } else {
      DigitCount(Quot(u, b), b, letbase, k - 1);
    }
  }

  /** An unsigned 32-bit number has at most ten digits. */
  lemma TenDigits(u: nat, b: nat, letbase: char)
    requires IsBase(b) && (letbase == 'a' || letbase == 'A')
    requires u < TWO32
    ensures |Digits(u, b, letbase)| <= 10
  {
    assert Ten(5) == 100000;
    assert Ten(10) == 100000 * Ten(5);
    DigitCount(u, b, letbase, 10);
  }

  /** The letters of a hexadecimal number are of the case asked for. */
  lemma {:induction false} DigitsCase(u: nat, b: nat, letbase: char)
    requires IsBase(b) && (letbase == 'a' || letbase == 'A')
    ensures forall c :: c in Digits(u, b, letbase) ==>
              '0' <= c <= '9' || (b == 16 && letbase <= c <= if letbase == 'a' then 'f' else 'F')
    decreases u
  {
    if u == 0 {
    } else {
      DigitsCase(Quot(u, b), b, letbase);
    }
  }

  /** The text is as long as it must be and as wide as it was asked to be. */
  lemma NumberWidth(i: int, b: nat, sg: bool, width: nat, pad: Pad, letbase: char)
    requires -0x8000_0000 <= i < 0x8000_0000
    requires IsBase(b) && (letbase == 'a' || letbase == 'A')
    ensures var natural := |Number(i, b, sg, 0, pad, letbase)|;
      |Number(i, b, sg, width, pad, letbase)| == if width > natural then width else natural
  {
  }

  // ---------------------------------------------------------------- what the reader and the text are

  /** The reader takes sixteen digits, in either case, for what they are. */
  lemma DigitsAreRead(k: nat)
    requires k < 16
    ensures DigitValue("0123456789abcdef"[k]) == Some(k) == DigitValue("0123456789ABCDEF"[k])
  {
  }

  /** Each digit further counts the ones before it b-fold. */
  lemma {:induction false} PlacesAreRead(s: string, c: char, b: nat)
    requires b == 10 || b == 16
    requires ReadDigits(s, b).Some? && DigitValue(c).Some? && DigitValue(c).value < b
    ensures ReadDigits("", b) == Some(0)
    ensures ReadDigits(s + [c], b) == Some(ReadDigits(s, b).value * b + DigitValue(c).value)
  {
    SnocReads(s, c, b);
  }

  /** The text of a number has no zero before its digits that need not be there. */
  lemma {:induction false} NoLeadingZero(u: nat, b: nat, letbase: char)
    requires IsBase(b) && (letbase == 'a' || letbase == 'A') && u > 0
    ensures Digits(u, b, letbase) != "" && Digits(u, b, letbase)[0] != '0'
    decreases u
  {
    if Quot(u, b) == 0 {
    } else {
      NoLeadingZero(Quot(u, b), b, letbase);
    }
  }

  /** This text is the string, with fillers on one side of it as far as the width asks for. */
  ghost predicate Filled(t: string, s: string, width: nat, right: bool, filler: char) {
    && |t| == (if width > |s| then width else |s|)
    && (if right then t[..|s|] == s && forall k :: |s| <= k < |t| ==> t[k] == filler
        else t[|t| - |s|..] == s && forall k :: 0 <= k < |t| - |s| ==> t[k] == filler)
  }

  lemma PaddedFills(s: string, width: nat, pad: Pad)
    ensures Filled(Padded(s, width, pad), s, width, pad.right, if pad.zero then '0' else ' ')
  {
  }

  /** A number that is not filled up with zeros is its plain text filled up with blanks. */
  lemma NumberFills(i: int, b: nat, sg: bool, width: nat, right: bool, letbase: char)
    requires -0x8000_0000 <= i < 0x8000_0000
    requires IsBase(b) && (letbase == 'a' || letbase == 'A')
    ensures var pad := Pad(right, false);
      Filled(Number(i, b, sg, width, pad, letbase), Number(i, b, sg, 0, pad, letbase), width, right, ' ')
  {
    var pad := Pad(right, false);
    var plain := Number(i, b, sg, 0, pad, letbase);
    PlainNumber(i, b, sg, width, pad, letbase);
    PaddedFills(plain, width, pad);
  }

  lemma PlainNumber(i: int, b: nat, sg: bool, width: nat, pad: Pad, letbase: char)
    requires -0x8000_0000 <= i < 0x8000_0000 && !pad.zero
    requires IsBase(b) && (letbase == 'a' || letbase == 'A')
    ensures Number(i, b, sg, width, pad, letbase) == Padded(Number(i, b, sg, 0, pad, letbase), width, pad)
  {
    Unpadded("0", pad);
    if i != 0 {
      var negative := sg && b == 10 && i < 0;
      var digits := Digits(if negative then -i else Unsigned(i), b, letbase);
      Unpadded(if negative then "-" + digits else digits, pad);
    }
  }

  lemma Unpadded(s: string, pad: Pad)
    ensures Padded(s, 0, pad) == s
  {
  }

  /** Only blanks, zeros for fillers, a minus sign, digits, and letters of one case */
  lemma NumberCase(i: int, b: nat, sg: bool, width: nat, pad: Pad, letbase: char, c: char)
    requires -0x8000_0000 <= i < 0x8000_0000
    requires IsBase(b) && (letbase == 'a' || letbase == 'A')
    requires c in Number(i, b, sg, width, pad, letbase)
    ensures c == ' ' || c == '-' || '0' <= c <= '9'
      || (b == 16 && letbase == 'a' && 'a' <= c <= 'f') || (b == 16 && letbase == 'A' && 'A' <= c <= 'F')
  {
    if i != 0 {
      var negative := sg && b == 10 && i < 0;
      var u := if negative then -i else Unsigned(i);
      DigitsCase(u, b, letbase);
      PaddedElement(Digits(u, b, letbase), width, pad, c);
      if negative {
        PaddedElement(Digits(u, b, letbase), width - 1, pad, c);
        PaddedElement("-" + Digits(u, b, letbase), width, pad, c);
      }
    } else {
      PaddedElement("0", width, pad, c);
    }
  }

  lemma PaddedElement(s: string, width: int, pad: Pad, c: char)
    ensures c in Padded(s, width, pad) ==> c in s || c == ' ' || c == '0'
  {
  }
}
