/** The hex dump of tools/vc_beacon_configurator/tl_ble_moduleDlg.cpp and its reader. */
module HexText {
  import opened Common

  /** arrb2t: the hexadecimal digits, in lower case */
  function HexDigit(d: nat): char
    requires d < 16
  {
    if d < 10 then '0' + d as char else 'a' + (d - 10) as char
  }

  lemma DigitTable(d: nat)
    requires d < 16
    ensures HexDigit(d) == "0123456789abcdef"[d]
  {
  }

  const MAXB2TSIZE: nat := 65536

  /** arrh2i: 16 for what is not a hexadecimal digit */
  function HexValue(c: char): (v: nat)
    ensures v <= 16
  {
    if '0' <= c <= '9' then (c - '0') as nat
    else if 'A' <= c <= 'F' then (c - 'A') as nat + 10
    else if 'a' <= c <= 'f' then (c - 'a') as nat + 10
    else 16
  }

  // ---------------------------------------------------------------- the dump

  /** What follows the i-th byte: a blank, a second one in the middle of a line, a line end
      after sixteen bytes */
  function Gap(i: nat): string {
    if i % 16 == 7 then "  " else if i % 16 == 15 then " \r\n" else " "
  }

  function Pair(b: u8): string {
    [HexDigit(b / 16), HexDigit(b % 16)]
  }

  function Chunk(b: u8, i: nat): string {
    Pair(b) + Gap(i)
  }

  function Dump(x: seq<u8>): string {
    if x == [] then "" else Dump(x[..|x| - 1]) + Chunk(x[|x| - 1], |x| - 1)
  }

  /** The length of the text before its NUL */
  lemma {:induction false} DumpLength(x: seq<u8>)
    ensures |Dump(x)| == 3 * |x| + (|x| + 8) / 16 + 2 * (|x| / 16)
  {
    if x == [] {
    } else {
      DumpLength(x[..|x| - 1]);
      GapLength(|x| - 1);
    }
  }

  /** At this place of the text the i-th byte is shown: two digits, the high one first, in lower case;
      then a blank, a second one in the middle of a line of sixteen, a line end after it. */
  predicate ShownAt(t: string, at: nat, b: u8, i: nat) {
    && at + 3 <= |t|
    && t[at] == "0123456789abcdef"[b / 16] && t[at + 1] == "0123456789abcdef"[b % 16] && t[at + 2] == ' '
    && (i % 16 == 7 ==> at + 4 <= |t| && t[at + 3] == ' ')
    && (i % 16 == 15 ==> at + 5 <= |t| && t[at + 3] == '\r' && t[at + 4] == '\n')
  }

  /** Where each byte is in the text, and how it is shown */
  lemma {:induction false} DumpAt(x: seq<u8>, i: nat)
    requires i < |x|
    ensures ShownAt(Dump(x), Place(i), x[i], i)
    decreases |x|
  {
    var init, last := x[..|x| - 1], |x| - 1;
    if i < last {
      DumpAt(init, i);
      StillShown(Dump(init), Chunk(x[last], last), Place(i), x[i], i);
    } else {
      LastAt(x, init, last);
    }
  }

  lemma {:induction false} LastAt(x: seq<u8>, init: seq<u8>, last: nat)
    requires last + 1 == |x| && init == x[..last]
    ensures ShownAt(Dump(x), Place(last), x[last], last)
  {
    DumpPlace(init);
    ChunkAt(Dump(init), x[last], last);
  }

  lemma {:induction false} DumpPlace(x: seq<u8>)
    ensures |Dump(x)| == Place(|x|)
  {
    DumpLength(x);
  }

  /** How many characters come before those of the i-th byte */
  function Place(i: nat): nat {
    3 * i + (i + 8) / 16 + 2 * (i / 16)
  }

  lemma StillShown(t: string, more: string, at: nat, b: u8, i: nat)
    requires ShownAt(t, at, b, i)
    ensures ShownAt(t + more, at, b, i)
  {
  }

  lemma ChunkAt(before: string, b: u8, i: nat)
    ensures ShownAt(before + Chunk(b, i), |before|, b, i)
  {
    DigitTable(b / 16);
    DigitTable(b % 16);
  }

  lemma GapLength(i: nat)
    ensures |Gap(i)| == 1 + ((i + 1 + 8) / 16 - (i + 8) / 16) + 2 * ((i + 1) / 16 - i / 16)
  {
  }

  // ---------------------------------------------------------------- the reader

  /** The text breaks into pairs with separators below '0' between them. */
  predicate Paired(t: string)
    decreases |t|
  {
    t == "" || if t[0] < '0' then Paired(t[1..]) else |t| > 1 && Paired(t[2..])
  }

  function PairValue(dh: char, dl: char): u8 {
    (16 * HexValue(dh) + HexValue(dl)) % 256
  }

  function Bytes(t: string): seq<u8>
    requires Paired(t)
    decreases |t|
  {
    if t == "" then []
    else if t[0] < '0' then Bytes(t[1..])
    else [PairValue(t[0], t[1])] + Bytes(t[2..])
  }

  // ---------------------------------------------------------------- where the reader stops

  /** The reader, let loose on this memory, finds a NUL to stop at before the memory ends. */
  predicate Ends(mem: string)
    decreases |mem|
  {
    && mem != ""
    && (mem[0] == '\0' || if mem[0] < '0' then Ends(mem[1..]) else |mem| > 1 && Ends(mem[2..]))
  }

  /** Where that NUL is */
  function StopsAt(mem: string): (at: nat)
    requires Ends(mem)
    ensures at < |mem| && mem[at] == '\0'
    decreases |mem|
  {
    if mem[0] == '\0' then 0 else if mem[0] < '0' then 1 + StopsAt(mem[1..]) else 2 + StopsAt(mem[2..])
  }

  /** What it reads on the way */
  function ReadFrom(mem: string): seq<u8>
    requires Ends(mem)
    decreases |mem|
  {
    if mem[0] == '\0' then []
    else if mem[0] < '0' then ReadFrom(mem[1..])
    else [PairValue(mem[0], mem[1])] + ReadFrom(mem[2..])
  }

  /** A text with its terminator, and whatever is in memory behind it: the reader stops on the
      terminator exactly when the text is in pairs.  If it is not, the terminator is taken for
      the second half of a pair, and the reader goes on with what is behind it. */
  lemma {:induction false} StopsOnTerminator(t: string, behind: string)
    requires '\0' !in t
    ensures var mem := t + ['\0'] + behind;
      && (Ends(mem) && StopsAt(mem) == |t| <==> Paired(t))
      && (Paired(t) ==> ReadFrom(mem) == Bytes(t))
      && (!Paired(t) ==> (Ends(mem) <==> Ends(behind)))
      && (!Paired(t) && Ends(behind) ==> StopsAt(mem) == |t| + 1 + StopsAt(behind))
    decreases |t|
  {
    var mem := t + ['\0'] + behind;
    if t == "" {
      assert mem[0] == '\0';
    } else if t[0] >= '0' && |t| == 1 {
      assert mem[2..] == behind;
    } else {
      var n := if t[0] < '0' then 1 else 2;
      assert mem[n..] == t[n..] + ['\0'] + behind;
      assert t[0] in t && mem[0] == t[0] && (n == 2 ==> mem[1] == t[1]);
      StopsOnTerminator(t[n..], behind);
    }
  }

  /** The reader takes digits of either case. */
  lemma EitherCase(k: nat)
    requires k < 16
    ensures HexValue("0123456789abcdef"[k]) == HexValue("0123456789ABCDEF"[k]) == k
  {
  }

  /** What the reader does with what it finds: characters below '0' are skipped, any other is the
      high half of a byte whose low half comes next, and anything that is no digit counts 16. */
  lemma ReadsPair(c: char, d: char, mem: string)
    requires Ends(mem)
    ensures 0 < c as int < 48 ==> Ends([c] + mem) && ReadFrom([c] + mem) == ReadFrom(mem)
    ensures c as int >= 48 ==> Ends([c, d] + mem)
    ensures c as int >= 48 ==> ReadFrom([c, d] + mem) == [(16 * HexValue(c) + HexValue(d)) % 256] + ReadFrom(mem)
    ensures !('0' <= c <= '9') && !('a' <= c <= 'f') && !('A' <= c <= 'F') ==> HexValue(c) == 16
  {
    assert ([c] + mem)[1..] == mem;
    assert ([c, d] + mem)[2..] == mem;
  }

  lemma {:induction false} BytesAppend(s: string, t: string)
    requires Paired(s) && Paired(t)
    ensures Paired(s + t) && Bytes(s + t) == Bytes(s) + Bytes(t)
    decreases |s|
  {
    if s == "" {
      assert s + t == t;
    } else {
      var n := if s[0] < '0' then 1 else 2;
      assert (s + t)[n..] == s[n..] + t;
      BytesAppend(s[n..], t);
    }
  }

  lemma GapIsSkipped(i: nat)
    ensures Paired(Gap(i)) && Bytes(Gap(i)) == []
  {
    var g := Gap(i);
    assert g[1..] == "" || g[1..] == " " || g[1..] == "\r\n";
    assert "\r\n"[1..] == "\n" && "\n"[1..] == "" && " "[1..] == "";
    assert Bytes("\n") == [] && Bytes("\r\n") == [] && Bytes(" ") == [];
  }

  lemma PairIsRead(b: u8)
    ensures Paired(Pair(b)) && Bytes(Pair(b)) == [b]
  {
    DigitIsRead(b / 16);
    DigitIsRead(b % 16);
    OnePair(Pair(b));
  }

  lemma OnePair(t: string)
    requires |t| == 2 && t[0] >= '0'
    ensures Paired(t) && Bytes(t) == [PairValue(t[0], t[1])]
  {
    assert t[2..] == "";
  }

  lemma DigitIsRead(d: nat)
    requires d < 16
    ensures HexValue(HexDigit(d)) == d && HexDigit(d) >= '0'
  {
  }

  /** Reading a dump gives back every byte. */
  lemma {:induction false} DumpReadsBack(x: seq<u8>)
    ensures Paired(Dump(x)) && Bytes(Dump(x)) == x
  {
    if x == [] {
    } else {
      var init, b, i := x[..|x| - 1], x[|x| - 1], |x| - 1;
      DumpReadsBack(init);
      PairIsRead(b);
      GapIsSkipped(i);
      BytesAppend(Pair(b), Gap(i));
      BytesAppend(Dump(init), Pair(b) + Gap(i));
      assert x == init + [b];
    }
  }

  // ---------------------------------------------------------------- the routines

  function Capped(n: nat): nat {
    if n > MAXB2TSIZE then MAXB2TSIZE else n
  }

  /** Bin2Text, from lpD + at and lpS + from on: at most MAXB2TSIZE bytes, then a NUL */
  method Bin2Text(lpD: array<char>, at: nat, lpS: array<u8>, from: nat, n: nat) returns (m: nat)
    requires from + Capped(n) <= lpS.Length
    requires at + |Dump(lpS[from..from + Capped(n)])| < lpD.Length
    modifies lpD
    ensures m == (if n > 65536 then 65536 else n) == Capped(n)
    ensures lpD[..] == Over(old(lpD[..]), at, Dump(old(lpS[from..from + m])) + ['\0'])
  {
    m := n;
    if m > MAXB2TSIZE {
      m := MAXB2TSIZE;
    }
    WriteDump(lpD, at, lpS[from..from + m]);
  }

  /** The loop of Bin2Text, over the bytes it reads */
  method WriteDump(lpD: array<char>, at: nat, x: seq<u8>)
    requires at + |Dump(x)| < lpD.Length
    modifies lpD
    ensures lpD[..] == Over(old(lpD[..]), at, Dump(x) + ['\0'])
  {
    ghost var before := lpD[..];
    var d: nat, i: nat := at, 0;
    NoneWritten(before, at, x);
    while i < |x|
      invariant i <= |x| && Written(lpD[..], at, x, i, d, before)
    {
      ByteWritten(lpD[..], at, x, i, d, before, Chunk(x[i], i));
      d := Put(lpD, d, Chunk(x[i], i));
      i := i + 1;
    }
    AllWritten(lpD[..], at, x, d, before);
    lpD[d] := '\0';
  }

  /** The first i bytes are in the text. */
  ghost predicate Written(text: seq<char>, at: nat, x: seq<u8>, i: nat, d: nat, before: seq<char>) {
    && i <= |x|
    && d == at + |Dump(x[..i])| < |before|
    && text == Over(before, at, Dump(x[..i]))
  }

  lemma NoneWritten(before: seq<char>, at: nat, x: seq<u8>)
    requires at < |before|
    ensures Written(before, at, x, 0, at, before)
  {
    assert x[..0] == [];
    assert before == Over(before, at, "");
  }

  lemma {:induction false} ByteWritten(mem: seq<char>, at: nat, x: seq<u8>, i: nat, d: nat,
                                          before: seq<char>, more: string)
    requires Written(mem, at, x, i, d, before) && at + |Dump(x)| < |before|
    requires i < |x| && more == Chunk(x[i], i)
    ensures d + |more| <= |mem| && Written(Over(mem, d, more), at, x, i + 1, d + |more|, before)
  {
    DumpNext(x, i);
    WrittenOn(mem, at, Dump(x[..i]), d, before, more, Dump(x[..i + 1]));
  }

  lemma WrittenOn(mem: seq<char>, at: nat, sofar: string, d: nat, before: seq<char>, more: string, all: string)
    requires all == sofar + more && at + |all| <= |before|
    requires d == at + |sofar| && mem == Over(before, at, sofar)
    ensures d + |more| <= |mem| && Over(mem, d, more) == Over(before, at, all)
  {
    OverTwice(before, at, sofar, more);
  }

  lemma AllWritten(text: seq<char>, at: nat, x: seq<u8>, d: nat, before: seq<char>)
    requires Written(text, at, x, |x|, d, before) && at + |Dump(x)| < |before|
    ensures d < |text| && text[d := '\0'] == Over(before, at, Dump(x) + ['\0'])
  {
    assert x[..|x|] == x;
    OverTwice(before, at, Dump(x), ['\0']);
    OverOne(text, d, '\0');
  }

  lemma DumpNext(x: seq<u8>, i: nat)
    requires i < |x|
    ensures Dump(x[..i + 1]) == Dump(x[..i]) + Chunk(x[i], i)
    ensures |Dump(x[..i + 1])| <= |Dump(x)|
  {
    assert x[..i + 1][..i] == x[..i];
    DumpGrows(x, i + 1);
  }

  lemma DumpGrows(x: seq<u8>, i: nat)
    requires i <= |x|
    ensures |Dump(x[..i])| <= |Dump(x)|
  {
    DumpLength(x);
    DumpLength(x[..i]);
  }

  /** lpD[d++] = ..., for each character in turn */
  method Put(lpD: array<char>, d0: nat, text: string) returns (d: nat)
    requires d0 + |text| <= lpD.Length
    modifies lpD
    ensures d == d0 + |text|
    ensures lpD[..] == Over(old(lpD[..]), d0, text)
  {
    d := d0;
    while d < d0 + |text|
      invariant d0 <= d <= d0 + |text|
      invariant lpD[..d] == old(lpD[..d0]) + text[..d - d0]
      invariant forall k :: d <= k < lpD.Length ==> lpD[k] == old(lpD[k])
    {
      lpD[d] := text[d - d0];
      d := d + 1;
    }
    assert text[..d - d0] == text;
  }

  /** Text2Bin, on the memory from lpS on: all it demands is that the reader meets a NUL there. */
  method Text2Bin(lpD: array<u8>, lpS: seq<char>) returns (n: nat)
    requires Ends(lpS) && |ReadFrom(lpS)| <= lpD.Length
    modifies lpD
    ensures n == |ReadFrom(lpS)|
    ensures lpD[..n] == ReadFrom(lpS) && lpD[n..] == old(lpD[n..])
  {
    n := 0;
    var at := 0;
    while lpS[at] != '\0'
      invariant 0 <= at < |lpS| && n <= lpD.Length
      invariant Ends(lpS[at..]) && ReadFrom(lpS) == lpD[..n] + ReadFrom(lpS[at..])
      invariant lpD[n..] == old(lpD[n..])
      decreases |lpS| - at
    {
      if lpS[at] < '0' {
        assert lpS[at..][1..] == lpS[at + 1..];
        at := at + 1;
      } else {
        assert lpS[at..][2..] == lpS[at + 2..];
        var dh, dl := lpS[at], lpS[at + 1];
        at := at + 2;
        n := PutPair(lpD, n, dh, dl);
      }
    }
  }

  /** *lpD++ = ... */
  method PutPair(lpD: array<u8>, n0: nat, dh: char, dl: char) returns (n: nat)
    requires n0 < lpD.Length
    modifies lpD
    ensures n == n0 + 1
    ensures lpD[..n] == old(lpD[..n0]) + [PairValue(dh, dl)] && lpD[n..] == old(lpD[n..])
  {
    lpD[n0] := (HexValue(dh) * 16 + HexValue(dl)) % 256;
    n := n0 + 1;
  }

  /** A dump of up to 65536 bytes, read back */
  method DumpAndRead(x: array<u8>, text: array<char>, back: array<u8>) returns (n: nat)
    requires x.Length <= MAXB2TSIZE && x.Length <= back.Length && x != back
    requires 3 * x.Length + (x.Length + 8) / 16 + 2 * (x.Length / 16) < text.Length
    modifies text, back
    ensures n == x.Length && back[..n] == x[..]
  {
    assert x[..x.Length] == x[..];
    DumpLength(x[..]);
    var m := Bin2Text(text, 0, x, 0, x.Length);
    DumpReadsBack(x[..]);
    var length := 3 * x.Length + (x.Length + 8) / 16 + 2 * (x.Length / 16);
    NoNul(x[..]);
    assert text[..length + 1] == Dump(x[..]) + ['\0'] + "";
    StopsOnTerminator(Dump(x[..]), "");
    n := Text2Bin(back, text[..length + 1]);
  }

  lemma {:induction false} NoNul(x: seq<u8>)
    ensures '\0' !in Dump(x)
  {
    if x == [] {
    } else {
      NoNul(x[..|x| - 1]);
      DigitIsRead(x[|x| - 1] / 16);
      DigitIsRead(x[|x| - 1] % 16);
    }
  }
}
