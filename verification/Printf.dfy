/** The printf of ble_lt_sdk/proj/common/printf.c, writing to memory or to the console. */
module Printf {
  import opened Common
  import opened PrintText
  import opened PrintFormat

  /** A C string: the characters up to the first NUL of what a pointer points to */
  function CString(s: seq<char>): string
    requires '\0' in s
  {
    if s[0] == '\0' then "" else [s[0]] + CString(s[1..])
  }

  lemma {:induction false} CStringOf(text: string, rest: seq<char>)
    requires NulFree(text)
    ensures CString(text + ['\0'] + rest) == text
  {
    var s := text + ['\0'] + rest;
    if text == "" {
    } else {
      assert s[1..] == text[1..] + ['\0'] + rest;
      assert text == [text[0]] + text[1..];
      CStringOf(text[1..], rest);
    }
  }

  /** A format as `format` points to it: characters up to the terminator and no further, so
      that any read past the terminator is out of bounds. */
  predicate Terminated(format: seq<char>) {
    format != [] && format[|format| - 1] == '\0' && '\0' !in format[..|format| - 1]
  }

  function Body(format: seq<char>): string
    requires format != []
  {
    format[..|format| - 1]
  }

  /** ++format, and n of them */
  lemma Advanced(format: seq<char>, n: nat)
    requires Terminated(format) && n < |format|
    ensures Terminated(format[n..]) && Body(format[n..]) == Body(format)[n..]
    ensures format[n] == '\0' <==> n == |Body(format)|
    ensures n < |Body(format)| ==> format[n] == Body(format)[n]
  {
    var rest := format[n..];
    assert rest[..|rest| - 1] == Body(format)[n..];
    assert forall k :: 0 <= k < |rest| - 1 ==> rest[k] == Body(format)[n + k];
  }

  /** The flag, zero and width loops of print */
  method ParseFlags(format0: seq<char>) returns (format: seq<char>, pad: Pad, width: nat)
    requires Terminated(format0)
    ensures var flags := ReadFlags(Body(format0));
      pad == flags.pad && width == flags.width && format == format0[flags.used..]
  {
    Advanced(format0, 0);
    if format0[0] == '-' {
      Advanced(format0, 1);
      format, pad, width := ParseZerosAndWidth(format0[1..], true);
      Sliced(format0, 1, ReadWidth(Body(format0[1..]), true).used);
    } else {
      format, pad, width := ParseZerosAndWidth(format0, false);
    }
  }

  method ParseZerosAndWidth(start: seq<char>, right: bool) returns (format: seq<char>, pad: Pad, width: nat)
    requires Terminated(start)
    ensures var r := ReadWidth(Body(start), right);
      pad == r.pad && width == r.width && format == start[r.used..]
  {
    var zero;
    format, zero := SkipZeros(start);
    format, width := ParseWidth(format);
    pad := Pad(right, zero);
    Sliced(start, ZeroRun(Body(start)), DigitRun(Body(start)[ZeroRun(Body(start))..]));
  }

  lemma Sliced(s: seq<char>, i: nat, j: nat)
    requires i + j <= |s|
    ensures s[i..][j..] == s[i + j..]
  {
  }

  method SkipZeros(start: seq<char>) returns (format: seq<char>, zero: bool)
    requires Terminated(start)
    ensures var z := ZeroRun(Body(start));
      format == start[z..] && Terminated(format) && Body(format) == Body(start)[z..] && (zero <==> z > 0)
  {
    format, zero := start, false;
    ghost var z := 0;
    Advanced(start, 0);
    while format[0] == '0'
      invariant z < |start| && format == start[z..] && Terminated(format)
      invariant ZeroRun(Body(start)) == z + ZeroRun(Body(format))
      invariant zero <==> z > 0
      decreases |format|
    {
      Advanced(format, 1);
      format := format[1..];
      z := z + 1;
      zero := true;
    }
    Advanced(start, z);
  }

  method ParseWidth(start: seq<char>) returns (format: seq<char>, width: nat)
    requires Terminated(start)
    ensures var d := DigitRun(Body(start));
      format == start[d..] && width == WidthOf(Body(start)[..d])
  {
    format, width := start, 0;
    ghost var d := 0;
    while '0' <= format[0] <= '9'
      invariant d < |start| && format == start[d..] && Terminated(format)
      invariant DigitRun(Body(start)) == d + DigitRun(Body(format))
      invariant width == WidthSoFar(Body(start), d)
      decreases |format|
    {
      Advanced(start, d);
      WidthNext(Body(start), d);
      width := width * 10;
      width := width + (format[0] - '0') as nat;
      Advanced(format, 1);
      format := format[1..];
      d := d + 1;
    }
  }

  ghost function WidthSoFar(f: string, d: nat): nat {
    if d <= DigitRun(f) then WidthOf(f[..d]) else 0
  }

  lemma WidthNext(f: string, d: nat)
    requires d < DigitRun(f)
    ensures WidthSoFar(f, d + 1) == 10 * WidthSoFar(f, d) + (f[d] - '0') as nat
  {
    assert f[..d + 1][..d] == f[..d];
  }

  /** Where print's `out` argument leads: the memory at **out, or putchar when it is null */
  class Sink {
    const toMemory: bool
    const mem: array<char>
    const start: nat
    var cursor: nat
    var console: string
    ghost const before: seq<char>   // the memory as it was
    ghost var text: string          // all that has been emitted

    /** The text lies where it should, and nothing else in memory has changed. */
    ghost predicate Valid()
      reads this, mem
    {
      && start <= mem.Length == |before|
      && if toMemory then cursor == start + |text| <= mem.Length && Holds(text)
         else console == text && mem[..] == before
    }

    ghost predicate Holds(written: string)
      requires start + |written| <= |before|
      reads mem
    {
      mem[..] == before[..start] + written + before[start + |written|..]
    }

    predicate Room(n: nat)
      reads this
    {
      toMemory ==> cursor + n <= mem.Length
    }

    constructor (toMemory: bool, mem: array<char>, start: nat)
      requires start <= mem.Length
      ensures Valid() && text == ""
      ensures this.toMemory == toMemory && this.mem == mem && this.start == start && before == mem[..]
      ensures toMemory ==> cursor == start
    {
      this.toMemory, this.mem, this.start := toMemory, mem, start;
      cursor, console, text := start, "", "";
      before := mem[..];
    }

    /** printchar */
    method Printchar(c: char)
      requires Valid() && Room(1)
      modifies this, mem
      ensures Valid() && text == old(text) + [c]
      ensures toMemory ==> cursor == old(cursor) + 1
    {
      if toMemory {
        mem[cursor] := c;
        cursor := cursor + 1;
      } else {
        console := console + [c];
      }
      text := text + [c];
    }

    /** prints */
    method Prints(s: seq<char>, width0: int, pad: Pad) returns (pc: nat)
      requires '\0' in s
      requires Valid() && Room(|Padded(CString(s), width0, pad)|)
      modifies this, mem
      ensures Valid() && text == old(text) + Padded(CString(s), width0, pad)
      ensures pc == |Padded(CString(s), width0, pad)|
      ensures toMemory ==> cursor == old(cursor) + pc
    {
      var width, padchar := width0, ' ';
      pc := 0;
      if width > 0 {
        var len := Length(s);
        if len >= width {
          width := 0;
        } else {
          width := width - len;
        }
        if pad.zero {
          padchar := '0';
        }
      }
      ghost var fill := Repeat(padchar, if width > 0 then width else 0);
      PaddedIs(CString(s), width0, pad, fill);
      if !pad.right {
        pc := Fill(padchar, width);
        width := 0;
      }
      var n := PutString(s);
      pc := pc + n;
      ghost var middle := text;
      n := Fill(padchar, width);
      pc := pc + n;
      Joined(old(text), CString(s), fill, middle, Repeat(padchar, n), pad.right);
    }

    lemma Joined(start: string, body: string, fill: string, middle: string, last: string, right: bool)
      requires middle == if right then start + body else start + fill + body
      requires last == if right then fill else ""
      ensures middle + last == start + if right then body + fill else fill + body
    {
    }

    lemma PaddedIs(body: string, width: int, pad: Pad, fill: string)
      requires fill == Repeat(if width > 0 && pad.zero then '0' else ' ', if width > |body| then width - |body| else 0)
      ensures Padded(body, width, pad) == if pad.right then body + fill else fill + body
    {
      if width <= |body| {
        assert fill == "" == Repeat('0', 0) == Repeat(' ', 0);
      }
    }

    /** The counting loop of prints */
    static method Length(s: seq<char>) returns (len: nat)
      requires '\0' in s
      ensures len == |CString(s)|
    {
      var ptr := s;
      len := 0;
      while ptr[0] != '\0'
        invariant '\0' in ptr && len + |CString(ptr)| == |CString(s)|
        decreases |ptr|
      {
        ptr := ptr[1..];
        len := len + 1;
      }
    }

    /** The copying loop of prints */
    method PutString(s: seq<char>) returns (pc: nat)
      requires '\0' in s
      requires Valid() && Room(|CString(s)|)
      modifies this, mem
      ensures pc == |CString(s)|
      ensures Valid() && text == old(text) + CString(s)
      ensures toMemory ==> cursor == old(cursor) + pc
    {
      var str := s;
      pc := 0;
      while str[0] != '\0'
        invariant '\0' in str && Valid()
        invariant old(text) + CString(s) == text + CString(str)
        invariant pc + |CString(str)| == |CString(s)|
        invariant toMemory ==> cursor == old(cursor) + pc
        decreases |str|
      {
        Printchar(str[0]);
        str := str[1..];
        pc := pc + 1;
      }
    }

    /** The two padding loops of prints */
    method Fill(padchar: char, width0: int) returns (pc: nat)
      requires Valid() && Room(if width0 > 0 then width0 else 0)
      modifies this, mem
      ensures pc == if width0 > 0 then width0 else 0
      ensures Valid() && text == old(text) + Repeat(padchar, pc)
      ensures toMemory ==> cursor == old(cursor) + pc
    {
      var width := width0;
      pc := 0;
      while width > 0
        invariant Valid()
        invariant width > 0 || width0 > 0 ==> width == width0 - pc >= 0
        invariant width0 <= 0 ==> pc == 0
        invariant text == old(text) + Repeat(padchar, pc)
        invariant toMemory ==> cursor == old(cursor) + pc
      {
        Printchar(padchar);
        width := width - 1;
        pc := pc + 1;
      }
    }

    /** printi */
    method Printi(i: int, b: nat, sg: bool, width: int, pad: Pad, letbase: char) returns (pc: nat)
      requires -0x8000_0000 <= i < 0x8000_0000
      requires IsBase(b) && (letbase == 'a' || letbase == 'A')
      requires Valid() && Room(|Number(i, b, sg, width, pad, letbase)|)
      modifies this, mem
      ensures Valid() && text == old(text) + Number(i, b, sg, width, pad, letbase)
      ensures pc == |Number(i, b, sg, width, pad, letbase)|
      ensures toMemory ==> cursor == old(cursor) + pc
    {
      var print_buf := new char[12](_ => '\0');
      if i == 0 {
        print_buf[0] := '0';
        print_buf[1] := '\0';
        HoldsString(print_buf[..], "0", print_buf[2..]);
        pc := Prints(print_buf[..], width, pad);
      } else {
        var neg, u: nat := false, Unsigned(i);
        if sg && b == 10 && i < 0 {
          neg := true;
          u := -i;
        }
        var s := PutDigits(print_buf, u, b, letbase);
        pc := PutNumber(print_buf, s, u, neg, b, width, pad, letbase);
      }
    }

    /** The rest of printi: a sign goes out first when zeros will follow it, and otherwise in
        front of the digits. */
    method PutNumber(print_buf: array<char>, s0: nat, ghost u: nat, neg: bool, ghost b: nat, width0: int, pad: Pad,
                     ghost letbase: char)
      returns (pc: nat)
      requires IsBase(b) && (letbase == 'a' || letbase == 'A') && u > 0
      requires print_buf.Length == 12 && 1 <= s0 <= 11 && print_buf != mem
      requires print_buf[s0..11] == Digits(u, b, letbase) && print_buf[11] == '\0'
      requires Valid() && Room(|SignedText(u, neg, width0, pad, b, letbase)|)
      modifies this, mem, print_buf
      ensures Valid() && text == old(text) + SignedText(u, neg, width0, pad, b, letbase)
      ensures pc == |SignedText(u, neg, width0, pad, b, letbase)|
      ensures toMemory ==> cursor == old(cursor) + pc
    {
      ghost var digits := Digits(u, b, letbase);
      DigitsRead(u, b, letbase);
      if neg && width0 != 0 && pad.zero {
        Printchar('-');
        pc := PutBuffer(print_buf, s0, digits, width0 - 1, pad);
        pc := pc + 1;
        assert old(text) + ("-" + Padded(digits, width0 - 1, pad)) == old(text) + "-" + Padded(digits, width0 - 1, pad);
      } else if neg {
        PutBefore(print_buf, s0 - 1, '-');
        pc := PutBuffer(print_buf, s0 - 1, "-" + digits, width0, pad);
      } else {
        pc := PutBuffer(print_buf, s0, digits, width0, pad);
      }
    }

    /** *--s = c, for s pointing into print_buf */
    static method PutBefore(print_buf: array<char>, s: nat, c: char)
      requires print_buf.Length == 12 && s < 11
      modifies print_buf
      ensures print_buf[s..11] == [c] + old(print_buf[s + 1..11])
      ensures print_buf[11] == old(print_buf[11])
    {
      print_buf[s] := c;
    }

    method PutBuffer(print_buf: array<char>, s: nat, ghost body: string, width: int, pad: Pad) returns (pc: nat)
      requires print_buf.Length == 12 && s <= 11 && print_buf[11] == '\0'
      requires print_buf[s..11] == body && NulFree(body)
      requires Valid() && Room(|Padded(body, width, pad)|)
      modifies this, mem
      ensures Valid() && text == old(text) + Padded(body, width, pad)
      ensures pc == |Padded(body, width, pad)|
      ensures toMemory ==> cursor == old(cursor) + pc
    {
      var str := print_buf[s..];
      assert str == body + ['\0'] + [];
      HoldsString(str, body, []);
      pc := Prints(str, width, pad);
    }

    static lemma HoldsString(s: seq<char>, body: string, rest: seq<char>)
      requires NulFree(body) && s == body + ['\0'] + rest
      ensures '\0' in s && CString(s) == body
    {
      assert s[|body|] == '\0';
      CStringOf(body, rest);
    }

    static lemma DigitsStep(u: nat, b: nat, letbase: char, tail: string)
      requires IsBase(b) && (letbase == 'a' || letbase == 'A') && u > 0
      ensures Digits(u, b, letbase) + tail == Digits(Quot(u, b), b, letbase) + ([DigitChar(Rem(u, b), letbase)] + tail)
      ensures |Digits(u, b, letbase)| == |Digits(Quot(u, b), b, letbase)| + 1
    {
    }

    /** The digit loop of printi, from the end of the buffer down: it leaves room for a sign. */
    static method PutDigits(print_buf: array<char>, u0: nat, b: nat, letbase: char) returns (s: nat)
      requires print_buf.Length == 12
      requires u0 < TWO32 && IsBase(b) && (letbase == 'a' || letbase == 'A')
      modifies print_buf
      ensures 1 <= s <= 11
      ensures print_buf[s..11] == Digits(u0, b, letbase)
      ensures print_buf[11] == '\0'
    {
      ghost var digits := Digits(u0, b, letbase);
      TenDigits(u0, b, letbase);
      var u: nat := u0;
      s := 11;
      print_buf[s] := '\0';
      while u > 0
        invariant 0 <= s <= 11 && print_buf[11] == '\0'
        invariant digits == Digits(u, b, letbase) + print_buf[s..11]
      {
        DigitsStep(u, b, letbase, print_buf[s..11]);
        s := s - 1;
        PutBefore(print_buf, s, DigitChar(Rem(u, b), letbase));
        u := Quot(u, b);
      }
    }

    /** The conversions of print, the argument taken */
    method Conversion(c: char, arg: Arg, width: nat, pad: Pad) returns (pc: nat)
      requires IsConversion(c) && Takes(c, arg)
      requires Valid() && Room(|Convert(c, arg, width, pad)|)
      modifies this, mem
      ensures Valid() && text == old(text) + Convert(c, arg, width, pad)
      ensures pc == |Convert(c, arg, width, pad)|
      ensures toMemory ==> cursor == old(cursor) + pc
    {
      if c == 's' {
        var str := if arg.s.Some? then arg.s.value else "(null)";
        HoldsString(str + ['\0'], str, []);
        pc := Prints(str + ['\0'], width, pad);
      } else if c == 'd' {
        pc := Printi(arg.i, 10, true, width, pad, 'a');
      } else if c == 'x' {
        pc := Printi(arg.i, 16, false, width, pad, 'a');
      } else if c == 'X' {
        pc := Printi(arg.i, 16, false, width, pad, 'A');
      } else if c == 'u' {
        pc := Printi(arg.i, 10, false, width, pad, 'a');
      } else {
        var scr := [(arg.i % 256) as char, '\0'];
        HoldsString(scr, CharText(arg.i), if arg.i % 256 == 0 then ['\0'] else []);
        pc := Prints(scr, width, pad);
      }
    }

    /** One turn of print's loop.  `more` is false when the turn breaks out of it. */
    method Turn(format0: seq<char>, args0: seq<Arg>) returns (format: seq<char>, args: seq<Arg>, pc: nat, more: bool)
      requires Terminated(format0) && format0[0] != '\0'
      requires HeadLen(Body(format0)) <= |Body(format0)| && HeadFits(Body(format0), args0)
      requires Valid() && Room(|HeadText(Body(format0), args0)|)
      modifies this, mem
      ensures Valid() && text == old(text) + HeadText(Body(format0), args0)
      ensures pc == |HeadText(Body(format0), args0)|
      ensures toMemory ==> cursor == old(cursor) + pc
      ensures format == format0[HeadLen(Body(format0))..] && Terminated(format)
      ensures args == ArgsAfter(Body(format0), args0)
      ensures !more ==> format[0] == '\0'
    {
      ghost var f := Body(format0);
      Advanced(format0, HeadLen(f));
      Advanced(format0, 0);
      args, pc, more := args0, 0, true;
      if format0[0] != '%' {
        Printchar(format0[0]);
        format, pc := format0[1..], 1;
        return;
      }
      Advanced(format0, 1);
      format := format0[1..];
      if format[0] == '\0' {
        more := false;
        return;
      }
      if format[0] == '%' {
        Printchar(format[0]);
        format, pc := format[1..], 1;
        return;
      }
      var pad, width;
      format, pad, width := ParseFlags(format);
      ghost var n := HeadLen(f) - 1;
      Sliced(format0, 1, n - 1);
      Advanced(format0, n);
      Sliced(format0, n, 1);
      var c := format[0];
      format := format[1..];
      if IsConversion(c) {
        pc := Conversion(c, args[0], width, pad);
        args := args[1..];
      }
    }

    /** print.  All reads of the format are in bounds, so none goes past its terminator. */
    method Print(format0: seq<char>, args0: seq<Arg>) returns (pc: nat)
      requires Terminated(format0) && Fits(Body(format0), args0)
      requires Valid() && Room(|Printed(Body(format0), args0)| + 1)
      modifies this, mem
      ensures text == old(text) + Printed(Body(format0), args0)
      ensures pc == |Printed(Body(format0), args0)|
      ensures toMemory ==> cursor == old(cursor) + pc < mem.Length
      ensures toMemory ==> start + |text| + 1 <= |before| && Holds(text + ['\0'])
      ensures !toMemory ==> Valid()
    {
      var format, args, more := format0, args0, true;
      pc := 0;
      ghost var whole := Printed(Body(format0), args0);
      Advanced(format0, 0);
      while more && format[0] != '\0'
        invariant Terminated(format) && Fits(Body(format), args)
        invariant !more ==> format[0] == '\0'
        invariant format[0] == '\0' <==> Body(format) == ""
        invariant Valid()
        invariant old(text) + whole == text + Printed(Body(format), args)
        invariant |whole| == pc + |Printed(Body(format), args)|
        invariant toMemory ==> cursor == old(cursor) + pc
        decreases |format|
      {
        var n;
        format, args, n, more := TurnOn(format, args);
        pc := pc + n;
      }
      if toMemory {
        EndText();
      }
    }

    /** The NUL behind the text, which is not counted */
    method EndText()
      requires Valid() && toMemory && cursor < mem.Length
      modifies mem
      ensures start + |text| + 1 <= |before| && Holds(text + ['\0'])
    {
      mem[cursor] := '\0';
    }

    /** A turn of the loop, and what is then still to be printed */
    method TurnOn(format0: seq<char>, args0: seq<Arg>) returns (format: seq<char>, args: seq<Arg>, pc: nat, more: bool)
      requires Terminated(format0) && Fits(Body(format0), args0) && Body(format0) != "" && format0[0] != '\0'
      requires Valid() && Room(|Printed(Body(format0), args0)|)
      modifies this, mem
      ensures Valid() && Terminated(format) && |format| < |format0| && Fits(Body(format), args)
      ensures format[0] == '\0' <==> Body(format) == ""
      ensures !more ==> format[0] == '\0'
      ensures text + Printed(Body(format), args) == old(text) + Printed(Body(format0), args0)
      ensures pc + |Printed(Body(format), args)| == |Printed(Body(format0), args0)|
      ensures toMemory ==> cursor == old(cursor) + pc
    {
      ghost var f, a := Body(format0), args0;
      ghost var before := text;
      PrintedTurn(f, a, HeadText(f, a), f[HeadLen(f)..], ArgsAfter(f, a));
      Advanced(format0, HeadLen(f));
      format, args, pc, more := Turn(format0, args0);
      Advanced(format, 0);
      AppendAssoc(before, HeadText(f, a), Printed(Body(format), args));
    }
  }

  /** my_sprintf */
  method MySprintf(out: array<char>, format: seq<char>, args: seq<Arg>) returns (pc: nat)
    requires Terminated(format) && Fits(Body(format), args)
    requires |Printed(Body(format), args)| < out.Length
    modifies out
    ensures pc == |Printed(Body(format), args)|
    ensures out[..] == Printed(Body(format), args) + ['\0'] + old(out[pc + 1..])
  {
    var sink := new Sink(true, out, 0);
    pc := sink.Print(format, args);
  }

  /** my_printf */
  method MyPrintf(format: seq<char>, args: seq<Arg>) returns (pc: nat, console: string)
    requires Terminated(format) && Fits(Body(format), args)
    ensures console == Printed(Body(format), args) && pc == |console|
  {
    var none := new char[0];
    var sink := new Sink(false, none, 0);
    pc := sink.Print(format, args);
    console := sink.console;
  }
}
