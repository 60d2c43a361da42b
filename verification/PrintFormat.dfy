/** What a format string means to printf.c, and which format strings it can be trusted with. */
module PrintFormat {
  import opened Common
  import opened PrintText

  datatype Arg = Int(i: int) | Str(s: Option<string>)

  ghost predicate IsInt(a: Arg) {
    a.Int? && -0x8000_0000 <= a.i < 0x8000_0000
  }

  predicate IsDigit(c: char) {
    '0' <= c <= '9'
  }

  // ---------------------------------------------------------------- reading a directive

  function ZeroRun(f: string): (n: nat)
    ensures n <= |f|
  {
    if f != "" && f[0] == '0' then 1 + ZeroRun(f[1..]) else 0
  }

  function DigitRun(f: string): (n: nat)
    ensures n <= |f|
    ensures forall k :: 0 <= k < n ==> IsDigit(f[k])
    ensures n < |f| ==> !IsDigit(f[n])
  {
    if f != "" && IsDigit(f[0]) then 1 + DigitRun(f[1..]) else 0
  }

  function WidthOf(digits: string): nat
    requires forall k :: 0 <= k < |digits| ==> IsDigit(digits[k])
  {
    if digits == "" then 0 else
    var last := digits[|digits| - 1];
    assert IsDigit(last);
    10 * WidthOf(digits[..|digits| - 1]) + (last - '0') as nat
  }

  /** The flags and width after a percent sign, and how many characters they take */
  datatype Flags = Flags(pad: Pad, width: nat, used: nat)

  function ReadWidth(f: string, right: bool): (r: Flags)
    ensures r.used <= |f|
    ensures r.used < |f| ==> !IsDigit(f[r.used])
  {
    var z := ZeroRun(f);
    var d := DigitRun(f[z..]);
    Flags(Pad(right, z > 0), WidthOf(f[z..][..d]), z + d)
  }

  function ReadFlags(f: string): (r: Flags)
    ensures r.used <= |f|
    ensures r.used < |f| ==> !IsDigit(f[r.used])
  {
    if f != "" && f[0] == '-' then
      var r := ReadWidth(f[1..], true);
      r.(used := 1 + r.used)
    else ReadWidth(f, false)
  }

  predicate IsConversion(c: char) {
    c == 's' || c == 'd' || c == 'x' || c == 'X' || c == 'u' || c == 'c'
  }

  ghost predicate Takes(c: char, a: Arg) {
    if c == 's' then a.Str? && (a.s.Some? ==> NulFree(a.s.value)) else IsInt(a)
  }

  ghost predicate NulFree(s: string) {
    '\0' !in s
  }

  /** The text of one conversion */
  function Convert(c: char, a: Arg, width: nat, pad: Pad): string
    requires IsConversion(c) && Takes(c, a)
  {
    if c == 's' then Padded(if a.s.Some? then a.s.value else "(null)", width, pad)
    else if c == 'd' then Number(a.i, 10, true, width, pad, 'a')
    else if c == 'x' then Number(a.i, 16, false, width, pad, 'a')
    else if c == 'X' then Number(a.i, 16, false, width, pad, 'A')
    else if c == 'u' then Number(a.i, 10, false, width, pad, 'a')
    else Padded(CharText(a.i), width, pad)
  }

  /** The one-character string of a char argument; a zero byte makes it empty. */
  function CharText(i: int): string {
    if i % 256 == 0 then "" else [(i % 256) as char]
  }

  /** What each numeric conversion lets a reader recover: %d the int, %u and %x the unsigned
      it converts to; unless zeros are written behind it. */
  lemma ConversionReadsBack(c: char, i: int, width: nat, pad: Pad)
    requires c == 'd' || c == 'u' || c == 'x' || c == 'X'
    requires IsInt(Int(i))
    ensures var b, letbase := if c == 'd' || c == 'u' then 10 else 16, if c == 'X' then 'A' else 'a';
      Read(Convert(c, Int(i), width, pad), b) == Some(if c == 'd' then i else Unsigned(i))
      <==> !ZerosBehind(i, b, c == 'd', width, pad, letbase)
  {
    NumberReadsBack(i, if c == 'd' || c == 'u' then 10 else 16, c == 'd', width, pad, if c == 'X' then 'A' else 'a');
  }

  // ---------------------------------------------------------------- the interpreter

  /** How far one turn of print's loop moves `format`: past one plain character, or past a
      whole directive.  A directive cut off by the terminator takes it one too far. */
  function HeadLen(f: string): (n: nat)
    requires f != ""
    ensures 0 < n <= |f| + 1
  {
    if f[0] != '%' || |f| == 1 then 1
    else if f[1] == '%' then 2
    else 2 + ReadFlags(f[1..]).used
  }

  predicate HeadIsDirective(f: string) {
    |f| > 1 && f[0] == '%' && f[1] != '%'
  }

  /** That turn takes an argument. */
  predicate HeadTakes(f: string) {
    HeadIsDirective(f) && HeadLen(f) <= |f| && IsConversion(f[HeadLen(f) - 1])
  }

  ghost predicate HeadFits(f: string, args: seq<Arg>) {
    HeadTakes(f) ==> args != [] && Takes(f[HeadLen(f) - 1], args[0])
  }

  /** What that turn emits */
  function HeadText(f: string, args: seq<Arg>): string
    requires f != "" && HeadFits(f, args)
  {
    if f[0] != '%' then [f[0]]
    else if |f| == 1 then ""
    else if f[1] == '%' then "%"
    else if HeadTakes(f) then
      var flags := ReadFlags(f[1..]);
      Convert(f[HeadLen(f) - 1], args[0], flags.width, flags.pad)
    else ""
  }

  function ArgsAfter(f: string, args: seq<Arg>): seq<Arg> {
    if HeadTakes(f) && args != [] then args[1..] else args
  }

  /** No directive is cut off after a flag or width. */
  predicate Complete(f: string)
    decreases |f|
  {
    f == "" || (HeadLen(f) <= |f| && Complete(f[HeadLen(f)..]))
  }

  /** The arguments are there, and of the kinds that the format asks for. */
  ghost predicate Fits(f: string, args: seq<Arg>)
    decreases |f|
  {
    f == "" || (HeadLen(f) <= |f| && HeadFits(f, args) && Fits(f[HeadLen(f)..], ArgsAfter(f, args)))
  }

  /** What print emits */
  function Printed(f: string, args: seq<Arg>): string
    requires Fits(f, args)
    decreases |f|
  {
    if f == "" then "" else HeadText(f, args) + Printed(f[HeadLen(f)..], ArgsAfter(f, args))
  }

  // ---------------------------------------------------------------- the grammar of formats

  datatype Item = Literal(c: char) | Percent | Directive(right: bool, zeros: nat, digits: string, conv: char)

  predicate WellFormed(item: Item) {
    match item
    case Literal(c) => c != '%'
    case Percent => true
    case Directive(right, zeros, digits, conv) =>
      && (forall k :: 0 <= k < |digits| ==> IsDigit(digits[k]))
      && (digits != "" ==> digits[0] != '0')
      && !IsDigit(conv)
      && (!right && zeros == 0 && digits == "" ==> conv != '-' && conv != '%')
  }

  function FlagText(item: Item): string
    requires item.Directive?
  {
    (if item.right then "-" else "") + Repeat('0', item.zeros) + item.digits
  }

  function Render(item: Item): (f: string)
    ensures f != ""
  {
    match item
    case Literal(c) => [c]
    case Percent => "%%"
    case Directive(_, _, _, conv) => "%" + FlagText(item) + [conv]
  }

  function RenderAll(items: seq<Item>): string {
    if items == [] then "" else Render(items[0]) + RenderAll(items[1..])
  }

  predicate AllWellFormed(items: seq<Item>) {
    items != [] ==> WellFormed(items[0]) && AllWellFormed(items[1..])
  }

  predicate ItemTakes(item: Item) {
    item.Directive? && IsConversion(item.conv)
  }

  ghost predicate ItemsFit(items: seq<Item>, args: seq<Arg>) {
    if items == [] then true
    else if ItemTakes(items[0]) then
      args != [] && Takes(items[0].conv, args[0]) && ItemsFit(items[1..], args[1..])
    else ItemsFit(items[1..], args)
  }

  function ItemText(item: Item, args: seq<Arg>): string
    requires WellFormed(item)
    requires ItemTakes(item) ==> args != [] && Takes(item.conv, args[0])
  {
    match item
    case Literal(c) => [c]
    case Percent => "%"
    case Directive(right, zeros, digits, conv) =>
      if IsConversion(conv) then Convert(conv, args[0], WidthOf(digits), Pad(right, zeros > 0)) else ""
  }

  /** The text of a list of items */
  function Meaning(items: seq<Item>, args: seq<Arg>): string
    requires AllWellFormed(items)
    requires ItemsFit(items, args)
  {
    if items == [] then ""
    else ItemText(items[0], args) + Meaning(items[1..], if ItemTakes(items[0]) then args[1..] else args)
  }

  lemma {:induction false} ZeroRunOf(n: nat, rest: string)
    requires rest == "" || rest[0] != '0'
    ensures ZeroRun(Repeat('0', n) + rest) == n
  {
    var f := Repeat('0', n) + rest;
    if n > 0 {
      assert f[1..] == Repeat('0', n - 1) + rest;
      ZeroRunOf(n - 1, rest);
    } else {
      assert f == rest;
    }
  }

  lemma {:induction false} DigitRunOf(digits: string, rest: string)
    requires forall k :: 0 <= k < |digits| ==> IsDigit(digits[k])
    requires rest == "" || !IsDigit(rest[0])
    ensures DigitRun(digits + rest) == |digits|
  {
    if digits == "" {
      assert digits + rest == rest;
    } else {
      assert (digits + rest)[1..] == digits[1..] + rest;
      DigitRunOf(digits[1..], rest);
    }
  }

  lemma WidthRead(zeros: nat, digits: string, right: bool, rest: string, f: string)
    requires f == Repeat('0', zeros) + (digits + rest)
    requires forall k :: 0 <= k < |digits| ==> IsDigit(digits[k])
    requires digits != "" ==> digits[0] != '0'
    requires rest != "" && !IsDigit(rest[0])
    ensures ReadWidth(f, right) == Flags(Pad(right, zeros > 0), WidthOf(digits), zeros + |digits|)
  {
    assert (digits + rest)[0] != '0';
    ZeroRunOf(zeros, digits + rest);
    assert f[zeros..] == digits + rest;
    DigitRunOf(digits, rest);
    assert (digits + rest)[..|digits|] == digits;
  }

  lemma FlagShape(item: Item, tail: string)
    requires item.Directive?
    ensures var body := Repeat('0', item.zeros) + (item.digits + tail);
      FlagText(item) + tail == if item.right then "-" + body else body
  {
  }

  /** Reading a rendered directive's flags gives the flags back. */
  lemma FlagsRead(item: Item, tail: string)
    requires item.Directive? && WellFormed(item)
    requires tail != "" && tail[0] == item.conv
    ensures ReadFlags(FlagText(item) + tail)
         == Flags(Pad(item.right, item.zeros > 0), WidthOf(item.digits), |FlagText(item)|)
    ensures (FlagText(item) + tail)[0] != '%'
  {
    var body := Repeat('0', item.zeros) + (item.digits + tail);
    FlagShape(item, tail);
    WidthRead(item.zeros, item.digits, item.right, tail, body);
    if item.right {
      LeftFlagsRead("-" + body, body);
    } else {
      FirstOfBody(item, tail);
    }
  }

  lemma LeftFlagsRead(f: string, body: string)
    requires f == "-" + body
    ensures ReadFlags(f) == var r := ReadWidth(body, true); r.(used := 1 + r.used)
  {
    assert f[1..] == body;
  }

  lemma FirstOfBody(item: Item, tail: string)
    requires item.Directive? && WellFormed(item) && !item.right
    requires tail != "" && tail[0] == item.conv
    ensures var body := Repeat('0', item.zeros) + (item.digits + tail);
      body[0] != '-' && body[0] != '%'
  {
    if item.zeros == 0 && item.digits != "" {
      assert IsDigit(item.digits[0]);
    }
  }

  // ---------------------------------------------------------------- formats and their grammar

  /** The first turn over a rendered item */
  lemma HeadOfItem(item: Item, rest: string)
    requires WellFormed(item)
    ensures var f := Render(item) + rest;
      && HeadLen(f) == |Render(item)|
      && f[HeadLen(f)..] == rest
      && (HeadTakes(f) <==> ItemTakes(item))
      && (item.Directive? ==>
            && HeadIsDirective(f)
            && f[HeadLen(f) - 1] == item.conv
            && ReadFlags(f[1..]).pad == Pad(item.right, item.zeros > 0)
            && ReadFlags(f[1..]).width == WidthOf(item.digits))
      && (item.Literal? ==> f[0] == item.c)
  {
    var f := Render(item) + rest;
    if item.Directive? {
      var tail := [item.conv] + rest;
      FlagsRead(item, tail);
      DirectiveShape(item, rest);
    }
  }

  lemma DirectiveShape(item: Item, rest: string)
    requires item.Directive?
    ensures var f, tail, n := Render(item) + rest, [item.conv] + rest, 1 + |FlagText(item)|;
      f[0] == '%' && f[1..] == FlagText(item) + tail && f[n] == item.conv && |Render(item)| == n + 1
  {
  }

  lemma HeadMeans(item: Item, rest: string, args: seq<Arg>)
    requires WellFormed(item)
    ensures var f := Render(item) + rest;
      && (HeadFits(f, args) <==> (ItemTakes(item) ==> args != [] && Takes(item.conv, args[0])))
      && (HeadFits(f, args) ==> HeadText(f, args) == ItemText(item, args))
      && (HeadFits(f, args) ==> ArgsAfter(f, args) == if ItemTakes(item) then args[1..] else args)
  {
    HeadOfItem(item, rest);
  }

  /** A string the grammar generates is complete, and means what its items mean. */
  lemma {:induction false} RenderedMeans(items: seq<Item>, args: seq<Arg>)
    requires AllWellFormed(items)
    ensures Complete(RenderAll(items))
    ensures Fits(RenderAll(items), args) <==> ItemsFit(items, args)
    ensures ItemsFit(items, args) ==> Printed(RenderAll(items), args) == Meaning(items, args)
    decreases |items|
  {
    if items == [] {
    } else {
      var item, rest := items[0], RenderAll(items[1..]);
      HeadOfItem(item, rest);
      HeadMeans(item, rest, args);
      var after := ArgsAfter(RenderAll(items), args);
      RenderedMeans(items[1..], after);
    }
  }

  lemma {:induction false} BarePercentComplete(items: seq<Item>)
    requires AllWellFormed(items)
    ensures Complete(RenderAll(items) + "%")
    decreases |items|
  {
    if items == [] {
      assert RenderAll(items) + "%" == "%";
    } else {
      var rest := RenderAll(items[1..]) + "%";
      assert RenderAll(items) + "%" == Render(items[0]) + rest;
      HeadOfItem(items[0], rest);
      BarePercentComplete(items[1..]);
    }
  }

  /** The item at the head of a string */
  function HeadItem(f: string): Item
    requires f != "" && f != "%" && HeadLen(f) <= |f|
  {
    if f[0] != '%' then Literal(f[0])
    else if f[1] == '%' then Percent
    else DirectiveOf(f[1..])
  }

  function DirectiveOf(g: string): Item
    requires ReadFlags(g).used < |g|
  {
    var right := g != "" && g[0] == '-';
    var h := if right then g[1..] else g;
    var z := ZeroRun(h);
    Directive(right, z, h[z..][..DigitRun(h[z..])], g[ReadFlags(g).used])
  }

  lemma {:induction false} ZeroRunStops(f: string)
    ensures forall k :: 0 <= k < ZeroRun(f) ==> f[k] == '0'
    ensures ZeroRun(f) < |f| ==> f[ZeroRun(f)] != '0'
  {
    if f == "" || f[0] != '0' {
    } else {
      ZeroRunStops(f[1..]);
      assert forall k :: 0 < k < ZeroRun(f) ==> f[k] == f[1..][k - 1];
    }
  }

  lemma WidthShape(h: string)
    ensures var z := ZeroRun(h);
      var d := DigitRun(h[z..]);
      && h[..z + d] == Repeat('0', z) + h[z..][..d]
      && (d > 0 ==> h[z..][0] != '0')
  {
    ZeroRunStops(h);
  }

  lemma WidthItem(right: bool, h: string, conv: char)
    requires !IsDigit(conv)
    requires !right && ZeroRun(h) + DigitRun(h[ZeroRun(h)..]) == 0 ==> conv != '-' && conv != '%'
    ensures var z := ZeroRun(h);
      var d := DigitRun(h[z..]);
      var item := Directive(right, z, h[z..][..d], conv);
      WellFormed(item) && FlagText(item) == (if right then "-" else "") + h[..z + d]
  {
    WidthShape(h);
    var z := ZeroRun(h);
    FlagTextOf(right, z, h[z..][..DigitRun(h[z..])], conv);
  }

  lemma FlagTextOf(right: bool, zeros: nat, digits: string, conv: char)
    ensures FlagText(Directive(right, zeros, digits, conv))
         == (if right then "-" else "") + (Repeat('0', zeros) + digits)
  {
  }

  lemma DirectiveRenders(g: string)
    requires g != "" && g[0] != '%' && ReadFlags(g).used < |g|
    ensures WellFormed(DirectiveOf(g))
    ensures g[..ReadFlags(g).used] == FlagText(DirectiveOf(g))
  {
    if g[0] == '-' {
      LeftRenders(g, g[1..], ReadFlags(g).used);
    } else {
      PlainRenders(g, ReadFlags(g).used);
    }
  }

  lemma PlainRenders(g: string, n: nat)
    requires g != "" && g[0] != '%' && g[0] != '-' && n == ReadFlags(g).used < |g|
    ensures WellFormed(DirectiveOf(g)) && g[..n] == FlagText(DirectiveOf(g))
  {
    WidthItem(false, g, g[n]);
    assert "" + g[..n] == g[..n];
  }

  lemma LeftRenders(g: string, h: string, n: nat)
    requires g != "" && g[0] == '-' && h == g[1..] && n == ReadFlags(g).used < |g|
    ensures WellFormed(DirectiveOf(g)) && g[..n] == FlagText(DirectiveOf(g))
  {
    WidthItem(true, h, g[n]);
    FirstAndRest(g, n);
  }

  lemma FirstAndRest(g: string, n: nat)
    requires 0 < n <= |g|
    ensures g[..n] == [g[0]] + g[1..][..n - 1]
  {
  }

  lemma HeadRenders(f: string)
    requires f != "" && f != "%" && HeadLen(f) <= |f|
    ensures WellFormed(HeadItem(f)) && f[..HeadLen(f)] == Render(HeadItem(f))
  {
    if HeadIsDirective(f) {
      var g := f[1..];
      DirectiveRenders(g);
      var n := ReadFlags(g).used;
      assert f[..n + 2] == "%" + g[..n] + [g[n]];
    }
  }

  lemma NoItems(f: string)
    requires f == "" || f == "%"
    ensures AllWellFormed([]) && (f == RenderAll([]) || f == RenderAll([]) + "%")
  {
    assert RenderAll([]) == "" && "" + "%" == "%";
  }

  /** The items of a complete string; a bare percent sign at its end belongs to none. */
  lemma {:induction false} ParseItems(f: string) returns (items: seq<Item>)
    requires Complete(f)
    ensures AllWellFormed(items)
    ensures f == RenderAll(items) || f == RenderAll(items) + "%"
    decreases |f|
  {
    if f == "" || f == "%" {
      items := [];
      NoItems(f);
    } else {
      var item, rest := FirstItem(f);
      var tail := ParseItems(rest);
      items := [item] + tail;
      Prepend(f, item, rest, tail, items);
    }
  }

  lemma FirstItem(f: string) returns (item: Item, rest: string)
    requires f != "" && f != "%" && HeadLen(f) <= |f|
    ensures rest == f[HeadLen(f)..] && WellFormed(item) && f == Render(item) + rest
  {
    item, rest := HeadItem(f), f[HeadLen(f)..];
    HeadRenders(f);
    assert f == f[..HeadLen(f)] + rest;
  }

  lemma Prepend(f: string, item: Item, rest: string, tail: seq<Item>, items: seq<Item>)
    requires f == Render(item) + rest && items == [item] + tail
    requires rest == RenderAll(tail) || rest == RenderAll(tail) + "%"
    requires WellFormed(item) && AllWellFormed(tail)
    ensures AllWellFormed(items)
    ensures f == RenderAll(items) || f == RenderAll(items) + "%"
  {
    assert items[1..] == tail;
    assert Render(item) + (RenderAll(tail) + "%") == RenderAll(items) + "%";
  }

  ghost predicate Grammatical(f: string) {
    exists items :: AllWellFormed(items) && (f == RenderAll(items) || f == RenderAll(items) + "%")
  }

  /** Where `format` points when the loop of print ends, counted from the start; one past the
      terminator when the loop has stepped over it. */
  function StopsAt(f: string): nat
    decreases |f|
  {
    if f == "" then 0
    else if HeadLen(f) > |f| then HeadLen(f)
    else HeadLen(f) + StopsAt(f[HeadLen(f)..])
  }

  /** The interpreter stops on the terminator exactly for the strings of the grammar, with or
      without a bare percent sign at the end; on any other it steps over the terminator. */
  lemma StopsOnTerminator(f: string)
    ensures StopsAt(f) == if Grammatical(f) then |f| else |f| + 1
  {
    StopsIfComplete(f);
    if Complete(f) {
      var items := ParseItems(f);
    }
    if Grammatical(f) {
      var items :| AllWellFormed(items) && (f == RenderAll(items) || f == RenderAll(items) + "%");
      RenderedMeans(items, []);
      BarePercentComplete(items);
    }
  }

  lemma {:induction false} StopsIfComplete(f: string)
    ensures StopsAt(f) == if Complete(f) then |f| else |f| + 1
    decreases |f|
  {
    if f == "" || HeadLen(f) > |f| {
    } else {
      StopsIfComplete(f[HeadLen(f)..]);
    }
  }

  // ---------------------------------------------------------------- composition

  lemma {:induction false} ZeroRunExtends(f: string, g: string)
    ensures ZeroRun(f) < |f| ==> ZeroRun(f + g) == ZeroRun(f)
  {
    if f == "" || f[0] != '0' {
    } else {
      assert (f + g)[1..] == f[1..] + g;
      ZeroRunExtends(f[1..], g);
    }
  }

  lemma {:induction false} DigitRunExtends(f: string, g: string)
    ensures DigitRun(f) < |f| ==> DigitRun(f + g) == DigitRun(f)
  {
    if f == "" || !IsDigit(f[0]) {
    } else {
      assert (f + g)[1..] == f[1..] + g;
      DigitRunExtends(f[1..], g);
    }
  }

  lemma WidthExtends(f: string, g: string, right: bool)
    requires ReadWidth(f, right).used < |f|
    ensures ReadWidth(f + g, right) == ReadWidth(f, right)
  {
    var z := ZeroRun(f);
    ZeroRunExtends(f, g);
    assert (f + g)[z..] == f[z..] + g;
    DigitRunExtends(f[z..], g);
    var d := DigitRun(f[z..]);
    assert (f[z..] + g)[..d] == f[z..][..d];
  }

  lemma FlagsExtend(f: string, g: string)
    requires ReadFlags(f).used < |f|
    ensures ReadFlags(f + g) == ReadFlags(f)
  {
    if f[0] == '-' {
      assert (f + g)[1..] == f[1..] + g;
      WidthExtends(f[1..], g, true);
    } else {
      WidthExtends(f, g, false);
    }
  }

  lemma DirectiveExtends(f: string, g: string)
    requires HeadIsDirective(f) && HeadLen(f) <= |f|
    ensures HeadIsDirective(f + g) && HeadLen(f + g) == HeadLen(f)
    ensures ReadFlags((f + g)[1..]) == ReadFlags(f[1..])
  {
    assert (f + g)[1..] == f[1..] + g;
    FlagsExtend(f[1..], g);
  }

  /** A turn that stays inside f does the same when more format follows f. */
  lemma HeadExtends(f: string, g: string, a: seq<Arg>, b: seq<Arg>)
    requires f != "" && f != "%" && HeadLen(f) <= |f|
    requires HeadFits(f, a)
    ensures HeadLen(f + g) == HeadLen(f) && (f + g)[HeadLen(f)..] == f[HeadLen(f)..] + g
    ensures HeadFits(f + g, a + b) && HeadText(f + g, a + b) == HeadText(f, a)
    ensures ArgsAfter(f + g, a + b) == ArgsAfter(f, a) + b
  {
    HeadSame(f, g);
    if HeadTakes(f) {
      assert (a + b)[0] == a[0];
      TailOfAppend(a, b);
    }
  }

  lemma HeadSame(f: string, g: string)
    requires f != "" && f != "%" && HeadLen(f) <= |f|
    ensures HeadLen(f + g) == HeadLen(f) && (f + g)[HeadLen(f)..] == f[HeadLen(f)..] + g
    ensures (f + g)[HeadLen(f) - 1] == f[HeadLen(f) - 1] && HeadTakes(f + g) == HeadTakes(f)
    ensures HeadIsDirective(f) ==> ReadFlags((f + g)[1..]) == ReadFlags(f[1..])
  {
    if HeadIsDirective(f) {
      DirectiveExtends(f, g);
    }
  }

  /** A complete string without a bare percent sign at its end, whose directives take these
      arguments and no others */
  ghost predicate UsesUp(f: string, args: seq<Arg>)
    decreases |f|
  {
    if f == "" then args == []
    else f != "%" && HeadLen(f) <= |f| && HeadFits(f, args) && UsesUp(f[HeadLen(f)..], ArgsAfter(f, args))
  }

  lemma {:induction false} UsesUpFits(f: string, args: seq<Arg>)
    requires UsesUp(f, args)
    ensures Fits(f, args)
    decreases |f|
  {
    if f == "" {
    } else {
      UsesUpFits(f[HeadLen(f)..], ArgsAfter(f, args));
    }
  }

  /** Printing the formats joined, with the arguments joined, is printing one after the other. */
  ghost predicate Joins(f: string, g: string, a: seq<Arg>, b: seq<Arg>)
    requires Fits(f, a) && Fits(g, b)
  {
    Fits(f + g, a + b) && Printed(f + g, a + b) == Printed(f, a) + Printed(g, b)
  }

  /** Whatever is printed after f, the two can be joined. */
  ghost predicate AlwaysJoins(f: string, a: seq<Arg>)
    requires Fits(f, a)
  {
    forall g, b :: Fits(g, b) ==> Joins(f, g, a, b)
  }

  lemma PrintedTurn(f: string, args: seq<Arg>, text: string, rest: string, after: seq<Arg>)
    requires f != "" && HeadLen(f) <= |f| && HeadFits(f, args)
    requires text == HeadText(f, args) && rest == f[HeadLen(f)..] && after == ArgsAfter(f, args)
    requires Fits(rest, after)
    ensures Fits(f, args) && Printed(f, args) == text + Printed(rest, after)
  {
  }

  lemma TurnFits(f: string, args: seq<Arg>, rest: string, after: seq<Arg>)
    requires f != "" && HeadLen(f) <= |f| && HeadFits(f, args)
    requires rest == f[HeadLen(f)..] && after == ArgsAfter(f, args)
    ensures Fits(f, args) <==> Fits(rest, after)
  {
  }

  /** A whole first turn does not matter. */
  lemma JoinsTurn(f: string, g: string, a: seq<Arg>, b: seq<Arg>, rest: string, args: seq<Arg>)
    requires f != "" && f != "%" && Fits(f, a) && Fits(g, b)
    requires rest == f[HeadLen(f)..] && args == ArgsAfter(f, a)
    ensures Fits(rest, args) && (Joins(f, g, a, b) <==> Joins(rest, g, args, b))
  {
    var text := HeadText(f, a);
    HeadExtends(f, g, a, b);
    TurnFits(f, a, rest, args);
    TurnFits(f + g, a + b, rest + g, args + b);
    if Fits(rest + g, args + b) {
      PrintedTurn(f, a, text, rest, args);
      PrintedTurn(f + g, a + b, text, rest + g, args + b);
      AppendAssoc(text, Printed(rest, args), Printed(g, b));
      SameTail(text, Printed(rest + g, args + b), Printed(rest, args) + Printed(g, b));
    }
  }

  lemma SameTail(text: string, x: string, y: string)
    ensures text + x == text + y <==> x == y
  {
    if text + x == text + y {
      assert x == (text + x)[|text|..] == y;
    }
  }

  lemma {:induction false} Composes(f: string, g: string, a: seq<Arg>, b: seq<Arg>)
    requires UsesUp(f, a) && Fits(g, b)
    ensures Fits(f, a) && Joins(f, g, a, b)
    decreases |f|
  {
    UsesUpFits(f, a);
    if f == "" {
      assert f + g == g && a + b == b;
    } else {
      var rest, args := f[HeadLen(f)..], ArgsAfter(f, a);
      Composes(rest, g, args, b);
      JoinsTurn(f, g, a, b, rest, args);
    }
  }

  /** %c prints the character of its argument. */
  lemma PrintsChar(args: seq<Arg>)
    requires args != []
    ensures Fits("%c", args) <==> IsInt(args[0])
    ensures IsInt(args[0]) ==> Printed("%c", args) == CharText(args[0].i)
  {
    assert ZeroRun("c") == 0 && DigitRun("c"[0..]) == 0;
    assert "%c"[1..] == "c";
    assert ReadFlags("c").used == 0;
    assert HeadLen("%c") == 2 && HeadTakes("%c") && "%c"[2..] == "";
    if IsInt(args[0]) {
      var text := CharText(args[0].i);
      var flags := ReadFlags("c");
      assert "c"[0..][..0] == "";
      assert flags.width == 0 && !flags.pad.right;
      assert HeadText("%c", args) == Padded(text, 0, flags.pad) == text;
      PrintedTurn("%c", args, text, "", args[1..]);
    }
  }

  /** A bare percent sign prints nothing, but followed by another it prints one. */
  lemma BarePercent(a: seq<Arg>)
    ensures Fits("%", a) && Printed("%", a) == ""
    ensures Fits("%%", a) && Printed("%%", a) == "%"
  {
    assert "%"[1..] == "" && "%%"[2..] == "";
    PrintedTurn("%", a, "", "", a);
    PrintedTurn("%%", a, "%", "", a);
  }

  lemma PercentSpoils(a: seq<Arg>)
    ensures Fits("%", a) && Fits("%", []) && !Joins("%", "%", a, [])
  {
    BarePercent([]);
    BarePercent(a);
    assert "%" + "%" == "%%" && a + [] == a;
  }

  lemma LeftOverSpoils(a: seq<Arg>, b: seq<Arg>)
    requires a != [] && b == [Int(if a[0].Int? && CharText(a[0].i) == "A" then 66 else 65)]
    ensures Fits("", a) && Fits("%c", b) && !Joins("", "%c", a, b)
  {
    PrintsChar(b);
    PrintsChar(a + b);
    assert "" + "%c" == "%c" && (a + b)[0] == a[0];
    if IsInt(a[0]) {
      CharsDiffer(a[0].i, b[0].i);
      assert Printed("", a) + CharText(b[0].i) == CharText(b[0].i);
    }
  }

  lemma CharsDiffer(i: int, j: int)
    requires j == if CharText(i) == "A" then 66 else 65
    ensures CharText(i) != CharText(j)
  {
    assert CharText(65) == "A" && CharText(66) == "B";
  }

  /** A format that ends in a bare percent sign is spoilt by another percent sign behind it, one
      that leaves arguments over by a directive that takes the first of them. */
  lemma {:induction false} Spoils(f: string, a: seq<Arg>) returns (g: string, b: seq<Arg>)
    requires Fits(f, a) && !UsesUp(f, a)
    ensures Fits(g, b) && !Joins(f, g, a, b)
    decreases |f|
  {
    if f == "" {
      g, b := "%c", [Int(if a[0].Int? && CharText(a[0].i) == "A" then 66 else 65)];
      LeftOverSpoils(a, b);
    } else if f == "%" {
      g, b := "%", [];
      PercentSpoils(a);
    } else {
      var rest, args := f[HeadLen(f)..], ArgsAfter(f, a);
      g, b := Spoils(rest, args);
      JoinsTurn(f, g, a, b, rest, args);
    }
  }

  /** Formats can be joined to whatever is printed next exactly when the first takes all its
      arguments and does not end in a bare percent sign. */
  lemma ComposesIff(f: string, a: seq<Arg>)
    requires Fits(f, a)
    ensures AlwaysJoins(f, a) <==> UsesUp(f, a)
  {
    if UsesUp(f, a) {
      forall g, b | Fits(g, b)
        ensures Joins(f, g, a, b)
      {
        Composes(f, g, a, b);
      }
    } else {
      var g, b := Spoils(f, a);
    }
  }

  // ---------------------------------------------------------------- what single formats print

  /** A string without percent signs prints as it stands. */
  lemma {:induction false} PlainPrinted(f: string, args: seq<Arg>)
    requires '%' !in f
    ensures Fits(f, args) && Printed(f, args) == f
    decreases |f|
  {
    if f == "" {
    } else {
      assert f[0] != '%';
      PlainPrinted(f[1..], args);
      PrintedTurn(f, args, [f[0]], f[1..], args);
    }
  }

  /** A width as a format writes it: decimal digits, none for zero */
  function WidthText(w: nat): string {
    Digits(w, 10, 'a')
  }

  /** The interpreter reads back the width that is written. */
  lemma {:induction false} WidthReadsBack(w: nat)
    ensures forall k :: 0 <= k < |WidthText(w)| ==> IsDigit(WidthText(w)[k])
    ensures WidthOf(WidthText(w)) == w
    ensures w > 0 ==> WidthText(w) != "" && WidthText(w)[0] != '0'
    decreases w
  {
    if w == 0 {
    } else {
      var init, last := WidthText(w / 10), DigitChar(w % 10, 'a');
      WidthReadsBack(w / 10);
      NoLeadingZero(w, 10, 'a');
      assert WidthText(w) == init + [last];
      assert (init + [last])[..|init|] == init;
    }
  }

  /** A percent sign, a minus sign if it is to be left-aligned, zeros, the width, and the conversion */
  function Directed(right: bool, zeros: nat, w: nat, conv: char): string {
    "%" + (if right then "-" else "") + Repeat('0', zeros) + WidthText(w) + [conv]
  }

  lemma DirectivePrinted(right: bool, zeros: nat, w: nat, conv: char, a: Arg)
    requires IsConversion(conv)
    ensures var f := Directed(right, zeros, w, conv);
      && (Fits(f, [a]) <==> Takes(conv, a))
      && (Takes(conv, a) ==> Printed(f, [a]) == Convert(conv, a, w, Pad(right, zeros > 0)))
  {
    var item := Directive(right, zeros, WidthText(w), conv);
    WidthReadsBack(w);
    assert Render(item) == Directed(right, zeros, w, conv);
    OneItem(item, [a]);
  }

  lemma OneItem(item: Item, args: seq<Arg>)
    requires WellFormed(item)
    ensures var fits := ItemTakes(item) ==> args != [] && Takes(item.conv, args[0]);
      && (Fits(Render(item), args) <==> fits)
      && (fits ==> Printed(Render(item), args) == ItemText(item, args))
  {
    var items := [item];
    assert items[1..] == [];
    RenderedMeans(items, args);
    assert RenderAll(items) == Render(item) + "" == Render(item);
    if ItemTakes(item) ==> args != [] && Takes(item.conv, args[0]) {
      assert Meaning(items, args) == ItemText(item, args) + "" == ItemText(item, args);
    }
  }

  /** %s prints the string itself, or (null), filled up to the width on the side asked for. */
  lemma StringPrinted(right: bool, zeros: nat, w: nat, t: Option<string>)
    requires t.Some? ==> '\0' !in t.value
    ensures var f := Directed(right, zeros, w, 's');
      && Fits(f, [Str(t)])
      && Filled(Printed(f, [Str(t)]), if t.Some? then t.value else "(null)", w, right, if zeros > 0 then '0' else ' ')
  {
    DirectivePrinted(right, zeros, w, 's', Str(t));
    PaddedFills(if t.Some? then t.value else "(null)", w, Pad(right, zeros > 0));
  }

  /** %c prints the character of the argument's low byte, and nothing but fillers for a zero byte. */
  lemma CharPrinted(right: bool, zeros: nat, w: nat, i: int)
    requires -0x8000_0000 <= i < 0x8000_0000
    ensures var f := Directed(right, zeros, w, 'c');
      && Fits(f, [Int(i)])
      && Filled(Printed(f, [Int(i)]), if i % 256 == 0 then "" else [(i % 256) as char], w, right,
                if zeros > 0 then '0' else ' ')
  {
    DirectivePrinted(right, zeros, w, 'c', Int(i));
    CharFills(right, zeros > 0, w, i);
  }

  lemma CharFills(right: bool, zero: bool, w: nat, i: int)
    requires -0x8000_0000 <= i < 0x8000_0000
    ensures Filled(Convert('c', Int(i), w, Pad(right, zero)), if i % 256 == 0 then "" else [(i % 256) as char],
                   w, right, if zero then '0' else ' ')
  {
    PaddedFills(CharText(i), w, Pad(right, zero));
  }

  /** The number conversions, from the format string: %d reads back as the int, the others as its
      residue modulo 2^32, in base 10 or 16, unless zeros are written behind it; the text is the
      plain one filled up to the width; and the letters are in the case of the conversion. */
  lemma NumberPrinted(right: bool, zeros: nat, w: nat, conv: char, i: int)
    requires conv == 'd' || conv == 'u' || conv == 'x' || conv == 'X'
    requires -0x8000_0000 <= i < 0x8000_0000
    ensures var f, plain := Directed(right, zeros, w, conv), Directed(false, 0, 0, conv);
      && Fits(f, [Int(i)]) && Fits(plain, [Int(i)])
      && var t, p := Printed(f, [Int(i)]), Printed(plain, [Int(i)]);
      && (Read(t, if conv == 'd' || conv == 'u' then 10 else 16) == Some(if conv == 'd' then i else i % 0x1_0000_0000)
          <==> !(right && zeros > 0 && i != 0 && w > |p|))
      && |t| == (if w > |p| then w else |p|)
      && (zeros == 0 ==> Filled(t, p, w, right, ' '))
      && (forall c :: c in t && conv == 'x' ==> !('A' <= c <= 'F'))
      && (forall c :: c in t && conv == 'X' ==> !('a' <= c <= 'f'))
  {
    var b, letbase, sg := if conv == 'd' || conv == 'u' then 10 else 16, if conv == 'X' then 'A' else 'a', conv == 'd';
    DirectivePrinted(right, zeros, w, conv, Int(i));
    DirectivePrinted(false, 0, 0, conv, Int(i));
    NumberConverted(right, zeros > 0, w, conv, i, b, letbase, sg);
  }

  /** The plain text of a number: 0 for zero, and otherwise no zero before the other digits, and a
      minus sign exactly when %d prints a negative int. */
  lemma PlainNumberPrinted(conv: char, i: int)
    requires conv == 'd' || conv == 'u' || conv == 'x' || conv == 'X'
    requires -0x8000_0000 <= i < 0x8000_0000
    ensures var plain := Directed(false, 0, 0, conv);
      && Fits(plain, [Int(i)])
      && var p := Printed(plain, [Int(i)]);
      && (i == 0 ==> p == "0")
      && (i != 0 && !(conv == 'd' && i < 0) ==> p != "" && p[0] != '0' && p[0] != '-')
      && (conv == 'd' && i < 0 ==> |p| > 1 && p[0] == '-' && p[1] != '0')
  {
    var b, letbase, sg := if conv == 'd' || conv == 'u' then 10 else 16, if conv == 'X' then 'A' else 'a', conv == 'd';
    DirectivePrinted(false, 0, 0, conv, Int(i));
    ConvertsNumber(conv, i, 0, Pad(false, false), b, letbase, sg);
    PlainDigits(i, b, sg, letbase, Number(i, b, sg, 0, Pad(false, false), letbase));
  }

  lemma PlainDigits(i: int, b: nat, sg: bool, letbase: char, p: string)
    requires -0x8000_0000 <= i < 0x8000_0000
    requires IsBase(b) && (letbase == 'a' || letbase == 'A')
    requires p == Number(i, b, sg, 0, Pad(false, false), letbase)
    ensures i == 0 ==> p == "0"
    ensures i != 0 && !(sg && b == 10 && i < 0) ==> p != "" && p[0] != '0' && p[0] != '-'
    ensures sg && b == 10 && i < 0 ==> |p| > 1 && p[0] == '-' && p[1] != '0'
  {
    Unpadded("0", Pad(false, false));
    if i != 0 {
      var negative := sg && b == 10 && i < 0;
      var u := if negative then -i else Unsigned(i);
      var digits := Digits(u, b, letbase);
      NoLeadingZero(u, b, letbase);
      DigitsRead(u, b, letbase);
      assert digits[0] in digits;
      Unpadded(if negative then "-" + digits else digits, Pad(false, false));
    }
  }

  lemma NumberConverted(right: bool, zero: bool, w: nat, conv: char, i: int, b: nat, letbase: char, sg: bool)
    requires conv == 'd' || conv == 'u' || conv == 'x' || conv == 'X'
    requires -0x8000_0000 <= i < 0x8000_0000
    requires b == (if conv == 'd' || conv == 'u' then 10 else 16) && sg == (conv == 'd')
    requires letbase == if conv == 'X' then 'A' else 'a'
    ensures var t, p := Convert(conv, Int(i), w, Pad(right, zero)), Convert(conv, Int(i), 0, Pad(false, false));
      && (Read(t, b) == Some(if sg then i else i % 0x1_0000_0000) <==> !(right && zero && i != 0 && w > |p|))
      && |t| == (if w > |p| then w else |p|)
      && (!zero ==> Filled(t, p, w, right, ' '))
      && (forall c :: c in t && conv == 'x' ==> !('A' <= c <= 'F'))
      && (forall c :: c in t && conv == 'X' ==> !('a' <= c <= 'f'))
  {
    var pad, none := Pad(right, zero), Pad(false, false);
    ConvertsNumber(conv, i, w, pad, b, letbase, sg);
    ConvertsNumber(conv, i, 0, none, b, letbase, sg);
    NumberFacts(i, b, sg, w, pad, letbase, Number(i, b, sg, w, pad, letbase), Number(i, b, sg, 0, none, letbase));
  }

  lemma ConvertsNumber(conv: char, i: int, w: nat, pad: Pad, b: nat, letbase: char, sg: bool)
    requires conv == 'd' || conv == 'u' || conv == 'x' || conv == 'X'
    requires -0x8000_0000 <= i < 0x8000_0000
    requires b == (if conv == 'd' || conv == 'u' then 10 else 16) && sg == (conv == 'd')
    requires letbase == if conv == 'X' then 'A' else 'a'
    ensures Convert(conv, Int(i), w, pad) == Number(i, b, sg, w, pad, letbase)
  {
  }

  lemma NumberFacts(i: int, b: nat, sg: bool, w: nat, pad: Pad, letbase: char, t: string, p: string)
    requires -0x8000_0000 <= i < 0x8000_0000
    requires IsBase(b) && (letbase == 'a' || letbase == 'A') && (sg ==> b == 10)
    requires t == Number(i, b, sg, w, pad, letbase) && p == Number(i, b, sg, 0, Pad(false, false), letbase)
    ensures Read(t, b) == Some(if sg then i else i % 0x1_0000_0000) <==> !(pad.right && pad.zero && i != 0 && w > |p|)
    ensures |t| == if w > |p| then w else |p|
    ensures !pad.zero ==> Filled(t, p, w, pad.right, ' ')
    ensures forall c :: c in t && letbase == 'a' ==> !('A' <= c <= 'F')
    ensures forall c :: c in t && letbase == 'A' ==> !('a' <= c <= 'f')
  {
    SamePlain(i, b, sg, pad, letbase);
    NumberReads(i, b, sg, w, pad, letbase, t, |p|);
    NumberLetters(i, b, sg, w, pad, letbase, t);
    if !pad.zero {
      NumberFills(i, b, sg, w, pad.right, letbase);
    }
  }

  lemma {:induction false} NumberReads(i: int, b: nat, sg: bool, w: nat, pad: Pad, letbase: char,
                                          t: string, natural: nat)
    requires -0x8000_0000 <= i < 0x8000_0000
    requires IsBase(b) && (letbase == 'a' || letbase == 'A') && (sg ==> b == 10)
    requires t == Number(i, b, sg, w, pad, letbase) && natural == |Number(i, b, sg, 0, pad, letbase)|
    ensures Read(t, b) == Some(if sg then i else i % 0x1_0000_0000)
      <==> !(pad.right && pad.zero && i != 0 && w > natural)
    ensures |t| == if w > natural then w else natural
  {
    NumberReadsBack(i, b, sg, w, pad, letbase);
    NumberWidth(i, b, sg, w, pad, letbase);
    MeantModulo(i, b, sg);
  }

  lemma MeantModulo(i: int, b: nat, sg: bool)
    requires -0x8000_0000 <= i < 0x8000_0000 && IsBase(b) && (sg ==> b == 10)
    ensures Meant(i, b, sg) == if sg then i else i % 0x1_0000_0000
  {
  }

  lemma NumberLetters(i: int, b: nat, sg: bool, w: nat, pad: Pad, letbase: char, t: string)
    requires -0x8000_0000 <= i < 0x8000_0000
    requires IsBase(b) && (letbase == 'a' || letbase == 'A')
    requires t == Number(i, b, sg, w, pad, letbase)
    ensures forall c :: c in t && letbase == 'a' ==> !('A' <= c <= 'F')
    ensures forall c :: c in t && letbase == 'A' ==> !('a' <= c <= 'f')
  {
    forall c | c in t
      ensures letbase == 'a' ==> !('A' <= c <= 'F')
      ensures letbase == 'A' ==> !('a' <= c <= 'f')
    {
      NumberCase(i, b, sg, w, pad, letbase, c);
    }
  }

  lemma SamePlain(i: int, b: nat, sg: bool, pad: Pad, letbase: char)
    requires -0x8000_0000 <= i < 0x8000_0000
    requires IsBase(b) && (letbase == 'a' || letbase == 'A')
    ensures Number(i, b, sg, 0, pad, letbase) == Number(i, b, sg, 0, Pad(false, false), letbase)
  {
  }

  /** A directive of any other conversion prints nothing and takes no argument. */
  lemma OthersPrintNothing(right: bool, zeros: nat, w: nat, conv: char)
    requires conv !in "sdxXuc" && !IsDigit(conv)
    requires !right && zeros == 0 && w == 0 ==> conv != '-' && conv != '%'
    ensures var f := Directed(right, zeros, w, conv);
      Fits(f, []) && Printed(f, []) == ""
  {
    var item := Directive(right, zeros, WidthText(w), conv);
    WidthReadsBack(w);
    assert Render(item) == Directed(right, zeros, w, conv);
    assert forall c :: c == 's' || c == 'd' || c == 'x' || c == 'X' || c == 'u' || c == 'c' ==> c in "sdxXuc";
    OneItem(item, []);
  }
}
