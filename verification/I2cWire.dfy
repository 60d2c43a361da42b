/** What an I2C listener makes of the two wires (sections 3.1.3 to 3.1.6 of UM10204). */
module I2cWire {
  import opened Common
  import opened Words

  datatype Level = Level(scl: bool, sda: bool)
  datatype Symbol = Start | Stop | Bit(b: bool)

  /** What has been heard, the wires as last seen, and whether the present SCL pulse can
      still turn out to be a data bit */
  datatype Heard = Heard(symbols: seq<Symbol>, wires: Level, pulse: bool)

  const SILENCE: Heard := Heard([], Level(true, true), false)

  /** SDA falling while SCL is high is a START and SDA rising a STOP.  An SCL pulse during
      which SDA keeps still is a data bit, known when the pulse ends. */
  function Hear(h: Heard, now: Level): Heard {
    if h.wires.scl && now.scl && h.wires.sda != now.sda then
      Heard(h.symbols + [if now.sda then Stop else Start], now, false)
    else if h.wires.scl && !now.scl then
      Heard(if h.pulse then h.symbols + [Bit(h.wires.sda)] else h.symbols, now, false)
    else
      Heard(h.symbols, now, if now.scl && !h.wires.scl then true else h.pulse)
  }

  function Listen(trace: seq<Level>): Heard {
    if trace == [] then SILENCE else Hear(Listen(trace[..|trace| - 1]), trace[|trace| - 1])
  }

  lemma ListenOn(trace: seq<Level>, now: Level)
    ensures Listen(trace + [now]) == Hear(Listen(trace), now)
  {
    assert (trace + [now])[..|trace|] == trace;
  }

  /** The symbols heard, with the data bit of a pulse that is still on */
  function Symbols(h: Heard): seq<Symbol> {
    if h.pulse then h.symbols + [Bit(h.wires.sda)] else h.symbols
  }

  // ---------------------------------------------------------------- bytes

  /** A byte with the acknowledge bit after it; `ack` is the level, low to acknowledge. */
  datatype Frame = Frame(byte: Byte, ack: bool)

  function BitsOf(w: Word): seq<Symbol> {
    seq(|w|, i requires 0 <= i < |w| => Bit(w[i]))
  }

  function FrameBits(f: Frame): (bits: seq<Symbol>)
    ensures |bits| == 9 && forall i :: 0 <= i < 9 ==> bits[i].Bit?
  {
    BitsOf(f.byte) + [Bit(f.ack)]
  }

  function Encode(frames: seq<Frame>): seq<Symbol> {
    if frames == [] then []
    else Encode(frames[..|frames| - 1]) + FrameBits(frames[|frames| - 1])
  }

  /** The frames between a START and a STOP, if there is nothing else between them */
  function Decode(symbols: seq<Symbol>): Option<seq<Frame>> {
    if |symbols| >= 2 && symbols[0] == Start && symbols[|symbols| - 1] == Stop
    then DecodeFrames(symbols[1..|symbols| - 1]) else None
  }

  function DecodeFrames(bits: seq<Symbol>): Option<seq<Frame>> {
    if bits == [] then Some([])
    else if |bits| < 9 then None
    else
      var front, last := DecodeFrames(bits[..|bits| - 9]), bits[|bits| - 9..];
      if front.Some? && forall i :: 0 <= i < 9 ==> last[i].Bit?
      then Some(front.value + [Frame(ByteOf(last), last[8].b)]) else None
  }

  function ByteOf(bits: seq<Symbol>): Byte
    requires |bits| == 9 && forall i :: 0 <= i < 9 ==> bits[i].Bit?
  {
    seq(8, i requires 0 <= i < 8 => bits[i].b)
  }

  lemma {:induction false} DecodeEncoded(frames: seq<Frame>)
    ensures DecodeFrames(Encode(frames)) == Some(frames)
  {
    if frames == [] {
    } else {
      var init, f := frames[..|frames| - 1], frames[|frames| - 1];
      DecodeEncoded(init);
      DecodeSnoc(Encode(init), f);
      assert frames == init + [f];
    }
  }

  lemma DecodeSnoc(bits: seq<Symbol>, f: Frame)
    requires DecodeFrames(bits).Some?
    ensures DecodeFrames(bits + FrameBits(f)) == Some(DecodeFrames(bits).value + [f])
  {
    var all := bits + FrameBits(f);
    assert all[..|all| - 9] == bits;
    assert all[|all| - 9..] == FrameBits(f);
    assert ByteOf(FrameBits(f)) == f.byte;
  }

  /** A transaction decodes to the bytes that went into it. */
  lemma DecodeTransaction(frames: seq<Frame>)
    ensures Decode([Start] + Encode(frames) + [Stop]) == Some(frames)
  {
    var s := [Start] + Encode(frames) + [Stop];
    assert s[1..|s| - 1] == Encode(frames);
    DecodeEncoded(frames);
  }

  /** Anything but data bits inside spoils it. */
  lemma {:induction false} StrayNotDecoded(bits: seq<Symbol>, k: nat)
    requires k < |bits| && !bits[k].Bit?
    ensures DecodeFrames(bits).None?
    decreases |bits|
  {
    if |bits| < 9 {
    } else {
      var front, last := bits[..|bits| - 9], bits[|bits| - 9..];
      if k < |front| {
        StrayNotDecoded(front, k);
      } else {
        assert last[k - |front|] == bits[k];
      }
    }
  }

  lemma EncodeSnoc(frames: seq<Frame>, f: Frame)
    ensures Encode(frames + [f]) == Encode(frames) + FrameBits(f)
  {
    assert (frames + [f])[..|frames|] == frames;
  }

  // ---------------------------------------------------------------- what the listener goes by

  /** What each change of SDA while SCL stays high is: falling a START, rising a STOP */
  function Edges(before: Level, trace: seq<Level>): seq<Symbol>
    decreases |trace|
  {
    if trace == [] then [] else
    var edge := before.scl && trace[0].scl && before.sda != trace[0].sda;
    (if edge then [if trace[0].sda then Stop else Start] else []) + Edges(trace[0], trace[1..])
  }

  function Conditions(symbols: seq<Symbol>): seq<Symbol> {
    if symbols == [] then [] else
    Conditions(symbols[..|symbols| - 1]) + if symbols[|symbols| - 1].Bit? then [] else [symbols[|symbols| - 1]]
  }

  lemma ConditionsSnoc(symbols: seq<Symbol>, s: Symbol)
    ensures Conditions(symbols + [s]) == Conditions(symbols) + if s.Bit? then [] else [s]
  {
    assert (symbols + [s])[..|symbols|] == symbols;
  }

  lemma {:induction false} EdgesSnoc(before: Level, trace: seq<Level>, now: Level)
    ensures Edges(before, trace + [now])
         == Edges(before, trace) + Edges(if trace == [] then before else trace[|trace| - 1], [now])
    decreases |trace|
  {
    if trace == [] {
      assert trace + [now] == [now];
    } else {
      TailOfAppend(trace, [now]);
      EdgesSnoc(trace[0], trace[1..], now);
    }
  }

  lemma OneEdge(before: Level, now: Level)
    ensures Edges(before, [now]) ==
      if before.scl && now.scl && before.sda != now.sda then [if now.sda then Stop else Start] else []
  {
    assert [now][1..] == [];
  }

  /** START and STOP are heard exactly where SDA changes while SCL stays high, from idle lines on:
      everywhere else SDA keeps still as long as SCL is high. */
  lemma {:induction false} ConditionsAreEdges(trace: seq<Level>)
    ensures Conditions(Listen(trace).symbols) == Edges(Level(true, true), trace)
    ensures Listen(trace).wires == if trace == [] then Level(true, true) else trace[|trace| - 1]
  {
    if trace == [] {
    } else {
      var init, now := trace[..|trace| - 1], trace[|trace| - 1];
      ConditionsAreEdges(init);
      EdgeHeard(init, now, Listen(init));
      assert trace == init + [now];
    }
  }

  lemma EdgeHeard(init: seq<Level>, now: Level, h: Heard)
    requires Conditions(h.symbols) == Edges(Level(true, true), init)
    requires h.wires == if init == [] then Level(true, true) else init[|init| - 1]
    ensures Conditions(Hear(h, now).symbols) == Edges(Level(true, true), init + [now])
  {
    EdgesSnoc(Level(true, true), init, now);
    OneEdge(h.wires, now);
    HearsEdge(h, now);
  }

  lemma HearsEdge(h: Heard, now: Level)
    ensures Conditions(Hear(h, now).symbols) == Conditions(h.symbols) +
      if h.wires.scl && now.scl && h.wires.sda != now.sda then [if now.sda then Stop else Start] else []
  {
    ConditionsSnoc(h.symbols, if now.sda then Stop else Start);
    ConditionsSnoc(h.symbols, Bit(h.wires.sda));
    assert Conditions(h.symbols) + [] == Conditions(h.symbols);
  }

  /** A clock pulse during which SDA keeps still is heard as a bit of its level. */
  lemma PulseIsBit(h: Heard, before: bool, bit: bool, after: bool)
    requires !h.wires.scl && !h.pulse
    ensures Hear(Hear(Hear(h, Level(false, before)), Level(true, bit)), Level(false, after)).symbols
         == h.symbols + [Bit(bit)]
  {
  }

  /** The bits of a byte on the wires, the heaviest first */
  lemma BitsWeigh(b: Byte)
    ensures var s := BitsOf(b);
      && |s| == 8
      && (forall i :: 0 <= i < 8 ==> s[i].Bit?)
      && Val(b) == (if s[0].b then 128 else 0) + (if s[1].b then 64 else 0) + (if s[2].b then 32 else 0)
           + (if s[3].b then 16 else 0) + (if s[4].b then 8 else 0) + (if s[5].b then 4 else 0)
           + (if s[6].b then 2 else 0) + if s[7].b then 1 else 0
  {
    ByteArithmetic(b);
  }
}
