/** The bit-banged I2C master: the i2c_sim functions of ble_lt_sdk/proj/drivers/i2c.c. */
module I2c {
  import opened Common
  import opened Words
  import opened I2cWire

  /** The two open-drain lines.  A side that lets a line go leaves it to the pull-up, so a
      line is high when nobody pulls it down.  The slave pulls only SDA, and moves it only
      when SCL has just gone low: slave(k) is what it does from the k-th time on. */
  class Bus {
    const slave: nat -> bool
    var sclOut: bool            // let go by the master
    var sdaOut: bool
    var slaveSda: bool
    var clocks: nat
    var trace: seq<Level>       // the wires, after every change

    function Sda(): bool
      reads this
    {
      sdaOut && slaveSda
    }

    ghost predicate Valid()
      reads this
    {
      Listen(trace).wires == Level(sclOut, Sda())
    }

    /** All that has been heard on the wires so far */
    ghost function Said(): seq<Symbol>
      reads this
    {
      Symbols(Listen(trace))
    }

    ghost predicate Idle()
      reads this
    {
      Valid() && sclOut && sdaOut && slaveSda && !Listen(trace).pulse
    }

    constructor (slave: nat -> bool)
      ensures Idle() && clocks == 0 && trace == [] && this.slave == slave
    {
      this.slave := slave;
      sclOut, sdaOut, slaveSda, clocks, trace := true, true, true, 0, [];
    }

    method Seen()
      modifies this`trace
      ensures trace == old(trace) + [Level(sclOut, Sda())]
      ensures Listen(trace) == Hear(Listen(old(trace)), Level(sclOut, Sda()))
    {
      ListenOn(trace, Level(sclOut, Sda()));
      trace := trace + [Level(sclOut, Sda())];
    }

    /** i2c_sim_scl_out */
    method SclOut(v: bool)
      requires Valid()
      modifies this
      ensures Valid() && sclOut == v && sdaOut == old(sdaOut)
      ensures old(sclOut) && !v ==>
        clocks == old(clocks) + 1 && slaveSda == slave(old(clocks)) &&
        Listen(trace) == Heard(old(Said()), Level(false, Sda()), false)
      ensures !(old(sclOut) && !v) ==>
        clocks == old(clocks) && slaveSda == old(slaveSda) &&
        Listen(trace) == Hear(old(Listen(trace)), Level(v, Sda()))
    {
      var falls := sclOut && !v;
      sclOut := v;
      Seen();
      if falls {
        slaveSda := slave(clocks);
        clocks := clocks + 1;
        Seen();
      }
    }

    /** i2c_sim_sda_out */
    method SdaOut(v: bool)
      requires Valid()
      modifies this
      ensures Valid() && sdaOut == v && sclOut == old(sclOut)
      ensures clocks == old(clocks) && slaveSda == old(slaveSda)
      ensures Listen(trace) == Hear(old(Listen(trace)), Level(sclOut, Sda()))
    {
      sdaOut := v;
      Seen();
    }

    /** i2c_sim_start on an idle bus */
    method SimStart()
      requires Idle()
      modifies this
      ensures Valid() && sclOut && !sdaOut && clocks == old(clocks) && slaveSda && !Listen(trace).pulse
      ensures Said() == old(Said()) + [Start]
    {
      SdaOut(true);
      SclOut(true);
      SdaOut(false);
    }

    /** i2c_sim_stop.  If SDA is high when it begins, pulling it low is a START that takes the
        place of the bit on the wires. */
    method SimStop()
      requires Valid() && sclOut && slave(clocks)
      modifies this
      ensures Idle() && clocks == old(clocks) + 1
      ensures Said() == (if old(Sda()) then old(Listen(trace).symbols) + [Start] else old(Said())) + [Stop]
    {
      SdaOut(false);
      SclOut(false);
      SclOut(true);
      SdaOut(true);
    }

    /** i2c_sim_wirte_bit */
    method WriteBit(bit: bool)
      requires Valid() && sclOut
      modifies this
      ensures Valid() && sclOut && clocks == old(clocks) + 1
      ensures slaveSda == slave(old(clocks)) && Sda() == (bit && slaveSda)
      ensures Listen(trace) == Heard(old(Said()), Level(true, Sda()), true)
      ensures Said() == old(Said()) + [Bit(bit && slave(old(clocks)))]
    {
      SclOut(false);
      SdaOut(bit);
      SclOut(true);
    }

    /** i2c_sim_read_bit */
    method ReadBit() returns (bit: bool)
      requires Valid() && sclOut
      modifies this
      ensures Valid() && sclOut && clocks == old(clocks) + 1
      ensures bit == Sda() == slaveSda == slave(old(clocks))
      ensures Listen(trace) == Heard(old(Said()), Level(true, bit), true)
    {
      WriteBit(true);
      bit := Sda();
    }

    /** The slave lets SDA go for `n` clocks from `k` on. */
    ghost predicate Released(k: nat, n: nat) {
      forall i :: k <= i < k + n ==> slave(i)
    }

    /** i2c_sim_write_byte */
    method WriteByte(dat: Byte) returns (ack: bool)
      requires Valid() && sclOut
      requires Released(clocks, 8)
      modifies this
      ensures Valid() && sclOut && clocks == old(clocks) + 9
      ensures ack == Sda() == slave(old(clocks) + 8)
      ensures Listen(trace) == Heard(old(Said()) + BitsOf(dat), Level(true, ack), true)
    {
      var i := 0;                       // the bit under the mask 0x80 >> i
      while i < 8
        invariant 0 <= i <= 8 && Valid() && sclOut
        invariant clocks == old(clocks) + i
        invariant Said() == old(Said()) + BitsOf(dat[..i])
      {
        WriteBit(dat[i]);
        BitsOfNext(dat, i);
        i := i + 1;
      }
      assert dat[..8] == dat;
      ack := ReadBit();
    }

    lemma BitsOfNext(w: Word, i: nat)
      requires i < |w|
      ensures BitsOf(w[..i + 1]) == BitsOf(w[..i]) + [Bit(w[i])]
    {
    }

    /** What the slave puts on SDA in eight clocks */
    function Driven(k: nat): Byte {
      seq(8, i requires 0 <= i < 8 => slave(k + i))
    }

    /** i2c_sim_read_byte */
    method ReadByte(last: bool) returns (dat: Byte)
      requires Valid() && sclOut
      requires slave(clocks + 8)
      modifies this
      ensures Valid() && sclOut && clocks == old(clocks) + 9
      ensures dat == Driven(old(clocks)) && Sda() == last
      ensures Listen(trace) == Heard(old(Said()) + BitsOf(dat), Level(true, last), true)
    {
      dat := Zeros(8);
      ghost var sent := Driven(clocks);
      var i := 0;
      while i < 8
        invariant 0 <= i <= 8 && Valid() && sclOut
        invariant clocks == old(clocks) + i
        invariant dat == Zeros(8 - i) + sent[..i]
        invariant Said() == old(Said()) + BitsOf(sent[..i])
      {
        WriteBit(true);
        BitsOfNext(sent, i);
        if Sda() {
          dat := ShiftIn(dat, true);
        } else {
          dat := ShiftIn(dat, false);
        }
        i := i + 1;
      }
      assert sent[..8] == sent;
      WriteBit(last);
    }

    // -------------------------------------------------------------- transactions

    /** What the slave does in `count` bytes that the master writes, and in the clock of the
        STOP after them: let SDA go except to acknowledge. */
    ghost predicate ListensFor(k: nat, count: nat) {
      && (forall j :: 0 <= j < count ==> Released(Clock(k, j), 8))
      && slave(Clock(k, count))
    }

    /** The clock that the j-th byte begins with */
    function Clock(k: nat, j: nat): nat {
      k + 9 * j
    }

    /** The bytes as sent, each with the slave's answer */
    ghost function Answered(bytes: seq<Byte>, k: nat): seq<Frame> {
      seq(|bytes|, j requires 0 <= j < |bytes| => Frame(bytes[j], slave(Clock(k, j) + 8)))
    }

    /** These frames have been said after a START, the last answer being on the wires still. */
    ghost predicate InFrames(before: seq<Symbol>, frames: seq<Frame>)
      reads this
    {
      && Valid() && sclOut
      && Said() == before + [Start] + Encode(frames)
      && (frames != [] ==> OnTheWires(before, frames[..|frames| - 1], frames[|frames| - 1]))
    }

    ghost predicate OnTheWires(before: seq<Symbol>, frames: seq<Frame>, f: Frame)
      reads this
    {
      Listen(trace) == Heard(before + [Start] + Encode(frames) + BitsOf(f.byte), Level(true, f.ack), true)
    }

    lemma FrameSaid(before: seq<Symbol>, frames: seq<Frame>, f: Frame)
      requires Valid() && sclOut && OnTheWires(before, frames, f)
      ensures InFrames(before, frames + [f])
    {
      EncodeSnoc(frames, f);
      Regroup(before + [Start], Encode(frames), f);
      assert (frames + [f])[..|frames|] == frames;
    }

    lemma Regroup(head: seq<Symbol>, frames: seq<Symbol>, f: Frame)
      ensures ((head + frames) + BitsOf(f.byte)) + [Bit(f.ack)] == head + (frames + FrameBits(f))
    {
    }

    method SendFrame(byte: Byte, ghost before: seq<Symbol>, ghost frames: seq<Frame>)
      requires InFrames(before, frames)
      requires Released(clocks, 8)
      modifies this
      ensures clocks == old(clocks) + 9
      ensures InFrames(before, frames + [Frame(byte, slave(old(clocks) + 8))])
    {
      var ack := WriteByte(byte);
      FrameSaid(before, frames, Frame(byte, ack));
    }

    method ReceiveFrame(last: bool, ghost before: seq<Symbol>, ghost frames: seq<Frame>) returns (byte: Byte)
      requires InFrames(before, frames)
      requires slave(clocks + 8)
      modifies this
      ensures clocks == old(clocks) + 9
      ensures byte == Driven(old(clocks))
      ensures InFrames(before, frames + [Frame(byte, last)])
    {
      byte := ReadByte(last);
      FrameSaid(before, frames, Frame(byte, last));
    }

    /** i2c_sim_stop after frames */
    method Finish(ghost before: seq<Symbol>, ghost frames: seq<Frame>)
      requires InFrames(before, frames) && frames != []
      requires slave(clocks)
      modifies this
      ensures Idle() && clocks == old(clocks) + 1
      ensures Said() == before + Transaction(frames)
    {
      SimStop();
      StopSaid(before, frames[..|frames| - 1], frames[|frames| - 1]);
    }

    lemma StopSaid(before: seq<Symbol>, init: seq<Frame>, last: Frame)
      ensures before + [Start] + Encode(init) + BitsOf(last.byte) + [Start] + [Stop]
           == before + ([Start] + Encode(init) + BitsOf(last.byte) + [Start, Stop])
      ensures before + [Start] + Encode(init + [last]) + [Stop] == before + ([Start] + Encode(init + [last]) + [Stop])
    {
    }

    /** i2c_sim_start, before any frame */
    method Begin()
      requires Idle()
      modifies this
      ensures clocks == old(clocks) && InFrames(old(Said()), [])
    {
      SimStart();
      assert Said() + Encode([]) == Said();
    }

    /** How both transactions begin: START, the slave's id and the register address */
    method Address(id: Byte, addr: Byte) returns (ghost frames: seq<Frame>)
      requires Idle() && ListensFor(clocks, 2)
      modifies this
      ensures clocks == Clock(old(clocks), 2)
      ensures frames == Answered([id, addr], old(clocks))
      ensures InFrames(old(Said()), frames)
    {
      ghost var before, k := Said(), clocks;
      Begin();
      assert clocks == Clock(k, 0);
      SendFrame(id, before, []);
      assert clocks == Clock(k, 1);
      SendFrame(addr, before, [] + [Frame(id, slave(k + 8))]);
      frames := [] + [Frame(id, slave(k + 8))] + [Frame(addr, slave(k + 17))];
      assert frames == Answered([id, addr], k);
    }

    /** i2c_sim_burst_write.  One START, the bytes in order with the slave's answers, one STOP,
        exactly when the slave acknowledges the last byte.  If it does not, the master's stop
        makes a second START where that answer should be heard. */
    method BurstWrite(id: Byte, addr: Byte, p: array<Byte>, n: int)
      requires Idle() && n <= p.Length
      requires ListensFor(clocks, 2 + if n > 0 then n else 0)
      modifies this
      ensures Idle()
      ensures var bytes := [id, addr] + p[..if n > 0 then n else 0];
        Said() == old(Said()) + Transaction(Answered(bytes, old(clocks)))
    {
      ghost var before, k := Said(), clocks;
      assert n > 0 ==> Released(Clock(k, 2), 8);
      ghost var frames := Address(id, addr);
      frames := SendBytes(p, n, before, [id, addr], k);
      Finish(before, frames);
    }

    /** The loop of i2c_sim_burst_write */
    method SendBytes(p: array<Byte>, n: int, ghost before: seq<Symbol>, ghost head: seq<Byte>, ghost k: nat)
      returns (ghost frames: seq<Frame>)
      requires n <= p.Length
      requires InFrames(before, Answered(head, k)) && clocks == Clock(k, |head|)
      requires forall j :: |head| <= j < |head| + n ==> Released(Clock(k, j), 8)
      modifies this
      ensures var count := if n > 0 then n else 0;
        && clocks == Clock(k, |head| + count)
        && frames == Answered(head + p[..count], k)
      ensures InFrames(before, frames)
    {
      assert head + p[..0] == head;
      var i := 0;
      while i < n
        invariant 0 <= i && (i <= n || i == 0)
        invariant clocks == Clock(k, |head| + i)
        invariant InFrames(before, Answered(head + p[..i], k))
      {
        SendNext(p, i, before, head, k);
        i := i + 1;
      }
      frames := Answered(head + p[..i], k);
    }

    method SendNext(p: array<Byte>, i: nat, ghost before: seq<Symbol>, ghost head: seq<Byte>, ghost k: nat)
      requires i < p.Length && Released(clocks, 8)
      requires InFrames(before, Answered(head + p[..i], k)) && clocks == Clock(k, |head| + i)
      modifies this
      ensures clocks == Clock(k, |head| + i + 1)
      ensures InFrames(before, Answered(head + p[..i + 1], k))
    {
      AnsweredNext(head, p[..], i, k);
      SendFrame(p[i], before, Answered(head + p[..i], k));
    }

    lemma AnsweredNext(head: seq<Byte>, p: seq<Byte>, i: nat, k: nat)
      requires i < |p|
      ensures Answered(head + p[..i + 1], k)
           == Answered(head + p[..i], k) + [Frame(p[i], slave(Clock(k, |head| + i) + 8))]
    {
    }

    /** The frames of a read: what the slave drives, every byte acknowledged but the last */
    ghost function Read(k: nat, count: nat, n: int): seq<Frame> {
      seq(count, j requires 0 <= j < count => Frame(Driven(Clock(k, j)), j == n - 1))
    }

    /** A buffer into which `count` bytes from the slave have been read */
    ghost function Filled(mem: seq<Byte>, k: nat, count: nat): seq<Byte>
      requires count <= |mem|
    {
      seq(count, j requires 0 <= j < count => Driven(Clock(k, j))) + mem[count..]
    }

    /** The slave lets SDA go for the master's answer to each byte. */
    ghost predicate ListensForAcks(k: nat, n: int) {
      forall j :: 0 <= j < n ==> Released(Clock(k, j) + 8, 1)
    }

    /** i2c_sim_burst_read.  The buffer gets exactly what the slave drives.  After the last
        byte, which is not acknowledged, the master's stop makes a stray START. */
    method BurstRead(id: Byte, addr: Byte, p: array<Byte>, n: int)
      requires Idle() && n <= p.Length
      requires ListensFor(clocks, 2) && Released(clocks + 19, 8)
      requires ListensForAcks(clocks + 28, n)
      requires slave(Clock(clocks + 28, if n > 0 then n else 0))
      modifies this, p
      ensures Idle()
      ensures var count, k := if n > 0 then n else 0, old(clocks) + 28;
        && p[..] == Filled(old(p[..]), k, count)
        && Said() == old(Said()) + Transaction(Answered([id, addr], old(clocks)))
             + Transaction(Answered([id[..7] + [true]], old(clocks) + 19) + Read(k, count, n))
        && forall j :: 0 <= j < count ==> Read(k, count, n)[j] == Frame(p[j], j + 1 == n)
    {
      ghost var k := clocks;
      ghost var frames := Address(id, addr);
      Finish(old(Said()), frames);
      assert clocks == k + 19;
      ReadOut(id, p, n);
      FramesRead(k + 28, if n > 0 then n else 0, n, old(p[..]), p[..]);
    }

    lemma FramesRead(k: nat, count: nat, n: int, before: seq<Byte>, after: seq<Byte>)
      requires count <= |before| && after == Filled(before, k, count)
      ensures forall j :: 0 <= j < count ==> Read(k, count, n)[j] == Frame(after[j], j + 1 == n)
    {
      forall j | 0 <= j < count
        ensures Read(k, count, n)[j] == Frame(after[j], j + 1 == n)
      {
        ReadFrames(k, count, n, before, j);
      }
    }

    /** The frames of a read hold what went into the buffer; all are acknowledged but the last. */
    lemma ReadFrames(k: nat, count: nat, n: int, mem: seq<Byte>, j: nat)
      requires j < count <= |mem|
      ensures Read(k, count, n)[j] == Frame(Filled(mem, k, count)[j], j + 1 == n)
      ensures forall i :: 0 <= i < 8 ==> Filled(mem, k, count)[j][i] == slave(k + 9 * j + i)
    {
      var at := Clock(k, j);
      assert Filled(mem, k, count)[j] == Driven(at);
      DrivenAt(at);
    }

    lemma DrivenAt(at: nat)
      ensures forall i :: 0 <= i < 8 ==> Driven(at)[i] == slave(at + i)
    {
    }

    /** id | 1 */
    lemma ReadIdIsOdd(id: Byte)
      ensures Val(id[..7] + [true]) == Val(id) - Val(id) % 2 + 1
    {
      ValSnoc(id[..7], true);
      ValSnoc(id[..7], id[7]);
      assert id[..7] + [id[7]] == id;
    }

    /** The second half of a read: START, the id again, the bytes, STOP */
    method ReadOut(id: Byte, p: array<Byte>, n: int)
      requires Idle() && n <= p.Length
      requires Released(clocks, 8) && ListensForAcks(clocks + 9, n)
      requires slave(Clock(clocks + 9, if n > 0 then n else 0))
      modifies this, p
      ensures Idle()
      ensures var count, k := if n > 0 then n else 0, old(clocks) + 9;
        && p[..] == Filled(old(p[..]), k, count)
        && Said() == old(Said()) + Transaction(Answered([id[..7] + [true]], old(clocks)) + Read(k, count, n))
    {
      ghost var before, k := Said(), clocks + 9;
      ghost var frames := AddressToRead(id);
      frames := ReceiveBytes(p, n, before, frames, k);
      Finish(before, frames);
    }

    /** The second start of a read, with the slave's id and the low bit set */
    method AddressToRead(id: Byte) returns (ghost frames: seq<Frame>)
      requires Idle() && Released(clocks, 8)
      modifies this
      ensures clocks == old(clocks) + 9
      ensures frames == Answered([id[..7] + [true]], old(clocks))
      ensures InFrames(old(Said()), frames)
    {
      ghost var before, k := Said(), clocks;
      var readId: Byte := id[..7] + [true];
      Begin();
      SendFrame(readId, before, []);
      frames := [] + [Frame(readId, slave(k + 8))];
      assert frames == Answered([readId], k);
    }

    /** The loop of i2c_sim_burst_read */
    method ReceiveBytes(p: array<Byte>, n: int, ghost before: seq<Symbol>, ghost front: seq<Frame>, ghost k: nat)
      returns (ghost frames: seq<Frame>)
      requires n <= p.Length
      requires InFrames(before, front) && clocks == k
      requires ListensForAcks(k, n)
      modifies this, p
      ensures var count := if n > 0 then n else 0;
        && clocks == Clock(k, count)
        && frames == front + Read(k, count, n)
        && p[..] == Filled(old(p[..]), k, count)
      ensures InFrames(before, frames)
    {
      assert front + Read(k, 0, n) == front;
      var i := 0;
      while i < n
        invariant 0 <= i && (i <= n || i == 0)
        invariant clocks == Clock(k, i)
        invariant InFrames(before, front + Read(k, i, n))
        invariant p[..] == Filled(old(p[..]), k, i)
      {
        ReceiveNext(p, i, n, before, front, k);
        FilledNext(old(p[..]), k, i);
        i := i + 1;
      }
      frames := front + Read(k, i, n);
    }

    method ReceiveNext(p: array<Byte>, i: nat, n: int, ghost before: seq<Symbol>, ghost front: seq<Frame>, ghost k: nat)
      requires i < n <= p.Length && ListensForAcks(k, n)
      requires InFrames(before, front + Read(k, i, n)) && clocks == Clock(k, i)
      modifies this, p
      ensures clocks == Clock(k, i + 1)
      ensures p[..] == old(p[..])[i := Driven(Clock(k, i))]
      ensures InFrames(before, front + Read(k, i + 1, n))
    {
      assert Released(Clock(k, i) + 8, 1);
      var byte := ReceiveFrame(i == n - 1, before, front + Read(k, i, n));
      ReadNext(front, k, i, n);
      p[i] := byte;
    }

    lemma FilledNext(mem: seq<Byte>, k: nat, i: nat)
      requires i < |mem|
      ensures Filled(mem, k, i + 1) == Filled(mem, k, i)[i := Driven(Clock(k, i))]
    {
    }

    lemma ReadNext(front: seq<Frame>, k: nat, i: nat, n: int)
      ensures front + Read(k, i + 1, n) == (front + Read(k, i, n)) + [Frame(Driven(Clock(k, i)), i == n - 1)]
    {
    }
  }

  /** What is heard of a written transaction: a last byte that is not acknowledged loses its
      answer to a stray START. */
  ghost function Transaction(frames: seq<Frame>): seq<Symbol>
    requires frames != []
  {
    var last := frames[|frames| - 1];
    if last.ack then
      [Start] + Encode(frames[..|frames| - 1]) + BitsOf(last.byte) + [Start, Stop]
    else
      [Start] + Encode(frames) + [Stop]
  }

  lemma StrayInside(frames: seq<Symbol>, bits: seq<Symbol>, s: seq<Symbol>)
    requires s == [Start] + frames + bits + [Start, Stop]
    ensures |s| >= 2 && s[1..|s| - 1] == (frames + bits) + [Start]
  {
  }

  /** A listener makes out the transaction exactly when its last byte is acknowledged. */
  lemma TransactionHeard(frames: seq<Frame>)
    requires frames != []
    ensures Decode(Transaction(frames)) == (if frames[|frames| - 1].ack then None else Some(frames))
  {
    var last := frames[|frames| - 1];
    if last.ack {
      var front := Encode(frames[..|frames| - 1]) + BitsOf(last.byte);
      var s := Transaction(frames);
      StrayInside(Encode(frames[..|frames| - 1]), BitsOf(last.byte), s);
      StrayNotDecoded(front + [Start], |front|);
    } else {
      DecodeTransaction(frames);
    }
  }
}
