/** The class requests of ble_lt_sdk/proj/drivers/usb.c, for builds without audio: HID requests,
    and the report through which a host reads and writes the chip's registers. */
module UsbClass {
  import opened Common

  const GET_REPORT: u8 := 0x01
  const GET_IDLE: u8 := 0x02
  const GET_PROTOCOL: u8 := 0x03
  const SET_REPORT: u8 := 0x09
  const SET_IDLE: u8 := 0x0a
  const SET_PROTOCOL: u8 := 0x0b
  const REPORT_IN: u8 := 0
  const REPORT_OUT: u8 := 1
  const REPORT_FEATURE: u8 := 2
  const REPORT_CUSTOM: u8 := 3
  const CUSTOM_REPORT: u16 := 0x0305
  const CORE_BASE: nat := 0x80_0000

  /** The control endpoint's buffer */
  type Packet8 = p: seq<u8> | |p| == 8 witness [0, 0, 0, 0, 0, 0, 0, 0]

  /** Registers hold what was last written to them. */
  type Registers = map<nat, u8>

  function Cell(m: Registers, a: nat): u8 {
    if a in m then m[a] else 0
  }

  function Cells(m: Registers, a: nat, n: nat): (bytes: seq<u8>)
    ensures |bytes| == n
  {
    seq<u8>(n, i requires 0 <= i < n => Cell(m, a + i))
  }

  function PutCells(m: Registers, a: nat, bytes: seq<u8>): Registers
    decreases |bytes|
  {
    if bytes == [] then m else PutCells(m[a := bytes[0]], a + 1, bytes[1..])
  }

  /** host_cmd, custom_reg_cmd, custom_read_dat; and the two register files */
  datatype Access = Access(hostCmd: Packet8, regCmd: bool, readDat: u32, core: Registers, analog: Registers)

  /** The globals that class requests set */
  datatype Device = Device(access: Access, rate: u8, protocol: u8, keyboardStatus: u8)

  function Pair16(low: u8, high: u8): u16 {
    var l: int, h: int := low, high;
    l + 256 * h
  }

  /** The number that four bytes are, low byte first */
  function Number32(b: seq<u8>): u32
    requires |b| == 4
  {
    var b0: int, b1: int, b2: int, b3: int := b[0], b[1], b[2], b[3];
    b0 + 0x100 * b1 + 0x1_0000 * b2 + 0x100_0000 * b3
  }

  function Bytes32(n: u32): (b: seq<u8>)
    ensures |b| == 4
  {
    [n % 0x100, n / 0x100 % 0x100, n / 0x1_0000 % 0x100, n / 0x100_0000 % 0x100]
  }

  lemma BytesOfNumber(b: seq<u8>)
    requires |b| == 4
    ensures Bytes32(Number32(b)) == b
  {
    var b0: int, b1: int, b2: int, b3: int := b[0], b[1], b[2], b[3];
    var n := Number32(b);
    LowByte(n, b0, b1 + 0x100 * b2 + 0x1_0000 * b3);
    LowByte(b1 + 0x100 * b2 + 0x1_0000 * b3, b1, b2 + 0x100 * b3);
    LowByte(b2 + 0x100 * b3, b2, b3);
    Shifts(n);
  }

  lemma LowByte(n: nat, low: nat, rest: nat)
    requires n == low + 0x100 * rest && low < 0x100
    ensures n % 0x100 == low && n / 0x100 == rest
  {
  }

  lemma Shifts(n: nat)
    ensures n / 0x1_0000 == n / 0x100 / 0x100 && n / 0x100_0000 == n / 0x1_0000 / 0x100
  {
  }

  /** i of four bytes have been shifted into the number from the top. */
  ghost predicate ShiftedIn(n: u32, c: seq<u8>, i: nat)
    requires |c| == 4 && i <= 4
  {
    var c0: int, c1: int, c2: int, c3: int := c[0], c[1], c[2], c[3];
    && (i == 1 ==> n / 0x100_0000 == c0)
    && (i == 2 ==> n / 0x1_0000 == c0 + 0x100 * c1)
    && (i == 3 ==> n / 0x100 == c0 + 0x100 * c1 + 0x1_0000 * c2)
    && (i == 4 ==> n == Number32(c))
  }

  /** (n >> 8) | (b << 24) */
  function ShiftByteIn(n: u32, b: u8): u32 {
    var high: int := b;
    n / 0x100 + high * 0x100_0000
  }

  lemma ShiftsOnce(n: u32, c: seq<u8>, i: nat)
    requires |c| == 4 && i < 4 && ShiftedIn(n, c, i)
    ensures ShiftedIn(ShiftByteIn(n, c[i]), c, i + 1)
  {
  }

  // ---------------------------------------------------------------- the register report

  predicate IsRegCmd(cmd: Packet8) {
    cmd[1] / 16 == 0xc
  }

  predicate OnCore(cmd: Packet8) {
    cmd[1] / 4 % 4 == 0
  }

  function CoreAddress(cmd: Packet8): nat {
    var adr: int := Pair16(cmd[2], cmd[3]);
    adr + CORE_BASE
  }

  /** How many bytes a command writes to the core registers; none for a read */
  function CoreWidth(cmd: Packet8): nat {
    if cmd[1] % 4 == 3 then 4 else cmd[1] % 4
  }

  /** What the eight bytes of a custom report do */
  function Execute(s: Access, cmd: Packet8): Access {
    if !IsRegCmd(cmd) then s.(hostCmd := cmd, regCmd := false)
    else
      var s' := s.(hostCmd := cmd[0 := 0], regCmd := true);
      if OnCore(cmd) then
        if CoreWidth(cmd) == 0 then s'.(readDat := Number32(Cells(s.core, CoreAddress(cmd), 4)))
        else s'.(core := PutCells(s.core, CoreAddress(cmd), cmd[4..4 + CoreWidth(cmd)]))
      else if CoreWidth(cmd) == 0 then s'.(readDat := Cell(s.analog, cmd[2]))
      else s'.(analog := s.analog[cmd[2] as nat := cmd[4]])
  }

  /** What a host gets that asks for the custom report */
  function CustomReply(s: Access, paired: bool): seq<u8> {
    if s.regCmd then Bytes32(s.readDat) + [0x10, 0x20, 0x40, 0x80]
    else [0x04, 0x58, 0x00, if paired then 0xa1 else 0x00, 0x00, 0x00, 0x08, 0x00]
  }

  /** usb_handle_out_class_intf_req: the new globals, and whether it stalls */
  function OutClass(d: Device, custom: bool, bRequest: u8, wValue: u16, data: bool, input: Packet8): (Device, bool) {
    var (high, low) := (wValue / 256, wValue % 256);
    if bRequest == SET_REPORT then
      if high == REPORT_IN || high == REPORT_OUT then (d, false)
      else if high == REPORT_FEATURE then (if data then d.(keyboardStatus := input[0]) else d, false)
      else if high == REPORT_CUSTOM && custom then (if data then d.(access := Execute(d.access, input)) else d, false)
      else (d, true)
    else if bRequest == SET_IDLE then (d.(rate := high), false)
    else if bRequest == SET_PROTOCOL then (d.(protocol := low), false)
    else (d, true)
  }

  /** usb_handle_in_class_intf_req: the bytes sent, and whether it stalls */
  function InClass(d: Device, custom: bool, paired: bool, bRequest: u8, wValue: u16): (seq<u8>, bool) {
    if bRequest == 0 then ([0], false)
    else if bRequest == GET_REPORT then
      (if custom && wValue == CUSTOM_REPORT then CustomReply(d.access, paired) else [], false)
    else if bRequest == GET_IDLE then ([d.rate], false)
    else if bRequest == GET_PROTOCOL then ([d.protocol], false)
    else ([], true)
  }

  // ---------------------------------------------------------------- what was written is read

  lemma {:induction false} CellAfterPut(m: Registers, a: nat, bytes: seq<u8>, x: nat)
    ensures Cell(PutCells(m, a, bytes), x) == if a <= x < a + |bytes| then bytes[x - a] else Cell(m, x)
    decreases |bytes|
  {
    if bytes == [] {
    } else {
      CellAfterPut(m[a := bytes[0]], a + 1, bytes[1..], x);
    }
  }

  /** What a command does, from its bytes.  The second says what it is: 0xc0 reads four core
      registers, 0xc1, 0xc2 and 0xc3 write one, two and four, and from 0xc4 to 0xcf every fourth
      reads an analog register and the others write one.  The third and fourth are the address,
      low byte first, and the fifth and on the data. */
  lemma CommandBytes(s: Access, cmd: Packet8, x: nat)
    ensures var s', c := Execute(s, cmd), cmd[1];
      var a: int := 0x80_0000 + cmd[2] as int + 0x100 * cmd[3] as int;
      var n := if c == 0xc1 then 1 else if c == 0xc2 then 2 else if c == 0xc3 then 4 else 0;
      && (s'.regCmd <==> 0xc0 <= c <= 0xcf)
      && s'.hostCmd == (if 0xc0 <= c <= 0xcf then cmd[0 := 0] else cmd)
      && Cell(s'.core, x) == (if a <= x < a + n then cmd[4 + x - a] else Cell(s.core, x))
      && Cell(s'.analog, x) == (if 0xc4 <= c <= 0xcf && c % 4 != 0 && x == cmd[2] then cmd[4] else Cell(s.analog, x))
      && s'.readDat as int ==
           if c == 0xc0 then Cell(s.core, a) as int + 0x100 * Cell(s.core, a + 1) as int
             + 0x1_0000 * Cell(s.core, a + 2) as int + 0x100_0000 * Cell(s.core, a + 3) as int
           else if 0xc4 <= c <= 0xcf && c % 4 == 0 then Cell(s.analog, cmd[2]) as int
           else s.readDat as int
  {
    var bytes := cmd[4..4 + CoreWidth(cmd)];
    CellAfterPut(s.core, CoreAddress(cmd), bytes, x);
    CommandKinds(cmd);
  }

  lemma CommandKinds(cmd: Packet8)
    ensures IsRegCmd(cmd) <==> 0xc0 <= cmd[1] <= 0xcf
    ensures IsRegCmd(cmd) && OnCore(cmd) <==> 0xc0 <= cmd[1] <= 0xc3
    ensures CoreWidth(cmd) == 0 <==> cmd[1] % 4 == 0
    ensures cmd[1] == 0xc1 ==> CoreWidth(cmd) == 1
    ensures cmd[1] == 0xc2 ==> CoreWidth(cmd) == 2
    ensures cmd[1] == 0xc3 ==> CoreWidth(cmd) == 4
    ensures CoreAddress(cmd) == 0x80_0000 + cmd[2] as int + 0x100 * cmd[3] as int
  {
  }

  predicate IsCoreWrite(cmd: Packet8) {
    IsRegCmd(cmd) && OnCore(cmd) && CoreWidth(cmd) > 0
  }

  predicate IsCoreRead(cmd: Packet8) {
    IsRegCmd(cmd) && OnCore(cmd) && CoreWidth(cmd) == 0
  }

  /** A register byte after a write: the byte written there, if it was in its range */
  function Expected(s: Access, write: Packet8, x: nat): u8 {
    var a, n := CoreAddress(write), CoreWidth(write);
    if a <= x < a + n then write[4 + x - a] else Cell(s.core, x)
  }

  /** The reply to a read that follows a write, at any two addresses: each of the four bytes is
      what was written there, or what was there before. */
  lemma WriteThenRead(s: Access, write: Packet8, read: Packet8, between: Access, paired: bool)
    requires IsCoreWrite(write) && IsCoreRead(read)
    requires between == Execute(s, write)
    ensures CustomReply(Execute(between, read), paired)
         == ExpectedCells(s, write, CoreAddress(read), 4) + [0x10, 0x20, 0x40, 0x80]
  {
    CellsAfterPut(s, write, between.core, CoreAddress(read), 4);
    BytesOfNumber(Cells(between.core, CoreAddress(read), 4));
  }

  function ExpectedCells(s: Access, write: Packet8, a: nat, n: nat): (bytes: seq<u8>)
    ensures |bytes| == n
  {
    seq<u8>(n, i requires 0 <= i < n => Expected(s, write, a + i))
  }

  lemma ExpectedBytes(s: Access, write: Packet8, a: int, n: int, b: int, cells: seq<u8>, rest: seq<u8>)
    requires IsCoreWrite(write) && a == CoreAddress(write) && n == CoreWidth(write)
    requires b >= 0 && cells == ExpectedCells(s, write, b, 4)
    ensures (cells + rest)[4..] == rest
    ensures forall i :: 0 <= i < 4 ==>
      (cells + rest)[i] == if a <= b + i < a + n then write[4 + b + i - a] else Cell(s.core, b + i)
  {
    forall i | 0 <= i < 4
      ensures (cells + rest)[i] == if a <= b + i < a + n then write[4 + b + i - a] else Cell(s.core, b + i)
    {
      assert cells[i] == Expected(s, write, b + i);
    }
  }

  lemma CellsAfterPut(s: Access, write: Packet8, core: Registers, a: nat, n: nat)
    requires core == PutCells(s.core, CoreAddress(write), write[4..4 + CoreWidth(write)])
    ensures Cells(core, a, n) == ExpectedCells(s, write, a, n)
  {
    forall i | 0 <= i < n
      ensures Cells(core, a, n)[i] == ExpectedCells(s, write, a, n)[i]
    {
      var to, x, bytes := CoreAddress(write), a + i, write[4..4 + CoreWidth(write)];
      CellAfterPut(s.core, to, bytes, x);
      if to <= x < to + |bytes| {
        assert bytes[x - to] == write[4 + x - to];
      }
      assert Cells(core, a, n)[i] == Cell(core, x);
      assert ExpectedCells(s, write, a, n)[i] == Expected(s, write, x);
    }
  }

  /** The same of an analog register, whose byte comes back with three zeros */
  lemma AnalogWriteThenRead(s: Access, write: Packet8, read: Packet8, between: Access, paired: bool)
    requires IsRegCmd(write) && !OnCore(write) && CoreWidth(write) > 0
    requires IsRegCmd(read) && !OnCore(read) && CoreWidth(read) == 0
    requires between == Execute(s, write)
    ensures CustomReply(Execute(between, read), paired)
         == [if read[2] == write[2] then write[4] else Cell(s.analog, read[2]), 0, 0, 0, 0x10, 0x20, 0x40, 0x80]
  {
    var b := Cell(between.analog, read[2]);
    BytesOfNumber([b, 0, 0, 0]);
  }
}
