/** The pull-resistor registers: four pins of two bits each in an analog register.
    ble_lt_sdk/proj/mcu_spec/gpio_8266.c and gpio_8267.c. */
module GpioPull {

  datatype Chip = C8266 | C8267

  /** Pin `bit` of port `port`, as the GPIO_PXn constants encode it: port << 8 | 1 << bit */
  datatype Pin = Pin(port: nat, bit: nat)

  predicate IsPin(p: Pin) {
    p.port < 6 && p.bit < 8
  }

  /** gpio & 0xff */
  function Mask(bit: nat): bv8
    requires bit < 8
  {
    [0x01, 0x02, 0x04, 0x08, 0x10, 0x20, 0x40, 0x80][bit]
  }

  // ---------------------------------------------------------------- where a pin's field is

  /** A two-bit field: the register, and how far up in it */
  datatype Place = Place(reg: nat, shift: nat)

  /** The layout of the registers: from 0x0a on, pins in order, with two fields before PA0;
      on the 8267 PE2 and PE3 are kept in 0x08. */
  function Layout(chip: Chip, p: Pin): Place {
    var k := 8 * p.port + p.bit + 2;
    if chip == C8267 && p == Pin(4, 2) then Place(0x08, 4)
    else if chip == C8267 && p == Pin(4, 3) then Place(0x08, 6)
    else Place(0x0a + k / 4, 2 * (k % 4))
  }

  /** No two pins share a field. */
  lemma LayoutInjective(chip: Chip, p: Pin, q: Pin)
    requires IsPin(p) && IsPin(q) && p != q
    ensures Layout(chip, p) != Layout(chip, q)
  {
    SameQuarter(8 * p.port + p.bit + 2, 8 * q.port + q.bit + 2);
  }

  lemma SameQuarter(k: nat, m: nat)
    ensures k / 4 == m / 4 && k % 4 == m % 4 ==> k == m
  {
  }

  /** A field of a register */
  function Field(r: bv8, shift: nat): bv8
    requires shift == 0 || shift == 2 || shift == 4 || shift == 6
  {
    if shift == 0 then r & 3 else if shift == 2 then (r >> 2) & 3 else if shift == 4 then (r >> 4) & 3 else (r >> 6) & 3
  }

  predicate IsShift(s: nat) {
    s == 0 || s == 2 || s == 4 || s == 6
  }

  /** Masking a field out and putting a value in sets that field and no other. */
  lemma FieldSet(r: bv8, v: bv8, shift: nat, other: nat)
    requires v < 4 && IsShift(shift) && IsShift(other)
    ensures Field((r & MaskNot(shift)) | Shifted(v, shift), other) == if other == shift then v else Field(r, other)
  {
  }

  function MaskNot(shift: nat): bv8
    requires IsShift(shift)
  {
    if shift == 0 then 0xfc else if shift == 2 then 0xf3 else if shift == 4 then 0xcf else 0x3f
  }

  function Shifted(v: bv8, shift: nat): bv8
    requires IsShift(shift)
  {
    if shift == 0 then v else if shift == 2 then v << 2 else if shift == 4 then v << 4 else v << 6
  }

  /** A byte whose four fields hold their own numbers, the first lowest */
  lemma FieldsInOrder()
    ensures Field(0xe4, 0) == 0 && Field(0xe4, 2) == 1 && Field(0xe4, 4) == 2 && Field(0xe4, 6) == 3
  {
  }

  /** The places as numbers: PA0 of either chip, PE2 and PE3 of the 8267, and the last pin; and every
      other pin of the 8267 where the 8266 has it */
  lemma PlaceNumbers(p: Pin)
    requires IsPin(p)
    ensures Layout(C8266, Pin(0, 0)) == Layout(C8267, Pin(0, 0)) == Place(0x0a, 4)
    ensures Layout(C8266, Pin(5, 7)) == Layout(C8267, Pin(5, 7)) == Place(0x16, 2)
    ensures Layout(C8267, Pin(4, 2)) == Place(0x08, 4) && Layout(C8267, Pin(4, 3)) == Place(0x08, 6)
    ensures p != Pin(4, 2) && p != Pin(4, 3) ==> Layout(C8267, p) == Layout(C8266, p)
  {
  }

  const UP_DOWN_FLOAT: nat := 0
  const PULLUP_1M: nat := 1
  const PULLUP_10K: nat := 2

  /** The analog registers, and gpio_setup_up_down_resistor for one pin at a time */
  class Pulls {
    const chip: Chip
    const regs: array<bv8>

    constructor (chip: Chip)
      ensures regs.Length == 256 && fresh(regs) && this.chip == chip
    {
      this.chip := chip;
      regs := new bv8[256];
    }

    /** The pull that is set for a pin */
    function Pull(p: Pin): bv8
      requires IsPin(p) && regs.Length == 256
      reads regs
    {
      Field(regs[Layout(chip, p).reg], Layout(chip, p).shift)
    }

    /** gpio_setup_up_down_resistor */
    method Setup(p: Pin, upDown: nat)
      requires IsPin(p) && regs.Length == 256
      modifies regs
      ensures Pull(p) == Value(upDown)
      ensures Pull(p) == if upDown == 0 then 0 else if upDown == 1 then 1 else if upDown == 2 then 2 else 3
      ensures forall q :: IsPin(q) && q != p ==> Pull(q) == old(Pull(q))
      ensures forall reg, shift :: 0 <= reg < 256 && IsShift(shift) && Place(reg, shift) != Layout(chip, p) ==>
        Field(regs[reg], shift) == old(Field(regs[reg], shift))
    {
      var rVal: bv8 := Value(upDown);
      var baseAnaReg, maskNot, shiftNum := Ladder(p);
      ghost var r := regs[baseAnaReg];
      regs[baseAnaReg] := (regs[baseAnaReg] & maskNot) | Shifted(rVal, shiftNum);
      forall shift | IsShift(shift)
        ensures Field(regs[baseAnaReg], shift) == if shift == shiftNum then rVal else Field(r, shift)
      {
        FieldSet(r, rVal, shiftNum, shift);
      }
      forall q | IsPin(q) && q != p
        ensures Pull(q) == old(Pull(q))
      {
        LayoutInjective(chip, p, q);
      }
    }

    /** The branches of gpio_setup_up_down_resistor */
    method Ladder(p: Pin) returns (baseAnaReg: nat, maskNot: bv8, shiftNum: nat)
      requires IsPin(p)
      ensures Place(baseAnaReg, shiftNum) == Layout(chip, p)
      ensures IsShift(shiftNum) && maskNot == MaskNot(shiftNum) && baseAnaReg < 256
    {
      var pin := Mask(p.bit);
      baseAnaReg, maskNot, shiftNum := 0x0b + 2 * p.port, 0xfc, 0;
      if chip == C8267 && p == Pin(4, 2) {
        baseAnaReg, maskNot, shiftNum := 0x08, 0xcf, 4;
      } else if chip == C8267 && p == Pin(4, 3) {
        baseAnaReg, maskNot, shiftNum := 0x08, 0x3f, 6;
      } else {
        if pin & 0x03 != 0 {
          baseAnaReg := baseAnaReg - 1;
        } else if pin & 0xc0 != 0 {
          baseAnaReg := baseAnaReg + 1;
        }
        if pin & 0x88 != 0 {
          maskNot, shiftNum := 0xf3, 2;
        } else if pin & 0x11 != 0 {
          maskNot, shiftNum := 0xcf, 4;
        } else if pin & 0x22 != 0 {
          maskNot, shiftNum := 0x3f, 6;
        }
        LadderPlaces(p, pin);
      }
    }
  }

  /** r_val */
  function Value(upDown: nat): (v: bv8)
    ensures v < 4
  {
    if upDown == UP_DOWN_FLOAT then 0
    else if upDown == PULLUP_1M then 1
    else if upDown == PULLUP_10K then 2
    else 3
  }

  /** The branch ladder takes a pin to its place in the layout. */
  lemma LadderPlaces(p: Pin, pin: bv8)
    requires IsPin(p) && pin == Mask(p.bit)
    ensures Layout(C8266, p)
         == Place(0x0b + 2 * p.port + (if pin & 0x03 != 0 then -1 else if pin & 0xc0 != 0 then 1 else 0),
                  if pin & 0x88 != 0 then 2 else if pin & 0x11 != 0 then 4 else if pin & 0x22 != 0 then 6 else 0)
  {
    if p.bit == 0 {
    } else if p.bit == 1 {
    } else if p.bit == 2 {
    } else if p.bit == 3 {
    } else if p.bit == 4 {
    } else if p.bit == 5 {
    } else if p.bit == 6 {
    } else {
      assert p.bit == 7;
    }
  }

  // ---------------------------------------------------------------- any sequence of calls

  datatype Call = Call(pin: Pin, upDown: nat)

  /** The last value set for a pin, or what was there */
  function LastSet(calls: seq<Call>, p: Pin, before: bv8): bv8 {
    if calls == [] then before
    else if calls[|calls| - 1].pin == p then Value(calls[|calls| - 1].upDown)
    else LastSet(calls[..|calls| - 1], p, before)
  }

  /** The last call for a pin decides, with the number of the pull it asks for. */
  lemma LastCallDecides(calls: seq<Call>, i: nat, before: bv8)
    requires i < |calls| && forall j :: i < j < |calls| ==> calls[j].pin != calls[i].pin
    ensures var u := calls[i].upDown;
      LastSet(calls, calls[i].pin, before) == if u == 0 then 0 else if u == 1 then 1 else if u == 2 then 2 else 3
    decreases |calls|
  {
    if i < |calls| - 1 {
      LastCallDecides(calls[..|calls| - 1], i, before);
    }
  }

  lemma {:induction false} NoCallKeeps(calls: seq<Call>, p: Pin, before: bv8)
    requires forall c :: c in calls ==> c.pin != p
    ensures LastSet(calls, p, before) == before
    decreases |calls|
  {
    if calls == [] {
    } else {
      assert calls[|calls| - 1] in calls;
      NoCallKeeps(calls[..|calls| - 1], p, before);
    }
  }

  /** After any calls each pin has the last pull set for it. */
  method SetupAll(pulls: Pulls, calls: seq<Call>)
    requires pulls.regs.Length == 256
    requires forall c :: c in calls ==> IsPin(c.pin)
    modifies pulls.regs
    ensures forall p :: IsPin(p) ==> pulls.Pull(p) == LastSet(calls, p, old(pulls.Pull(p)))
    decreases |calls|
  {
    if calls != [] {
      var init, last := calls[..|calls| - 1], calls[|calls| - 1];
      SetupAll(pulls, init);
      pulls.Setup(last.pin, last.upDown);
    }
  }
}
