/** Types and sequence facts that the models share */
module Common {

  type u8 = x: int | 0 <= x < 0x100 witness 0
  type u16 = x: int | 0 <= x < 0x1_0000 witness 0
  type u32 = x: int | 0 <= x < 0x1_0000_0000 witness 0

  datatype Option<+T> = None | Some(value: T)

  /** Memory after some values are written at an offset */
  ghost function Over<T>(mem: seq<T>, at: nat, values: seq<T>): (r: seq<T>)
    requires at + |values| <= |mem|
    ensures |r| == |mem|
  {
    mem[..at] + values + mem[at + |values|..]
  }

  lemma AppendAssoc<T>(a: seq<T>, b: seq<T>, c: seq<T>)
    ensures (a + b) + c == a + (b + c)
  {
  }

  lemma TailOfAppend<T>(s: seq<T>, t: seq<T>)
    requires s != []
    ensures (s + t)[0] == s[0] && (s + t)[1..] == s[1..] + t
  {
  }

  lemma SliceSnoc<T>(s: seq<T>, from: nat, to: nat)
    requires from <= to < |s|
    ensures s[from..to + 1] == s[from..to] + [s[to]]
  {
  }

  /** A slice that starts where another does, and what is left of that */
  lemma SliceParts<T>(s: seq<T>, from: nat, mid: nat, to: nat)
    requires from <= mid <= to <= |s|
    ensures s[from..mid] == s[from..to][..mid - from] && s[mid..to] == s[from..to][mid - from..]
  {
  }

  /** Writing on behind what was written */
  lemma OverTwice<T>(mem: seq<T>, at: nat, a: seq<T>, b: seq<T>)
    requires at + |a| + |b| <= |mem|
    ensures Over(Over(mem, at, a), at + |a|, b) == Over(mem, at, a + b)
  {
  }

  lemma OverOne<T>(mem: seq<T>, at: nat, x: T)
    requires at < |mem|
    ensures mem[at := x] == Over(mem, at, [x])
  {
  }
}
