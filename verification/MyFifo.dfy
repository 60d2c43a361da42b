/** The ring buffer of ble_lt_sdk/proj/common/utility.c: its counters are bytes that wrap, its
    slots are chosen by masking them. */
module MyFifo {
  import opened Common
  import opened Words

  // ---------------------------------------------------------------- choosing a slot

  /** The slot that a counter stands for */
  function Slot(counter: nat, num: nat): nat
    requires num > 0
  {
    And(counter, num - 1)
  }

  lemma {:induction false} AndMask(a: nat, k: nat, q: nat, r: nat)
    requires a == q * Pow2(k) + r && r < Pow2(k)
    ensures And(a, Pow2(k) - 1) == r
  {
    if k == 0 {
      assert r == 0;
    } else {
      var p := Pow2(k - 1);
      assert q * Pow2(k) == 2 * (q * p);
      assert a / 2 == q * p + r / 2 && a % 2 == r % 2;
      AndMask(a / 2, k - 1, q, r / 2);
      assert (Pow2(k) - 1) / 2 == p - 1 && (Pow2(k) - 1) % 2 == 1;
      assert a == 0 ==> r == 0;
    }
  }

  /** A number whose low bits are not all ones leaves a gap that some power of two falls into. */
  lemma {:induction false} MaskGap(m: nat) returns (p: nat)
    requires forall k :: m != Pow2(k) - 1
    ensures Pow2(p) <= m && And(Pow2(p), m) == 0
  {
    if m % 2 == 0 {
      p := 0;
      assert Pow2(0) == 1;
      assert And(0, m / 2) == 0;
    } else {
      var half := m / 2;
      forall k: nat
        ensures half != Pow2(k) - 1
      {
        assert m != Pow2(k + 1) - 1;
      }
      p := MaskGap(half);
      p := p + 1;
      assert Pow2(p) / 2 == Pow2(p - 1) && Pow2(p) % 2 == 0;
    }
  }

  /** Counters fewer than num apart have slots of their own. */
  ghost predicate SlotsApart(num: nat)
    requires num > 0
  {
    forall c: nat, d: nat :: c < d < c + num ==> Slot(c, num) != Slot(d, num)
  }

  ghost predicate IsPow2(num: nat) {
    exists k: nat :: num == Pow2(k)
  }

  /** Slots never alias exactly when their number is a power of two. */
  lemma SlotsApartIff(num: nat)
    requires num > 0
    ensures SlotsApart(num) <==> IsPow2(num)
  {
    if IsPow2(num) {
      var k: nat :| num == Pow2(k);
      forall c: nat, d: nat | c < d < c + num
        ensures Slot(c, num) != Slot(d, num)
      {
        NearSlotsDiffer(c, d, k);
      }
    } else {
      forall k: nat
        ensures num - 1 != Pow2(k) - 1
      {
        assert num != Pow2(k);
      }
      var p := MaskGap(num - 1);
      Pow2Positive(p);
      assert Slot(0, num) == 0 && Slot(Pow2(p), num) == 0;
    }
  }

  lemma {:induction false} Pow2Positive(k: nat)
    ensures Pow2(k) > 0
  {
    if k == 0 {
    } else {
      Pow2Positive(k - 1);
    }
  }

  /** Quotient and remainder */
  lemma {:induction false} Split(c: nat, n: nat) returns (q: nat, r: nat)
    requires n > 0
    ensures c == q * n + r && r < n
    decreases c
  {
    if c < n {
      q, r := 0, c;
    } else {
      q, r := Split(c - n, n);
      q := q + 1;
    }
  }

  lemma NearSlotsDiffer(c: nat, d: nat, k: nat)
    requires c < d < c + Pow2(k)
    ensures Slot(c, Pow2(k)) != Slot(d, Pow2(k))
  {
    var n := Pow2(k);
    var q, r := Split(c, n);
    var q', r' := Split(d, n);
    AndMask(c, k, q, r);
    AndMask(d, k, q', r');
    NearRemaindersDiffer(c, d, n, q, r, q', r');
  }

  lemma NearRemaindersDiffer(c: nat, d: nat, n: nat, q: nat, r: nat, q': nat, r': nat)
    requires c == q * n + r && d == q' * n + r'
    requires c < d < c + n
    ensures r != r'
  {
    var m := q' - q;
    assert m * n == q' * n - q * n;
    MultipleFar(m, n);
  }

  lemma MultipleFar(q: int, n: nat)
    ensures q * n <= 0 || q * n >= n
  {
    if q > 0 {
      assert (q - 1) * n >= 0;
    } else {
      assert q * n <= 0;
    }
  }

  lemma {:induction false} Pow2Splits(k: nat, n: nat)
    requires k <= n
    ensures Pow2(n) == Pow2(n - k) * Pow2(k)
  {
    if k == 0 {
    } else {
      Pow2Splits(k - 1, n - 1);
    }
  }

  /** The byte counter stands for the same slot as the count of all that ever passed. */
  lemma WrappedSlot(c: nat, k: nat)
    requires k <= 8
    ensures Pow2(k) > 0
    ensures Slot(c % 256, Pow2(k)) == Slot(c, Pow2(k)) < Pow2(k)
  {
    Pow2Positive(k);
    var n := Pow2(k);
    var q, r := Split(c % 256, n);
    AndMask(c % 256, k, q, r);
    AndMask(c, k, WrapQuotient(c, k, n, q, r), r);
  }

  lemma Regroup(c: nat, w: nat, m: nat, n: nat, q: nat, r: nat)
    requires 256 == m * n && w == c % 256 && w == q * n + r
    ensures c == (c / 256 * m + q) * n + r
  {
    var h := c / 256;
    assert c == h * (m * n) + (q * n + r);
    assert h * (m * n) == h * m * n;
    assert (h * m + q) * n == h * m * n + q * n;
  }

  function WrapQuotient(c: nat, k: nat, n: nat, q: nat, r: nat): (h: nat)
    requires k <= 8 && n == Pow2(k) && c % 256 == q * n + r
    ensures c == h * n + r
  {
    Pow2Splits(k, 8);
    assert Pow2(8) == 256;
    Regroup(c, c % 256, Pow2(8 - k), n, q, r);
    c / 256 * Pow2(8 - k) + q
  }

  /** Byte counters tell how many entries there are, up to 255. */
  lemma CountersApart(pushed: nat, popped: nat, n: nat)
    requires pushed == popped + n && n < 256
    ensures (pushed % 256 - popped % 256) % 256 == n
    ensures pushed % 256 == popped % 256 <==> n == 0
  {
  }

  // ---------------------------------------------------------------- slots in memory

  /** A slot ends where a later one begins, or before. */
  lemma SlotsInOrder(s: nat, t: nat, size: nat)
    requires s < t
    ensures s * size + size <= t * size
  {
    var gap := t - s - 1;
    assert gap * size >= 0;
    assert t * size == (s + 1 + gap) * size == s * size + size + gap * size;
  }

  /** The bytes of a slot */
  ghost function Image(mem: seq<u8>, s: nat, size: nat): seq<u8> {
    if s * size + size <= |mem| then mem[s * size..][..size] else []
  }

  /** Nothing differs but the bytes of the slot that begins here. */
  ghost predicate SlotOnly(mem: seq<u8>, mem': seq<u8>, at: nat, size: nat)
    requires |mem| == |mem'|
  {
    forall j :: 0 <= j < |mem| && (j < at || j >= at + size) ==> mem'[j] == mem[j]
  }

  lemma ElsewhereKept(mem: seq<u8>, mem': seq<u8>, s: nat, t: nat, num: nat, size: nat)
    requires s < num && t < num && s != t && num * size <= |mem| == |mem'|
    requires SlotOnly(mem, mem', s * size, size)
    ensures Image(mem', t, size) == Image(mem, t, size)
  {
    SlotsInOrder(t, num, size);
    if s < t {
      SlotsInOrder(s, t, size);
    } else {
      SlotsInOrder(t, s, size);
    }
    ImageKept(mem, mem', t * size, t, size);
  }

  lemma ImageKept(mem: seq<u8>, mem': seq<u8>, at: nat, t: nat, size: nat)
    requires at == t * size && at + size <= |mem| == |mem'|
    requires forall j :: at <= j < at + size ==> mem'[j] == mem[j]
    ensures Image(mem', t, size) == Image(mem, t, size)
  {
    assert mem'[at..][..size] == mem[at..][..size];
  }

  /** What push writes: the length, low byte first, and the payload */
  function Framed(n: nat, payload: seq<u8>): seq<u8>
    requires n <= |payload|
  {
    [n % 256, n / 256 % 256] + payload[..n]
  }

  /** A slot whose first byte is written over */
  function Hit(slot: seq<u8>, b: u8): (r: seq<u8>)
    ensures |r| == |slot|
  {
    if slot == [] then [] else slot[0 := b]
  }

  function HitFirst(slots: seq<seq<u8>>, b: u8): seq<seq<u8>> {
    if slots == [] then [] else slots[0 := Hit(slots[0], b)]
  }

  /** Whatever is pushed with a payload of n bytes, and whatever was in memory, nothing before
      the slot or behind it changes: no other slot, and nothing behind the buffer. */
  ghost predicate StaysInSlot(at: nat, size: nat, n: nat) {
    forall mem: seq<u8>, payload: seq<u8> ::
      |payload| == n && at + n + 2 <= |mem| ==> SlotOnly(mem, Over(mem, at, Framed(n, payload)), at, size)
  }

  /** push refuses a payload of `size` bytes, but one of size - 1 already spills over: a push
      stays in its slot, be it the last one or not, exactly when n + 2 bytes fit. */
  lemma SpillIff(at: nat, size: nat, n: nat)
    requires n < size
    ensures StaysInSlot(at, size, n) <==> n + 2 <= size
  {
    if n + 2 <= size {
      forall mem: seq<u8>, payload: seq<u8> | |payload| == n && at + n + 2 <= |mem|
        ensures SlotOnly(mem, Over(mem, at, Framed(n, payload)), at, size)
      {
        OverOnly(mem, at, Framed(n, payload), size);
      }
    } else {
      var payload: seq<u8> := seq(n, _ => 0);
      var mem: seq<u8> := seq(at + n + 2, _ => 1);
      LastOfFrame(n, payload);
      OverBeyond(mem, at, Framed(n, payload), size);
    }
  }

  lemma LastOfFrame(n: nat, payload: seq<u8>)
    requires n == |payload| && forall i :: 0 <= i < n ==> payload[i] == 0
    ensures Framed(n, payload)[n + 1] == 0
  {
  }

  lemma OverOnly(mem: seq<u8>, at: nat, bytes: seq<u8>, size: nat)
    requires |bytes| <= size && at + |bytes| <= |mem|
    ensures SlotOnly(mem, Over(mem, at, bytes), at, size)
  {
  }

  lemma OverBeyond(mem: seq<u8>, at: nat, bytes: seq<u8>, size: nat)
    requires size < |bytes| && at + |bytes| <= |mem| && mem[at + size] != bytes[size]
    ensures !SlotOnly(mem, Over(mem, at, bytes), at, size)
  {
    assert Over(mem, at, bytes)[at + size] == bytes[size];
  }

  // ---------------------------------------------------------------- the slot after a slot

  lemma SlotAfter(c: nat, k: nat)
    requires Pow2(k) > 0 && Slot(c, Pow2(k)) + 1 < Pow2(k)
    ensures Slot(c + 1, Pow2(k)) == Slot(c, Pow2(k)) + 1
  {
    var q, r := Split(c, Pow2(k));
    AndMask(c, k, q, r);
    AndMask(c + 1, k, q, r + 1);
  }

  lemma SlotRoundTheRing(c: nat, k: nat)
    requires Pow2(k) > 0
    ensures Slot(c + Pow2(k), Pow2(k)) == Slot(c, Pow2(k))
  {
    var n := Pow2(k);
    var q, r := Split(c, n);
    assert (q + 1) * n == q * n + n;
    AndMask(c, k, q, r);
    AndMask(c + n, k, q + 1, r);
  }

  /** A reader gets the length back from the frame exactly when two bytes hold it. */
  lemma LengthReadsBack(n: nat, payload: seq<u8>)
    requires n <= |payload|
    ensures var f := Framed(n, payload);
      (f[0] as int + 0x100 * f[1] as int == n <==> n < 0x1_0000) && f[2..] == payload[..n]
  {
  }

  // ---------------------------------------------------------------- the queue it stands for

  datatype Op = PushOp(payload: seq<u8>, n: int) | FillOp(bytes: seq<u8>) | TakeOp

  /** How many entries have gone; what was put into those that are there, into those that were
      taken out, and into all that were ever added */
  datatype Queue = Queue(gone: nat, entries: seq<seq<u8>>, taken: seq<seq<u8>>, added: seq<seq<u8>>)

  function Added(q: Queue, entry: seq<u8>): Queue {
    q.(entries := q.entries + [entry], added := q.added + [entry])
  }

  /** This push writes one byte too many, and that byte falls on the oldest entry: the ring has one
      free slot left, and it is not the last one in memory. */
  predicate Strikes(n: int, gone: nat, count: nat, num: nat, size: nat)
    requires num > 0
  {
    n + 1 == size && count + 1 == num && Slot(gone + count, num) + 1 < num
  }

  predicate Admissible(op: Op, size: nat) {
    match op
    case PushOp(payload, n) => n <= |payload|
    case FillOp(bytes) => |bytes| <= size
    case TakeOp => true
  }

  function Does(q: Queue, op: Op, num: nat, size: nat): Queue
    requires num > 0 && Admissible(op, size)
  {
    match op
    case PushOp(payload, n) =>
      if |q.entries| >= num || n < 0 || n >= size then q else
      var bytes := Framed(n, payload);
      var kept := if Strikes(n, q.gone, |q.entries|, num, size) then HitFirst(q.entries, bytes[n + 1]) else q.entries;
      Added(q.(entries := kept), bytes[..if n + 2 <= size then n + 2 else size])
    case FillOp(bytes) => if |q.entries| >= num then q else Added(q, bytes)
    case TakeOp =>
      if q.entries == [] then q
      else q.(gone := q.gone + 1, entries := q.entries[1..], taken := q.taken + [q.entries[0]])
  }

  /** What each operation adds and takes: a push if there is room and its payload is shorter than a
      slot, a fill if there is room, a take if there is anything, the oldest first. */
  lemma OperationsDo(q: Queue, op: Op, num: nat, size: nat)
    requires num > 0 && Admissible(op, size)
    ensures var q' := Does(q, op, num, size);
      match op
      case PushOp(payload, n) =>
        var accepted := |q.entries| < num && 0 <= n < size;
        && q'.taken == q.taken && |q'.entries| == |q.entries| + (if accepted then 1 else 0)
        && q'.added == q.added + if accepted then [Framed(n, payload)[..if n + 2 < size then n + 2 else size]] else []
      case FillOp(bytes) =>
        var accepted := |q.entries| < num;
        && q'.taken == q.taken
        && q'.entries == q.entries + (if accepted then [bytes] else [])
        && q'.added == q.added + if accepted then [bytes] else []
      case TakeOp =>
        && q'.added == q.added
        && q'.taken + q'.entries == q.taken + q.entries
        && |q'.taken| == |q.taken| + if q.entries == [] then 0 else 1
  {
    if op.TakeOp? && q.entries != [] {
      assert q.entries == [q.entries[0]] + q.entries[1..];
      AppendAssoc(q.taken, [q.entries[0]], q.entries[1..]);
    }
  }

  function DoesAll(q: Queue, ops: seq<Op>, num: nat, size: nat): Queue
    requires num > 0 && forall op :: op in ops ==> Admissible(op, size)
    decreases |ops|
  {
    if ops == [] then q else DoesAll(Does(q, ops[0], num, size), ops[1..], num, size)
  }

  /** One payload byte too many for its slot */
  predicate Oversize(op: Op, size: nat) {
    op.PushOp? && op.n + 1 == size
  }

  /** A bounded queue: never more than num entries, all that were added taken or still there in
      order; and, if no payload is oversize, with what was put into them. */
  lemma {:induction false} QueueConserves(q: Queue, ops: seq<Op>, num: nat, size: nat)
    requires num > 0 && forall op :: op in ops ==> Admissible(op, size)
    requires |q.entries| <= num && |q.taken| + |q.entries| == |q.added|
    ensures var q' := DoesAll(q, ops, num, size);
      && |q'.entries| <= num && |q'.taken| + |q'.entries| == |q'.added|
      && (q.taken + q.entries == q.added && (forall op :: op in ops ==> !Oversize(op, size))
          ==> q'.taken + q'.entries == q'.added)
    decreases |ops|
  {
    if ops == [] {
    } else {
      OneConserves(q, ops[0], num, size);
      QueueConserves(Does(q, ops[0], num, size), ops[1..], num, size);
    }
  }

  lemma OneConserves(q: Queue, op: Op, num: nat, size: nat)
    requires num > 0 && Admissible(op, size)
    requires |q.entries| <= num && |q.taken| + |q.entries| == |q.added|
    ensures var q' := Does(q, op, num, size);
      && |q'.entries| <= num && |q'.taken| + |q'.entries| == |q'.added|
      && (q.taken + q.entries == q.added && !Oversize(op, size) ==> q'.taken + q'.entries == q'.added)
  {
    var q' := Does(q, op, num, size);
    if op.TakeOp? && q.entries != [] {
      assert q.entries == [q.entries[0]] + q'.entries;
      AppendAssoc(q.taken, [q.entries[0]], q'.entries);
    } else if q' != q && !Oversize(op, size) {
      var entry := q'.added[|q.added|];
      AppendAssoc(q.taken, q.entries, [entry]);
    }
  }

  // ---------------------------------------------------------------- the ring

  /** my_fifo_t.  Pointers into the buffer are offsets. */
  class Fifo {
    const size: nat
    const num: nat
    const p: array<u8>
    var wptr: u8
    var rptr: u8
    ghost const k: nat
    ghost var pushed: nat                 // of all that ever came
    ghost var popped: nat                 // and went
    ghost var contents: seq<seq<u8>>      // the slots in between, oldest first

    ghost predicate Valid()
      reads this, p
    {
      && Ring()
      && pushed == popped + |contents|
      && |contents| <= num
      && wptr == pushed % 256 && rptr == popped % 256
      && Holds(p[..], contents, popped)
    }

    /** The slots of memory from the c-th entry on hold these. */
    ghost predicate Holds(mem: seq<u8>, slots: seq<seq<u8>>, c: nat)
      requires num > 0
    {
      forall i :: 0 <= i < |slots| ==> |slots[i]| == size && Image(mem, Slot(c + i, num), size) == slots[i]
    }

    /** As many slots as a power of two, up to 128, in a buffer with room for them */
    ghost predicate Ring() {
      k <= 7 && num == Pow2(k) > 0 && num * size <= p.Length
    }

    /** my_fifo_init */
    constructor (s: nat, n: nat, buf: array<u8>, ghost k: nat)
      requires k <= 7 && n == Pow2(k) && n * s <= buf.Length
      ensures Valid() && contents == [] && size == s && num == n && p == buf
    {
      size, num, p, wptr, rptr := s, n, buf, 0, 0;
      this.k, pushed, popped, contents := k, 0, 0, [];
      Pow2Positive(k);
    }

    lemma SlotInside(c: nat)
      requires Ring()
      ensures Slot(c % 256, num) == Slot(c, num) < num
      ensures Slot(c, num) * size + size <= p.Length
    {
      WrappedSlot(c, k);
      SlotsInOrder(Slot(c, num), num, size);
    }

    /** The slot to be filled next is none of those in use. */
    lemma FreeSlot(c: nat, next: nat)
      requires Ring() && c < next < c + num
      ensures Slot(c, num) != Slot(next, num)
    {
      NearSlotsDiffer(c, next, k);
    }

    lemma CountInUse()
      requires Valid()
      ensures (wptr - rptr) % 256 == |contents|
      ensures wptr == rptr <==> contents == []
    {
      Pow2Small(k);
      CountersApart(pushed, popped, |contents|);
    }

    /** my_fifo_wptr */
    method Wptr() returns (at: Option<nat>)
      requires Valid()
      ensures at.Some? <==> |contents| < num
      ensures at.Some? ==> at.value == Slot(pushed, num) * size && at.value + size <= p.Length
    {
      CountInUse();
      SlotInside(pushed);
      if (wptr - rptr) % 256 < num {
        return Some(Slot(wptr, num) * size);
      }
      return None;
    }

    /** What the caller does with the pointer it got from my_fifo_wptr */
    method FillSlot(at: nat, bytes: seq<u8>)
      requires Valid() && |contents| < num && at == Slot(pushed, num) * size && |bytes| <= size
      requires at + |bytes| <= p.Length
      modifies p
      ensures Valid() && p[..] == Over(old(p[..]), at, bytes)
    {
      Fill(at, bytes);
      OverOnly(old(p[..]), at, bytes, size);
      LiveKept(old(p[..]), p[..]);
    }

    method Fill(at: nat, bytes: seq<u8>)
      requires at + |bytes| <= p.Length
      modifies p
      ensures p[..] == Over(old(p[..]), at, bytes)
    {
      var i := 0;
      while i < |bytes|
        invariant 0 <= i <= |bytes|
        invariant p[..] == Over(old(p[..]), at, bytes[..i])
      {
        OverNext(old(p[..]), at, bytes, i);
        p[at + i] := bytes[i];
        i := i + 1;
      }
      assert bytes[..i] == bytes;
    }

    lemma OverNext(mem: seq<u8>, at: nat, bytes: seq<u8>, i: nat)
      requires i < |bytes| && at + |bytes| <= |mem|
      ensures Over(mem, at, bytes[..i + 1]) == Over(mem, at, bytes[..i])[at + i := bytes[i]]
    {
    }

    /** Changes inside the free slot leave the slots in use alone. */
    lemma LiveKept(before: seq<u8>, after: seq<u8>)
      requires Ring() && pushed == popped + |contents| && |contents| < num
      requires |before| == |after| == p.Length
      requires SlotOnly(before, after, Slot(pushed, num) * size, size)
      requires Holds(before, contents, popped)
      ensures Holds(after, contents, popped)
    {
      forall i | 0 <= i < |contents|
        ensures |contents[i]| == size && Image(after, Slot(popped + i, num), size) == contents[i]
      {
        assert |contents[i]| == size && Image(before, Slot(popped + i, num), size) == contents[i];
        EntryKept(before, after, popped + i);
      }
    }

    lemma EntryKept(before: seq<u8>, after: seq<u8>, c: nat)
      requires Ring() && c < pushed < c + num
      requires |before| == |after| == p.Length
      requires SlotOnly(before, after, Slot(pushed, num) * size, size)
      ensures Image(after, Slot(c, num), size) == Image(before, Slot(c, num), size)
    {
      SlotInside(pushed);
      SlotInside(c);
      FreeSlot(c, pushed);
      ElsewhereKept(before, after, Slot(pushed, num), Slot(c, num), num, size);
    }

    /** my_fifo_next, after a my_fifo_wptr that was not null */
    method Next()
      requires Valid() && |contents| < num
      modifies this
      ensures Valid() && popped == old(popped)
      ensures contents == old(contents) + [Image(p[..], Slot(old(pushed), num), size)]
    {
      WrapNext(pushed);
      ghost var filled := Image(p[..], Slot(pushed, num), size);
      ImageSize(p[..], pushed);
      HoldsOneMore(p[..], contents, filled, popped);
      contents := contents + [filled];
      pushed := pushed + 1;
      wptr := (wptr + 1) % 256;
    }

    lemma ImageSize(mem: seq<u8>, c: nat)
      requires Ring() && |mem| == p.Length
      ensures |Image(mem, Slot(c, num), size)| == size
    {
      SlotInside(c);
    }

    lemma WrapNext(c: nat)
      ensures (c + 1) % 256 == (c % 256 + 1) % 256
    {
    }

    lemma HoldsOneMore(mem: seq<u8>, slots: seq<seq<u8>>, slot: seq<u8>, c: nat)
      requires num > 0 && Holds(mem, slots, c)
      requires |slot| == size && slot == Image(mem, Slot(c + |slots|, num), size)
      ensures Holds(mem, slots + [slot], c)
    {
    }

    lemma HoldsOneLess(mem: seq<u8>, slots: seq<seq<u8>>, c: nat)
      requires num > 0 && slots != [] && Holds(mem, slots, c)
      ensures Holds(mem, slots[1..], c + 1)
    {
      forall i | 0 <= i < |slots| - 1
        ensures |slots[1..][i]| == size && Image(mem, Slot(c + 1 + i, num), size) == slots[1..][i]
      {
        assert Image(mem, Slot(c + (i + 1), num), size) == slots[i + 1];
      }
    }

    /** The other way to add an entry: my_fifo_wptr, bytes written through the pointer, my_fifo_next */
    method FillNext(bytes: seq<u8>) returns (ok: bool)
      requires Valid() && |bytes| <= size
      modifies this, p
      ensures Valid() && popped == old(popped) && ok == (old(|contents|) < num)
      ensures !ok ==> contents == old(contents) && p[..] == old(p[..])
      ensures ok ==>
        && |contents| == old(|contents|) + 1
        && contents[..old(|contents|)] == old(contents)
        && bytes <= contents[old(|contents|)]
    {
      var at := Wptr();
      match at {
        case None => return false;
        case Some(at) =>
          ImageBegins(p[..], Slot(pushed, num), at, bytes);
          FillSlot(at, bytes);
          Next();
          return true;
      }
    }

    ghost predicate Damages(n: int)
      requires num > 0
      reads this
    {
      Strikes(n, popped, |contents|, num, size)
    }

    /** The entries there were, after a push of n bytes that ends with this one */
    ghost function After(n: int, last: u8): seq<seq<u8>>
      requires num > 0
      reads this
    {
      if Damages(n) then HitFirst(contents, last) else contents
    }

    /** my_fifo_push.  A negative length is a huge one to the comparison with an unsigned size.
        It demands that the memory it writes is there: n + 2 bytes, which the slot of a payload
        of size - 1 bytes has not. */
    method Push(payload: seq<u8>, n: int) returns (status: int)
      requires Valid() && n <= |payload|
      requires |contents| < num && 0 <= n < size ==> Slot(pushed, num) * size + n + 2 <= p.Length
      modifies this, p
      ensures Valid() && popped == old(popped)
      ensures status == (if old(|contents|) < num && 0 <= n < size then 0 else -1)
      ensures status == -1 ==> contents == old(contents) && p[..] == old(p[..])
      ensures status == 0 ==>
        && |contents| == old(|contents|) + 1
        && contents[..old(|contents|)] == old(After(n, Framed(n, payload)[n + 1]))
        && Framed(n, payload)[..if n + 2 <= size then n + 2 else size] <= contents[old(|contents|)]
    {
      CountInUse();
      if (wptr - rptr) % 256 >= num {
        return -1;
      }
      if n < 0 || n >= size {
        return -1;
      }
      SlotInside(pushed);
      Enter(Slot(wptr, num) * size, Framed(n, payload));
      return 0;
    }

    /** The writing part of push: the frame, and the counter */
    method Enter(at: nat, bytes: seq<u8>)
      requires Valid() && |contents| < num && at == Slot(pushed, num) * size
      requires 2 <= |bytes| <= size + 1 && at + |bytes| <= p.Length
      modifies this, p
      ensures Valid() && popped == old(popped) && |contents| == old(|contents|) + 1
      ensures contents[..old(|contents|)] == old(After(|bytes| - 2, bytes[|bytes| - 1]))
      ensures bytes[..if |bytes| <= size then |bytes| else size] <= contents[old(|contents|)]
    {
      Place(at, bytes);
      Next();
    }

    /** What push writes, and what it does to the ring */
    method Place(at: nat, bytes: seq<u8>)
      requires Valid() && |contents| < num && at == Slot(pushed, num) * size
      requires 2 <= |bytes| <= size + 1 && at + |bytes| <= p.Length
      modifies this`contents, p
      ensures Valid() && contents == old(After(|bytes| - 2, bytes[|bytes| - 1]))
      ensures bytes[..if |bytes| <= size then |bytes| else size] <= Image(p[..], Slot(pushed, num), size)
    {
      ghost var before := p[..];
      SlotInside(pushed);
      Fill(at, bytes);
      ImageBegins(before, Slot(pushed, num), at, bytes);
      if |bytes| <= size {
        OverOnly(before, at, bytes, size);
        LiveKept(before, p[..]);
      } else {
        SpillKept(before, p[..], at, bytes);
        contents := After(|bytes| - 2, bytes[|bytes| - 1]);
      }
    }

    lemma ImageBegins(mem: seq<u8>, s: nat, at: nat, bytes: seq<u8>)
      requires at == s * size && at + size <= |mem| && at + |bytes| <= |mem|
      ensures bytes[..if |bytes| <= size then |bytes| else size] <= Image(Over(mem, at, bytes), s, size)
    {
    }

    /** What one byte too many does to the slots in use */
    lemma SpillKept(before: seq<u8>, after: seq<u8>, at: nat, bytes: seq<u8>)
      requires Ring() && pushed == popped + |contents| && |contents| < num
      requires |bytes| == size + 1 && |before| == p.Length && 0 < size
      requires at == Slot(pushed, num) * size && at + size + 1 <= |before| && after == Over(before, at, bytes)
      requires Holds(before, contents, popped)
      ensures Holds(after, After(size - 1, bytes[size]), popped) && |After(size - 1, bytes[size])| == |contents|
    {
      var contents' := After(size - 1, bytes[size]);
      forall i | 0 <= i < |contents|
        ensures |contents'[i]| == size && Image(after, Slot(popped + i, num), size) == contents'[i]
      {
        assert |contents[i]| == size && Image(before, Slot(popped + i, num), size) == contents[i];
        NextSlot(i);
        EntryHit(before, after, at, bytes, popped + i);
      }
    }

    lemma EntryHit(before: seq<u8>, after: seq<u8>, at: nat, bytes: seq<u8>, c: nat)
      requires Ring() && c < pushed < c + num
      requires |bytes| == size + 1 && |before| == p.Length && 0 < size
      requires at == Slot(pushed, num) * size && at + size + 1 <= |before| && after == Over(before, at, bytes)
      ensures var was := Image(before, Slot(c, num), size);
        Image(after, Slot(c, num), size) == if Slot(c, num) == Slot(pushed, num) + 1 then Hit(was, bytes[size]) else was
    {
      SlotInside(pushed);
      SlotInside(c);
      FreeSlot(c, pushed);
      OneSpillKept(before, after, Slot(pushed, num), at, bytes, Slot(c, num));
    }

    lemma OneSpillKept(before: seq<u8>, after: seq<u8>, s: nat, at: nat, bytes: seq<u8>, t: nat)
      requires |bytes| == size + 1 && 0 < size && at == s * size && at + size + 1 <= |before|
      requires after == Over(before, at, bytes)
      requires t < num && s < num && t != s && num * size <= |before|
      ensures Image(after, t, size)
           == if t == s + 1 then Hit(Image(before, t, size), bytes[size]) else Image(before, t, size)
    {
      SlotsInOrder(t, num, size);
      if t == s + 1 {
        assert t * size == at + size;
        ImageHit(before, after, t * size, t, bytes[size]);
      } else {
        if s < t {
          assert (s + 1) * size == at + size;
          SlotsInOrder(s + 1, t, size);
        } else {
          SlotsInOrder(t, s, size);
        }
        ImageKept(before, after, t * size, t, size);
      }
    }

    lemma ImageHit(before: seq<u8>, after: seq<u8>, at: nat, t: nat, b: u8)
      requires at == t * size && at + size <= |before| == |after| && 0 < size && after[at] == b
      requires forall j :: at < j < at + size ==> after[j] == before[j]
      ensures Image(after, t, size) == Hit(Image(before, t, size), b)
    {
    }

    /** The slot after the free one is in use by the oldest entry, or by none. */
    lemma NextSlot(i: nat)
      requires Ring() && pushed == popped + |contents| && i < |contents| < num
      ensures Slot(popped + i, num) == Slot(pushed, num) + 1
         <==> i == 0 && |contents| + 1 == num && Slot(pushed, num) + 1 < num
    {
      WrappedSlot(popped + i, k);
      if Slot(pushed, num) + 1 < num {
        SlotAfter(pushed, k);
        if popped + i + num == pushed + 1 {
          SlotRoundTheRing(popped + i, k);
        } else {
          FreeSlot(popped + i, pushed + 1);
        }
      }
    }

    /** my_fifo_get */
    method Get() returns (at: Option<nat>)
      requires Valid()
      ensures at.Some? <==> contents != []
      ensures at.Some? ==> at.value + size <= p.Length && p[at.value..][..size] == contents[0]
    {
      CountInUse();
      if rptr != wptr {
        SlotInside(popped);
        assert Image(p[..], Slot(popped + 0, num), size) == contents[0];
        return Some(Slot(rptr, num) * size);
      }
      return None;
    }

    /** my_fifo_pop, after a my_fifo_get that was not null */
    method Pop()
      requires Valid() && contents != []
      modifies this
      ensures Valid() && popped == old(popped) + 1 && contents == old(contents)[1..]
    {
      HoldsOneLess(p[..], contents, popped);
      WrapNext(popped);
      contents := contents[1..];
      popped := popped + 1;
      rptr := (rptr + 1) % 256;
    }

    // -------------------------------------------------------------- any operations

    /** Every slot in use begins with what was put into it. */
    ghost predicate Represents(q: Queue)
      reads this
    {
      popped == q.gone && Begin(q.entries, contents)
    }

    /** The buffer has a byte to spare, or this operation needs none. */
    ghost predicate Spared(op: Op) {
      Oversize(op, size) ==> num * size < p.Length
    }

    method Do(op: Op, ghost q: Queue, slots: seq<seq<u8>>) returns (slots': seq<seq<u8>>)
      requires Valid() && Represents(q) && Begin(q.taken, slots)
      requires Admissible(op, size) && Spared(op)
      modifies this, p
      ensures Valid() && Represents(Does(q, op, num, size)) && Begin(Does(q, op, num, size).taken, slots')
    {
      slots' := slots;
      match op {
        case PushOp(payload, n) => DoPush(payload, n, q);
        case FillOp(bytes) => DoFill(bytes, q);
        case TakeOp => slots' := DoTake(q, slots);
      }
    }

    method DoPush(payload: seq<u8>, n: int, ghost q: Queue)
      requires Valid() && Represents(q) && n <= |payload| && Spared(PushOp(payload, n))
      modifies this, p
      ensures Valid() && Represents(Does(q, PushOp(payload, n), num, size))
    {
      PushFits(n);
      ghost var before, kept := contents, if |contents| < num && 0 <= n < size
        then After(n, Framed(n, payload)[n + 1]) else contents;
      var status := Push(payload, n);
      if status == 0 {
        ghost var bytes, last := Framed(n, payload), Framed(n, payload)[n + 1];
        ghost var struck := Strikes(n, q.gone, |q.entries|, num, size);
        BeginHit(q.entries, before, last);
        BeginSnoc(if struck then HitFirst(q.entries, last) else q.entries, kept,
                  bytes[..if n + 2 <= size then n + 2 else size], contents);
      }
    }

    method DoFill(bytes: seq<u8>, ghost q: Queue)
      requires Valid() && Represents(q) && |bytes| <= size
      modifies this, p
      ensures Valid() && Represents(Does(q, FillOp(bytes), num, size))
    {
      ghost var before := contents;
      var ok := FillNext(bytes);
      if ok {
        BeginSnoc(q.entries, before, bytes, contents);
      }
    }

    method DoTake(ghost q: Queue, slots: seq<seq<u8>>) returns (slots': seq<seq<u8>>)
      requires Valid() && Represents(q) && Begin(q.taken, slots)
      modifies this
      ensures Valid() && Represents(Does(q, TakeOp, num, size)) && Begin(Does(q, TakeOp, num, size).taken, slots')
    {
      slots' := slots;
      var at := Get();
      match at {
        case None =>
        case Some(at) =>
          var slot := p[at..][..size];
          slots' := slots + [slot];
          BeginSnoc(q.taken, slots, q.entries[0], slots');
          BeginTail(q.entries, contents);
          Pop();
      }
    }

    /** Any sequence of pushes, fills and takes: the ring behaves as the queue. */
    method Drive(ops: seq<Op>, ghost q: Queue) returns (slots: seq<seq<u8>>)
      requires Valid() && Represents(q) && q.taken == []
      requires forall op :: op in ops ==> Admissible(op, size) && Spared(op)
      modifies this, p
      ensures Valid()
      ensures var q' := DoesAll(q, ops, num, size);
        Represents(q') && Begin(q'.taken, slots)
    {
      slots := [];
      var rest := ops;
      ghost var now := q;
      while rest != []
        invariant Valid() && Represents(now) && Begin(now.taken, slots)
        invariant forall op :: op in rest ==> Admissible(op, size) && Spared(op)
        invariant DoesAll(now, rest, num, size) == DoesAll(q, ops, num, size)
        decreases |rest|
      {
        assert rest[0] in rest;
        slots := Do(rest[0], now, slots);
        now := Does(now, rest[0], num, size);
        rest := rest[1..];
      }
    }

    lemma PushFits(n: int)
      requires Valid() && (n + 1 == size ==> num * size < p.Length)
      ensures |contents| < num && 0 <= n < size ==> Slot(pushed, num) * size + n + 2 <= p.Length
    {
      SlotInside(pushed);
      SlotsInOrder(Slot(pushed, num), num, size);
    }
  }

  /** As many slots as there are entries, each beginning with its entry */
  ghost predicate Begin(entries: seq<seq<u8>>, slots: seq<seq<u8>>) {
    |entries| == |slots| && forall i :: 0 <= i < |entries| ==> entries[i] <= slots[i]
  }

  lemma BeginSnoc(entries: seq<seq<u8>>, slots: seq<seq<u8>>, entry: seq<u8>, slots': seq<seq<u8>>)
    requires Begin(entries, slots) && |slots'| == |slots| + 1
    requires slots'[..|slots|] == slots && entry <= slots'[|slots|]
    ensures Begin(entries + [entry], slots')
  {
    forall i | 0 <= i < |entries|
      ensures entries[i] <= slots'[i]
    {
      assert slots'[..|slots|][i] == slots[i];
    }
  }

  lemma BeginHit(entries: seq<seq<u8>>, slots: seq<seq<u8>>, b: u8)
    requires Begin(entries, slots)
    ensures Begin(HitFirst(entries, b), HitFirst(slots, b))
  {
  }

  lemma BeginTail(entries: seq<seq<u8>>, slots: seq<seq<u8>>)
    requires Begin(entries, slots) && entries != []
    ensures Begin(entries[1..], slots[1..])
  {
  }

  lemma Pow2Small(k: nat)
    requires k <= 7
    ensures Pow2(k) <= 128
  {
    Pow2Splits(k, 7);
    assert Pow2(7) == 128;
    Pow2Positive(7 - k);
    assert Pow2(7 - k) * Pow2(k) >= Pow2(k);
  }
}
