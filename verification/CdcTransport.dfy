/** What the USB CDC transport and the UART queue above it do, as transitions on values:
    one function for each entry point, and the properties of every run of them.
    A write, a bulk IRQ and a deferred completion callback may come in any order. */
module CdcTransport {
  import opened Common

  /** A transmit buffer: the pointer, and the bytes the writer gave it and leaves alone
      while the driver owns it.  The length travels in a u8. */
  datatype Buf = Buf(id: nat, data: seq<u8>)

  /** The driver's state, and what it has done to the world so far */
  datatype Link = Link(
    txBuf: Option<Buf>,        // cdc_v->txBuf
    lenToSend: nat,            // cdc_v->lenToSend
    lastSendIndex: nat,        // cdc_v->lastSendIndex
    pending: seq<Buf>,         // usb_uart_txPendingQ
    tasks: seq<Buf>,           // completion callbacks scheduled and not yet run
    packets: seq<seq<u8>>,     // what the bulk endpoint was given
    written: seq<Buf>,         // every buffer passed to usb_uart_write by a client
    completed: seq<Buf>,       // every buffer whose transfer finished, in that order
    freed: seq<Buf>            // every buffer given back to the allocator
  )

  const IDLE: Link := Link(None, 0, 0, [], [], [], [], [], [])

  // ---------------------------------------------------------------- the entry points

  /** usbcdc_sendBulkData.  (No reachable state has the indices run past the buffer.) */
  function Bulk(s: Link, busy: bool, E: nat): Link {
    if busy || s.lenToSend == 0 || s.txBuf.None? || s.lastSendIndex + s.lenToSend > |s.txBuf.value.data| then s else
    var len := if s.lenToSend > E then E else s.lenToSend;
    var packet := s.txBuf.value.data[s.lastSendIndex..s.lastSendIndex + len];
    var sent := s.(packets := s.packets + [packet]);
    if s.lenToSend > E then
      sent.(lenToSend := s.lenToSend - len, lastSendIndex := s.lastSendIndex + len)
    else
      sent.(lenToSend := 0, lastSendIndex := 0, txBuf := None,
            tasks := s.tasks + [s.txBuf.value], completed := s.completed + [s.txBuf.value])
  }

  /** usb_uart_write below the client's view: send now when idle, else queue */
  function Submit(s: Link, buf: Buf, busy: bool, E: nat): Link {
    if s.txBuf.None? then
      Bulk(s.(txBuf := Some(buf), lenToSend := |buf.data|, lastSendIndex := 0), busy, E)
    else
      s.(pending := s.pending + [buf])
  }

  /** usb_uart_write called by a client */
  function Write(s: Link, buf: Buf, busy: bool, E: nat): Link {
    Submit(s.(written := s.written + [buf]), buf, busy, E)
  }

  /** usb_uart_tXFinishCb, when the scheduler gets to it */
  function RunTask(s: Link, busy: bool, E: nat): Link {
    if s.tasks == [] then s else
    var done := s.(freed := s.freed + [s.tasks[0]], tasks := s.tasks[1..]);
    if done.pending == [] then done
    else Submit(done.(pending := done.pending[1..]), done.pending[0], busy, E)
  }

  datatype Event = WriteEvent(buf: Buf, busy: bool) | IrqEvent(busy: bool) | TaskEvent(busy: bool)

  function Step(s: Link, e: Event, E: nat): Link {
    match e
    case WriteEvent(buf, busy) => Write(s, buf, busy, E)
    case IrqEvent(busy) => Bulk(s, busy, E)
    case TaskEvent(busy) => RunTask(s, busy, E)
  }

  function Run(s: Link, events: seq<Event>, E: nat): Link
    decreases |events|
  {
    if events == [] then s else Run(Step(s, events[0], E), events[1..], E)
  }

  // ---------------------------------------------------------------- chunks

  /** The packets a buffer goes out in: full ones, and a last one of at most E bytes */
  function Chunks(data: seq<u8>, E: nat): (c: seq<seq<u8>>)
    requires E > 0
    decreases |data|
  {
    if |data| <= E then [data] else [data[..E]] + Chunks(data[E..], E)
  }

  /** The full packets that the first k bytes went out in */
  function FullChunks(data: seq<u8>, k: nat, E: nat): (c: seq<seq<u8>>)
    requires E > 0 && k <= |data|
  {
    if k < E then [] else [data[..E]] + FullChunks(data[E..], k - E, E)
  }

  function Flatten(packets: seq<seq<u8>>): seq<u8> {
    if packets == [] then [] else packets[0] + Flatten(packets[1..])
  }

  function AllChunks(bufs: seq<Buf>, E: nat): seq<seq<u8>>
    requires E > 0
  {
    if bufs == [] then [] else AllChunks(bufs[..|bufs| - 1], E) + Chunks(bufs[|bufs| - 1].data, E)
  }

  /** Reassembled, the packets are the buffer; all but the last are full, and the last is
      full only when the buffer is a whole number of packets. */
  lemma ChunksCover(data: seq<u8>, E: nat)
    requires E > 0
    ensures Flatten(Chunks(data, E)) == data
    ensures var c := Chunks(data, E);
      && c != []
      && (forall i :: 0 <= i < |c| - 1 ==> |c[i]| == E)
      && |c[|c| - 1]| == |data| - E * (|c| - 1) <= E
      && (data != [] ==> c[|c| - 1] != [])
  {
    ChunksJoin(data, E);
    ChunkSizes(data, E);
  }

  lemma {:induction false} ChunksJoin(data: seq<u8>, E: nat)
    requires E > 0
    ensures Flatten(Chunks(data, E)) == data
    decreases |data|
  {
    var c := Chunks(data, E);
    if |data| <= E {
      assert Flatten(c) == data + Flatten(c[1..]);
    } else {
      ChunksJoin(data[E..], E);
      assert c[1..] == Chunks(data[E..], E);
      assert data == data[..E] + data[E..];
    }
  }

  lemma {:induction false} ChunkSizes(data: seq<u8>, E: nat)
    requires E > 0
    ensures var c := Chunks(data, E);
      && c != []
      && (forall i :: 0 <= i < |c| - 1 ==> |c[i]| == E)
      && |c[|c| - 1]| == |data| - E * (|c| - 1) <= E
      && (data != [] ==> c[|c| - 1] != [])
    decreases |data|
  {
    if |data| <= E {
    } else {
      ChunkSizes(data[E..], E);
      var c := Chunks(data[E..], E);
      assert E * |c| == E * (|c| - 1) + E;
    }
  }

  lemma FirstFullChunk(data: seq<u8>, k: nat, left: nat, E: nat)
    requires E > 0 && left + E == k <= |data|
    ensures FullChunks(data, k, E) == [data[..E]] + FullChunks(data[E..], left, E)
  {
  }

  lemma SliceOfTail(data: seq<u8>, E: nat, from: nat, to: nat)
    requires from <= to && E + to <= |data|
    ensures data[E..][from..to] == data[E + from..E + to]
  {
  }

  lemma {:induction false} NextFullChunk(data: seq<u8>, k: nat, E: nat)
    requires E > 0 && Whole(k, E) && k + E <= |data|
    ensures FullChunks(data, k + E, E) == FullChunks(data, k, E) + [data[k..k + E]]
    decreases k
  {
    if k >= E {
      var rest := data[E..];
      NextFullChunk(rest, k - E, E);
      SliceOfTail(data, E, k - E, k);
      FirstFullChunk(data, k, k - E, E);
      FirstFullChunk(data, k + E, k, E);
    } else {
      assert FullChunks(data[E..], 0, E) == [];
    }
  }

  lemma {:induction false} LastChunk(data: seq<u8>, k: nat, E: nat)
    requires E > 0 && Whole(k, E) && k <= |data| <= k + E
    requires k < |data| || k == 0
    ensures Chunks(data, E) == FullChunks(data, k, E) + [data[k..]]
    decreases k
  {
    if k >= E {
      LastChunk(data[E..], k - E, E);
      assert data[E..][k - E..] == data[k..];
    } else {
      assert k == 0;
    }
  }

  /** k is a whole number of packets. */
  predicate Whole(k: nat, E: nat)
    requires E > 0
    decreases k
  {
    k == 0 || (k >= E && Whole(k - E, E))
  }

  // ---------------------------------------------------------------- safety over every run

  function InFlight(s: Link): seq<Buf> {
    if s.txBuf.Some? then [s.txBuf.value] else []
  }

  /** What holds of the driver at every instant, even with a buffer in hand */
  ghost predicate Core(s: Link, E: nat)
    requires E > 0
  {
    // a transfer in progress has full packets behind it and bytes ahead of it, if it has any
    && (s.txBuf.None? ==> s.lenToSend == 0 && s.lastSendIndex == 0)
    && (s.txBuf.Some? ==>
          && (s.lenToSend > 0 || s.txBuf.value.data == [])
          && s.lastSendIndex + s.lenToSend == |s.txBuf.value.data|
          && Whole(s.lastSendIndex, E))
    // callbacks run once each, in order of completion
    && s.completed == s.freed + s.tasks
    && AllHaveBytes(s.completed)
    // the endpoint got the finished buffers, one after the other, and the start of this one
    && s.packets == AllChunks(s.completed, E) + Started(s, E)
  }

  ghost function Started(s: Link, E: nat): seq<seq<u8>>
    requires E > 0
  {
    if s.txBuf.Some? && s.lastSendIndex <= |s.txBuf.value.data|
    then FullChunks(s.txBuf.value.data, s.lastSendIndex, E) else []
  }

  /** Every buffer written, but those in hand, is in exactly one place. */
  ghost predicate Accounts(s: Link, hand: multiset<Buf>) {
    multiset(s.written)
    == multiset(InFlight(s)) + multiset(s.pending) + multiset(s.tasks) + multiset(s.freed) + hand
  }

  /** Nothing waits without something under way that will fetch it. */
  predicate Fetched(s: Link) {
    s.pending != [] ==> s.txBuf.Some? || s.tasks != []
  }

  ghost predicate Inv(s: Link, E: nat)
    requires E > 0
  {
    Core(s, E) && Accounts(s, multiset{}) && Fetched(s)
  }

  lemma BulkKeepsCore(s: Link, busy: bool, E: nat)
    requires E > 0 && Core(s, E)
    ensures Core(Bulk(s, busy, E), E)
  {
    if !busy && s.txBuf.Some? && s.lenToSend > 0 {
      if s.lenToSend > E {
        FullPacketKeeps(s, Bulk(s, busy, E), E);
      } else {
        LastPacketKeeps(s, Bulk(s, busy, E), E);
      }
    }
  }

  lemma FullPacketKeeps(s: Link, s': Link, E: nat)
    requires E > 0 && Core(s, E) && s.txBuf.Some? && s.lenToSend > E
    requires s' == Bulk(s, false, E)
    ensures Core(s', E)
  {
    NextFullChunk(s.txBuf.value.data, s.lastSendIndex, E);
    assert s'.packets == AllChunks(s'.completed, E) + Started(s', E);
  }

  lemma LastPacketKeeps(s: Link, s': Link, E: nat)
    requires E > 0 && Core(s, E) && s.txBuf.Some? && 0 < s.lenToSend <= E
    requires s' == Bulk(s, false, E)
    ensures Core(s', E)
  {
    var data, k := s.txBuf.value.data, s.lastSendIndex;
    LastChunk(data, k, E);
    assert data[k..k + s.lenToSend] == data[k..];
    AllChunksSnoc(s.completed, s.txBuf.value, E);
    assert s'.packets == AllChunks(s.completed, E) + Chunks(data, E);
    assert s'.completed == s'.freed + s'.tasks;
  }

  lemma AllChunksSnoc(bufs: seq<Buf>, buf: Buf, E: nat)
    requires E > 0
    ensures AllChunks(bufs + [buf], E) == AllChunks(bufs, E) + Chunks(buf.data, E)
  {
    assert (bufs + [buf])[..|bufs|] == bufs;
  }

  lemma BulkKeepsAccounts(s: Link, busy: bool, hand: multiset<Buf>, E: nat)
    requires E > 0 && Core(s, E) && Accounts(s, hand)
    ensures Accounts(Bulk(s, busy, E), hand)
    ensures var s' := Bulk(s, busy, E);
      s'.pending == s.pending && (s.txBuf.Some? ==> s'.txBuf.Some? || s'.tasks != [])
  {
  }

  /** Handing over a buffer from the client or from the queue */
  lemma SubmitKeeps(s: Link, buf: Buf, busy: bool, E: nat)
    requires E > 0
    requires Core(s, E) && Accounts(s, multiset{buf})
    ensures Inv(Submit(s, buf, busy, E), E)
  {
    if s.txBuf.None? {
      var begun := s.(txBuf := Some(buf), lenToSend := |buf.data|, lastSendIndex := 0);
      BulkKeepsCore(begun, busy, E);
      BulkKeepsAccounts(begun, busy, multiset{}, E);
    }
  }

  lemma RunTaskKeeps(s: Link, busy: bool, E: nat)
    requires E > 0 && Inv(s, E)
    ensures Inv(RunTask(s, busy, E), E)
  {
    if s.tasks != [] {
      var done := s.(freed := s.freed + [s.tasks[0]], tasks := s.tasks[1..]);
      FreeKeeps(s, done, E);
      if s.pending != [] {
        var popped := done.(pending := s.pending[1..]);
        PopKeeps(done, popped, E);
        SubmitKeeps(popped, s.pending[0], busy, E);
      }
    }
  }

  lemma FreeKeeps(s: Link, done: Link, E: nat)
    requires E > 0 && Core(s, E) && Accounts(s, multiset{}) && s.tasks != []
    requires done == s.(freed := s.freed + [s.tasks[0]], tasks := s.tasks[1..])
    ensures Core(done, E) && Accounts(done, multiset{})
  {
    assert s.tasks == [s.tasks[0]] + s.tasks[1..];
    assert done.completed == done.freed + done.tasks;
  }

  lemma PopKeeps(s: Link, popped: Link, E: nat)
    requires E > 0 && Core(s, E) && Accounts(s, multiset{}) && s.pending != []
    requires popped == s.(pending := s.pending[1..])
    ensures Core(popped, E) && Accounts(popped, multiset{s.pending[0]})
  {
    assert s.pending == [s.pending[0]] + s.pending[1..];
  }

  lemma StepKeeps(s: Link, e: Event, E: nat)
    requires E > 0 && Inv(s, E)
    ensures Inv(Step(s, e, E), E)
  {
    match e
    case WriteEvent(buf, busy) =>
      SubmitKeeps(s.(written := s.written + [buf]), buf, busy, E);
    case IrqEvent(busy) =>
      BulkKeepsCore(s, busy, E);
      BulkKeepsAccounts(s, busy, multiset{}, E);
    case TaskEvent(busy) =>
      RunTaskKeeps(s, busy, E);
  }

  /** Over every interleaving of writes, IRQs and callbacks, everything holds. */
  lemma {:induction false} RunKeeps(s: Link, events: seq<Event>, E: nat)
    requires E > 0 && Inv(s, E)
    ensures Inv(Run(s, events, E), E)
    decreases |events|
  {
    if events == [] {
    } else {
      StepKeeps(s, events[0], E);
      RunKeeps(Step(s, events[0], E), events[1..], E);
    }
  }

  /** What has gone out of the buffer in flight */
  function SentPart(s: Link): seq<u8> {
    if s.txBuf.Some? && s.lastSendIndex <= |s.txBuf.value.data| then s.txBuf.value.data[..s.lastSendIndex] else []
  }

  /** The whole of it: conservation, no double completion or free, nothing stranded, and
      the endpoint's bytes are the finished buffers and the start of the one in flight. */
  lemma RunSafe(events: seq<Event>, E: nat)
    requires E > 0
    ensures var s := Run(IDLE, events, E);
      && Inv(s, E)
      && multiset(s.completed) <= multiset(s.written)
      && multiset(s.freed) <= multiset(s.completed)
      && Flatten(s.packets) == Payload(s.completed) + SentPart(s)
  {
    InitInv(E);
    RunKeeps(IDLE, events, E);
    var s := Run(IDLE, events, E);
    FlattenAppend(AllChunks(s.completed, E), Started(s, E));
    PayloadOfChunks(s.completed, E);
    if s.txBuf.Some? {
      FlattenFull(s.txBuf.value.data, s.lastSendIndex, E);
    }
  }

  lemma InitInv(E: nat)
    requires E > 0
    ensures Inv(IDLE, E)
  {
  }

  function Payload(bufs: seq<Buf>): seq<u8> {
    if bufs == [] then [] else Payload(bufs[..|bufs| - 1]) + bufs[|bufs| - 1].data
  }

  lemma {:induction false} FlattenAppend(a: seq<seq<u8>>, b: seq<seq<u8>>)
    ensures Flatten(a + b) == Flatten(a) + Flatten(b)
  {
    if a == [] {
      assert a + b == b;
    } else {
      TailOfAppend(a, b);
      FlattenAppend(a[1..], b);
      AppendAssoc(a[0], Flatten(a[1..]), Flatten(b));
    }
  }

  lemma {:induction false} FlattenFull(data: seq<u8>, k: nat, E: nat)
    requires E > 0 && k <= |data| && Whole(k, E)
    ensures Flatten(FullChunks(data, k, E)) == data[..k]
    decreases k
  {
    if k >= E {
      FlattenFull(data[E..], k - E, E);
      assert FullChunks(data, k, E)[1..] == FullChunks(data[E..], k - E, E);
      assert data[..k] == data[..E] + data[E..][..k - E];
    } else {
      assert k == 0;
    }
  }

  lemma {:induction false} PayloadOfChunks(bufs: seq<Buf>, E: nat)
    requires E > 0
    ensures Flatten(AllChunks(bufs, E)) == Payload(bufs)
  {
    if bufs == [] {
    } else {
      var init, last := bufs[..|bufs| - 1], bufs[|bufs| - 1];
      PayloadOfChunks(init, E);
      FlattenAppend(AllChunks(init, E), Chunks(last.data, E));
      ChunksCover(last.data, E);
    }
  }

  // ---------------------------------------------------------------- what the endpoint is given

  /** The bytes of a buffer that one packet takes */
  function First(data: seq<u8>, E: nat): seq<u8> {
    if |data| > E then data[..E] else data
  }

  /** The bytes the driver has at hand to send when this event comes: what is left of the buffer
      in flight, or the buffer that is submitted to a free driver */
  function AtHand(s: Link, e: Event): seq<u8> {
    match e
    case IrqEvent(_) =>
      if s.txBuf.Some? && s.lastSendIndex <= |s.txBuf.value.data| then s.txBuf.value.data[s.lastSendIndex..] else []
    case WriteEvent(buf, _) => if s.txBuf.None? then buf.data else []
    case TaskEvent(_) => if s.txBuf.None? && s.tasks != [] && s.pending != [] then s.pending[0].data else []
  }

  /** A busy endpoint is given nothing; a free one exactly one packet of what is at hand, if there
      is anything. */
  lemma PacketsSent(s: Link, e: Event, E: nat)
    requires E > 0
    ensures e.busy ==> Step(s, e, E).packets == s.packets
    ensures Step(s, IrqEvent(true), E) == s
    ensures Core(s, E) && !e.busy ==>
      Step(s, e, E).packets == s.packets + if AtHand(s, e) == [] then [] else [First(AtHand(s, e), E)]
  {
    if Core(s, E) && !e.busy {
      match e
      case IrqEvent(_) => BulkSends(s, E);
      case WriteEvent(buf, _) => SubmitSends(s.(written := s.written + [buf]), buf, E);
      case TaskEvent(_) =>
        if s.tasks != [] && s.pending != [] {
          var done := s.(freed := s.freed + [s.tasks[0]], tasks := s.tasks[1..], pending := s.pending[1..]);
          SubmitSends(done, s.pending[0], E);
        }
    }
  }

  lemma BulkSends(s: Link, E: nat)
    requires E > 0 && (s.txBuf.None? ==> s.lenToSend == 0)
    requires s.txBuf.Some? ==> s.lastSendIndex + s.lenToSend == |s.txBuf.value.data|
    ensures var left := if s.txBuf.Some? then s.txBuf.value.data[s.lastSendIndex..] else [];
      Bulk(s, false, E).packets == s.packets + if left == [] then [] else [First(left, E)]
  {
    if s.lenToSend > 0 && s.txBuf.Some? {
      var data, i := s.txBuf.value.data, s.lastSendIndex;
      var len := if s.lenToSend > E then E else s.lenToSend;
      SliceParts(data, i, i + len, |data|);
      assert data[i..|data|] == data[i..];
    }
  }

  lemma SubmitSends(s: Link, buf: Buf, E: nat)
    requires E > 0
    ensures Submit(s, buf, false, E).packets
         == s.packets + if s.txBuf.None? && buf.data != [] then [First(buf.data, E)] else []
  {
    if s.txBuf.None? {
      BulkSends(s.(txBuf := Some(buf), lenToSend := |buf.data|, lastSendIndex := 0), E);
      assert buf.data[0..] == buf.data;
    }
  }

  // ---------------------------------------------------------------- what was written

  function WriteOf(e: Event): seq<Buf> {
    if e.WriteEvent? then [e.buf] else []
  }

  /** The buffers that these events write */
  function Writes(events: seq<Event>): seq<Buf> {
    if events == [] then [] else WriteOf(events[0]) + Writes(events[1..])
  }

  lemma StepWrites(s: Link, e: Event, E: nat)
    ensures Step(s, e, E).written == s.written + WriteOf(e)
  {
  }

  lemma {:induction false} WrittenGrows(s: Link, events: seq<Event>, E: nat)
    ensures Run(s, events, E).written == s.written + Writes(events)
    decreases |events|
  {
    if events == [] {
    } else {
      StepWrites(s, events[0], E);
      WrittenGrows(Step(s, events[0], E), events[1..], E);
      AppendAssoc(s.written, WriteOf(events[0]), Writes(events[1..]));
    }
  }

  predicate AllHaveBytes(bufs: seq<Buf>) {
    forall b :: b in bufs ==> b.data != []
  }

  // ---------------------------------------------------------------- first in, first out

  /** The buffers go out, and wait, in the order they were written. */
  predicate InOrder(s: Link) {
    s.completed + InFlight(s) + s.pending == s.written
  }

  /** What spoils the order: a write that finds the driver free while older buffers wait for
      a callback to fetch them, or a callback that finds the driver taken and has to put the
      buffer it fetched back behind another. */
  predicate Overtakes(s: Link, e: Event) {
    match e
    case WriteEvent(_, _) => s.txBuf.None? && s.pending != []
    case IrqEvent(_) => false
    case TaskEvent(_) => s.tasks != [] && s.txBuf.Some? && |s.pending| >= 2
  }

  ghost predicate Distinct(bufs: seq<Buf>) {
    forall i, j :: 0 <= i < j < |bufs| ==> bufs[i] != bufs[j]
  }

  /** Whatever Submit does at once, these stay as they were, or grow at the end. */
  lemma SubmitOrder(s: Link, buf: Buf, busy: bool, E: nat)
    requires E > 0 && Core(s, E)
    ensures var s' := Submit(s, buf, busy, E);
      && s'.written == s.written
      && s'.completed + InFlight(s') + s'.pending
         == if s.txBuf.None? then s.completed + [buf] + s.pending
            else s.completed + InFlight(s) + s.pending + [buf]
  {
    var s' := Submit(s, buf, busy, E);
    if s.txBuf.None? {
      assert s'.completed + InFlight(s') == s.completed + [buf];
    }
  }

  lemma NotCommuting(a: seq<Buf>, x: Buf, b: seq<Buf>)
    requires b != [] && b[0] != x
    ensures a + [x] + b != a + b + [x]
  {
    assert (a + [x] + b)[|a|] == x;
    assert (a + b + [x])[|a|] == b[0];
  }

  lemma WriteOrder(s: Link, buf: Buf, busy: bool, E: nat)
    requires E > 0 && Inv(s, E) && InOrder(s)
    requires Distinct(s.written + [buf])
    ensures InOrder(Write(s, buf, busy, E)) <==> !Overtakes(s, WriteEvent(buf, busy))
  {
    var noted := s.(written := s.written + [buf]);
    SubmitOrder(noted, buf, busy, E);
    if s.txBuf.None? && s.pending != [] {
      assert s.written == s.completed + s.pending;
      var all := s.written + [buf];
      assert all[|s.completed|] == s.pending[0] && all[|s.written|] == buf;
      NotCommuting(s.completed, buf, s.pending);
    }
  }

  /** A callback that fetches: the buffer goes out next if the driver is free, and to the
      back of the queue if not. */
  lemma FetchEffect(s: Link, busy: bool, E: nat)
    requires E > 0 && Inv(s, E) && s.tasks != [] && s.pending != []
    ensures var s', head, rest := RunTask(s, busy, E), s.pending[0], s.pending[1..];
      && s'.written == s.written
      && s'.completed + InFlight(s') + s'.pending
         == (if s.txBuf.None? then s.completed + [head] + rest
             else s.completed + InFlight(s) + rest + [head])
      && (s.txBuf.None? ==> |s'.tasks| == |s.tasks| - if s'.txBuf.None? then 0 else 1)
  {
    var done := s.(freed := s.freed + [s.tasks[0]], tasks := s.tasks[1..]);
    FreeKeeps(s, done, E);
    var popped := done.(pending := s.pending[1..]);
    PopKeeps(done, popped, E);
    SubmitOrder(popped, s.pending[0], busy, E);
  }

  lemma TaskOrder(s: Link, busy: bool, E: nat)
    requires E > 0 && Inv(s, E) && InOrder(s)
    requires Distinct(s.written)
    ensures InOrder(RunTask(s, busy, E)) <==> !Overtakes(s, TaskEvent(busy))
  {
    if s.tasks != [] && s.pending != [] {
      FetchEffect(s, busy, E);
      var head, rest := s.pending[0], s.pending[1..];
      var before := s.completed + InFlight(s);
      assert s.written == before + [head] + rest;
      if s.txBuf.Some? {
        Requeued(before, head, rest);
      } else {
        assert before == s.completed;
      }
    }
  }

  lemma Requeued(before: seq<Buf>, head: Buf, rest: seq<Buf>)
    requires Distinct(before + [head] + rest)
    ensures before + rest + [head] == before + [head] + rest <==> rest == []
  {
    if rest == [] {
      assert before + rest + [head] == before + [head] + rest;
    } else {
      var all := before + [head] + rest;
      assert all[|before|] == head && all[|before| + 1] == rest[0];
      NotCommuting(before, head, rest);
    }
  }

  lemma IrqOrder(s: Link, busy: bool, E: nat)
    requires E > 0 && Core(s, E) && InOrder(s)
    ensures InOrder(Bulk(s, busy, E))
  {
    var s' := Bulk(s, busy, E);
    assert s'.completed + InFlight(s') == s.completed + InFlight(s);
  }

  /** One step keeps the order exactly when it does not overtake. */
  lemma StepOrder(s: Link, e: Event, E: nat)
    requires E > 0 && Inv(s, E) && InOrder(s)
    requires Distinct(Step(s, e, E).written)
    ensures InOrder(Step(s, e, E)) <==> !Overtakes(s, e)
  {
    match e
    case WriteEvent(buf, busy) => WriteOrder(s, buf, busy, E);
    case IrqEvent(busy) => IrqOrder(s, busy, E);
    case TaskEvent(busy) =>
      assert Step(s, e, E).written == s.written;
      TaskOrder(s, busy, E);
  }

  /** In order at the start and after every one of the events */
  predicate AlwaysInOrder(s: Link, events: seq<Event>, E: nat)
    decreases |events|
  {
    InOrder(s) && (events != [] ==> AlwaysInOrder(Step(s, events[0], E), events[1..], E))
  }

  predicate NeverOvertakes(s: Link, events: seq<Event>, E: nat)
    decreases |events|
  {
    events != [] ==> !Overtakes(s, events[0]) && NeverOvertakes(Step(s, events[0], E), events[1..], E)
  }

  /** A run is in order all the time exactly when none of its events overtakes. */
  lemma {:induction false} RunOrder(s: Link, events: seq<Event>, E: nat)
    requires E > 0 && Inv(s, E) && InOrder(s)
    requires Distinct(s.written + Writes(events))
    ensures AlwaysInOrder(s, events, E) <==> NeverOvertakes(s, events, E)
    decreases |events|
  {
    if events == [] {
    } else {
      var e, rest := events[0], events[1..];
      var s' := Step(s, e, E);
      StepKeeps(s, e, E);
      StepWrites(s, e, E);
      AppendAssoc(s.written, WriteOf(e), Writes(rest));
      DistinctStart(s'.written, Writes(rest));
      StepOrder(s, e, E);
      if InOrder(s') {
        RunOrder(s', rest, E);
      }
    }
  }

  lemma DistinctStart(a: seq<Buf>, b: seq<Buf>)
    requires Distinct(a + b)
    ensures Distinct(a)
  {
    forall i, j | 0 <= i < j < |a|
      ensures a[i] != a[j]
    {
      assert (a + b)[i] == a[i] && (a + b)[j] == a[j];
    }
  }

  /** No client writes between a completion and its callback. */
  predicate QuietWrites(s: Link, events: seq<Event>, E: nat)
    decreases |events|
  {
    events != [] ==>
      && (events[0].WriteEvent? ==> s.tasks == [])
      && QuietWrites(Step(s, events[0], E), events[1..], E)
  }

  /** Then a callback only ever waits alone, with the driver free. */
  predicate Quiet(s: Link) {
    s.tasks != [] ==> |s.tasks| == 1 && s.txBuf.None?
  }

  lemma {:induction false} QuietRunInOrder(s: Link, events: seq<Event>, E: nat)
    requires E > 0 && Inv(s, E) && InOrder(s) && Quiet(s)
    requires QuietWrites(s, events, E)
    ensures InOrder(Run(s, events, E))
    decreases |events|
  {
    if events == [] {
    } else {
      var e := events[0];
      StepKeeps(s, e, E);
      QuietStep(s, e, E);
      QuietRunInOrder(Step(s, e, E), events[1..], E);
    }
  }

  lemma QuietStep(s: Link, e: Event, E: nat)
    requires E > 0 && Inv(s, E) && InOrder(s) && Quiet(s)
    requires e.WriteEvent? ==> s.tasks == []
    ensures InOrder(Step(s, e, E)) && Quiet(Step(s, e, E))
  {
    match e
    case WriteEvent(buf, busy) => QuietWrite(s, buf, busy, E);
    case IrqEvent(busy) =>
    case TaskEvent(busy) => QuietTask(s, busy, E);
  }

  lemma QuietWrite(s: Link, buf: Buf, busy: bool, E: nat)
    requires E > 0 && Inv(s, E) && InOrder(s) && s.tasks == []
    ensures InOrder(Write(s, buf, busy, E)) && Quiet(Write(s, buf, busy, E))
  {
    SubmitOrder(s.(written := s.written + [buf]), buf, busy, E);
    if s.txBuf.None? {
      assert s.completed + [buf] + [] == s.completed + [] + [] + [buf];
    }
  }

  lemma QuietTask(s: Link, busy: bool, E: nat)
    requires E > 0 && Inv(s, E) && InOrder(s) && Quiet(s)
    ensures InOrder(RunTask(s, busy, E)) && Quiet(RunTask(s, busy, E))
  {
    if s.tasks != [] && s.pending != [] {
      FetchEffect(s, busy, E);
      assert s.completed + [s.pending[0]] + s.pending[1..] == s.completed + [] + s.pending;
    }
  }

  /** Three one-byte writes, the third just after the first completed: it overtakes the second. */
  lemma OvertakingRun()
    ensures var a, b, c := Buf(0, [1]), Buf(1, [2]), Buf(2, [3]);
      var s := Run(IDLE, [WriteEvent(a, true), WriteEvent(b, false), IrqEvent(false), WriteEvent(c, true)], 64);
      s.written == [a, b, c] && s.completed == [a] && s.txBuf == Some(c) && s.pending == [b]
  {
    var a, b, c := Buf(0, [1]), Buf(1, [2]), Buf(2, [3]);
    var w, x, y, z := WriteEvent(a, true), WriteEvent(b, false), IrqEvent(false), WriteEvent(c, true);
    var s1 := Step(IDLE, w, 64);
    var s2 := Step(s1, x, 64);
    var s3 := Step(s2, y, 64);
    var s4 := Step(s3, z, 64);
    assert [w, x, y, z][1..] == [x, y, z] && [x, y, z][1..] == [y, z] && [y, z][1..] == [z] && [z][1..] == [];
    assert Run(IDLE, [w, x, y, z], 64) == Run(s1, [x, y, z], 64) == Run(s2, [y, z], 64);
    assert Run(s2, [y, z], 64) == Run(s3, [z], 64) == s4;
  }

  // ---------------------------------------------------------------- everything drains

  predicate Drained(s: Link) {
    s.txBuf.None? && s.pending == [] && s.tasks == []
  }

  /** A bulk IRQ with the endpoint free, then the scheduler's next callback */
  function Round(s: Link, E: nat): Link {
    RunTask(Bulk(s, false, E), false, E)
  }

  function Rounds(s: Link, n: nat, E: nat): Link
    decreases n
  {
    if n == 0 then s else Round(Rounds(s, n - 1, E), E)
  }

  function Queued(bufs: seq<Buf>): nat {
    if bufs == [] then 0 else |bufs[0].data| + 3 + Queued(bufs[1..])
  }

  /** A bound on the rounds still needed */
  function Work(s: Link): nat {
    Queued(s.pending) + (if s.txBuf.Some? then s.lenToSend + 2 else 0) + |s.tasks|
  }

  lemma {:induction false} QueuedSnoc(bufs: seq<Buf>, buf: Buf)
    ensures Queued(bufs + [buf]) == Queued(bufs) + |buf.data| + 3
  {
    if bufs == [] {
      assert bufs + [buf] == [buf];
      assert Queued([buf][1..]) == 0;
    } else {
      assert (bufs + [buf])[1..] == bufs[1..] + [buf];
      QueuedSnoc(bufs[1..], buf);
    }
  }

  lemma BulkWorks(s: Link, busy: bool, E: nat)
    requires E > 0 && Core(s, E)
    ensures Work(Bulk(s, busy, E)) <= Work(s)
    ensures !busy && s.txBuf.Some? && s.lenToSend > 0 ==> Work(Bulk(s, busy, E)) < Work(s)
    ensures Bulk(s, busy, E).written == s.written
  {
  }

  lemma TaskWorks(s: Link, busy: bool, E: nat)
    requires E > 0 && Inv(s, E) && s.tasks != []
    ensures Work(RunTask(s, busy, E)) < Work(s)
    ensures RunTask(s, busy, E).written == s.written
  {
    if s.pending != [] {
      var done := s.(freed := s.freed + [s.tasks[0]], tasks := s.tasks[1..]);
      FreeKeeps(s, done, E);
      var popped := done.(pending := s.pending[1..]);
      PopKeeps(done, popped, E);
      if s.txBuf.None? {
        var buf := s.pending[0];
        var begun := popped.(txBuf := Some(buf), lenToSend := |buf.data|, lastSendIndex := 0);
        BulkWorks(begun, busy, E);
      } else {
        QueuedSnoc(s.pending[1..], s.pending[0]);
      }
    }
  }

  lemma InFlightHasBytes(s: Link, E: nat)
    requires E > 0 && Inv(s, E) && AllHaveBytes(s.written) && s.txBuf.Some?
    ensures s.lenToSend > 0
  {
    assert s.txBuf.value in multiset(InFlight(s));
    assert s.txBuf.value in multiset(s.written);
  }

  lemma RoundWorks(s: Link, E: nat)
    requires E > 0 && Inv(s, E) && AllHaveBytes(s.written)
    ensures Inv(Round(s, E), E)
    ensures Round(s, E).written == s.written
    ensures Work(Round(s, E)) < Work(s) || Work(s) == Work(Round(s, E)) == 0
  {
    var mid := Bulk(s, false, E);
    if s.txBuf.Some? {
      InFlightHasBytes(s, E);
    }
    BulkKeepsCore(s, false, E);
    BulkKeepsAccounts(s, false, multiset{}, E);
    BulkWorks(s, false, E);
    RunTaskKeeps(mid, false, E);
    if mid.tasks != [] {
      TaskWorks(mid, false, E);
    } else if s.txBuf.None? {
      assert s.pending == [];
    }
  }

  /** The driver is idle and exactly these buffers have gone back to the allocator. */
  predicate AllFreed(s: Link, written: seq<Buf>) {
    Drained(s) && s.written == written && multiset(s.freed) == multiset(written)
  }

  lemma NoWorkLeft(s: Link, E: nat)
    requires E > 0 && Inv(s, E) && Work(s) == 0
    ensures AllFreed(s, s.written)
  {
    assert s.pending != [] ==> Queued(s.pending) >= 3;
  }

  lemma {:induction false} RoundsWork(s: Link, n: nat, E: nat)
    requires E > 0 && Inv(s, E) && AllHaveBytes(s.written)
    ensures var s' := Rounds(s, n, E);
      Inv(s', E) && s'.written == s.written && (Work(s') == 0 || Work(s') + n <= Work(s))
    decreases n
  {
    if n == 0 {
    } else {
      RoundsWork(s, n - 1, E);
      RoundWorks(Rounds(s, n - 1, E), E);
    }
  }

  /** From any reachable state, enough rounds free every buffer ever written, if all have bytes. */
  lemma Drains(s: Link, n: nat, E: nat)
    requires E > 0 && Inv(s, E) && AllHaveBytes(s.written) && n >= Work(s)
    ensures AllFreed(Rounds(s, n, E), s.written)
  {
    RoundsWork(s, n, E);
    NoWorkLeft(Rounds(s, n, E), E);
  }

  // ---------------------------------------------------------------- the empty write

  /** A buffer of no bytes is taken and never finished: whatever comes after, the driver
      holds on to it, sends nothing, and queues every later write for ever. */
  lemma {:induction false} EmptyWedges(s: Link, events: seq<Event>, E: nat)
    requires s.txBuf.Some? && s.lenToSend == 0
    ensures var s' := Run(s, events, E);
      s'.txBuf == s.txBuf && s'.packets == s.packets && s'.completed == s.completed
    decreases |events|
  {
    if events == [] {
    } else {
      EmptyWedges(Step(s, events[0], E), events[1..], E);
    }
  }

  // ---------------------------------------------------------------- exactly when everything drains

  function RoundEvents(n: nat): seq<Event> {
    if n == 0 then [] else RoundEvents(n - 1) + [IrqEvent(false), TaskEvent(false)]
  }

  lemma {:induction false} RunAppend(s: Link, a: seq<Event>, b: seq<Event>, E: nat)
    ensures Run(s, a + b, E) == Run(Run(s, a, E), b, E)
    decreases |a|
  {
    if a == [] {
      assert a + b == b;
    } else {
      assert (a + b)[1..] == a[1..] + b;
      RunAppend(Step(s, a[0], E), a[1..], b, E);
    }
  }

  lemma {:induction false} RoundsAreRun(s: Link, n: nat, E: nat)
    ensures Run(s, RoundEvents(n), E) == Rounds(s, n, E)
    decreases n
  {
    if n == 0 {
    } else {
      RoundsAreRun(s, n - 1, E);
      RunAppend(s, RoundEvents(n - 1), [IrqEvent(false), TaskEvent(false)], E);
      OneRound(Rounds(s, n - 1, E), E);
    }
  }

  lemma OneRound(s: Link, E: nat)
    ensures Run(s, [IrqEvent(false), TaskEvent(false)], E) == Round(s, E)
  {
    var irq, task := IrqEvent(false), TaskEvent(false);
    assert [irq, task][1..] == [task] && [task][1..] == [];
    assert Run(s, [irq, task], E) == Run(Bulk(s, false, E), [task], E);
  }

  /** These events bring the driver back to idle. */
  predicate DrainedBy(s: Link, more: seq<Event>, E: nat) {
    Drained(Run(s, more, E))
  }

  /** They bring it back with every buffer freed that was written before them, and no other. */
  predicate FreedBy(s: Link, more: seq<Event>, E: nat) {
    AllFreed(Run(s, more, E), s.written)
  }

  ghost predicate CanDrain(s: Link, E: nat) {
    exists more :: DrainedBy(s, more, E)
  }

  ghost predicate CanFreeAll(s: Link, E: nat) {
    exists more :: FreedBy(s, more, E)
  }

  /** From a state that holds to the invariant, if no empty buffer was ever written, some run
      frees everything. */
  lemma SomeRunDrains(s: Link, E: nat)
    requires E > 0 && Inv(s, E) && AllHaveBytes(s.written)
    ensures CanDrain(s, E) && CanFreeAll(s, E)
  {
    Drains(s, Work(s), E);
    RoundsAreRun(s, Work(s), E);
    var more := RoundEvents(Work(s));
    assert DrainedBy(s, more, E) && FreedBy(s, more, E);
  }

  /** Otherwise none does: the empty buffer cannot have been completed, so it is in flight or
      pending for ever. */
  lemma NeverDrains(s: Link, E: nat)
    requires E > 0 && Inv(s, E) && !AllHaveBytes(s.written)
    ensures !CanDrain(s, E) && !CanFreeAll(s, E)
  {
    forall more
      ensures !DrainedBy(s, more, E) && !FreedBy(s, more, E)
    {
      RunKeeps(s, more, E);
      WrittenGrows(s, more, E);
      EmptyStuck(Run(s, more, E), E);
    }
  }

  lemma EmptyStuck(s: Link, E: nat)
    requires E > 0 && Inv(s, E) && !AllHaveBytes(s.written)
    ensures s.txBuf.Some? || s.pending != []
  {
    var b :| b in s.written && b.data == [];
    assert b in multiset(s.written);
    assert b !in s.completed;
    assert forall x :: x in multiset(s.tasks) || x in multiset(s.freed) ==> x in s.completed;
    assert b in multiset(InFlight(s)) || b in multiset(s.pending);
  }

  /** The driver can get back to idle, with every buffer freed, exactly when no empty buffer
      was ever written to it. */
  lemma DrainsIff(s: Link, E: nat)
    requires E > 0 && Inv(s, E)
    ensures CanDrain(s, E) <==> AllHaveBytes(s.written)
    ensures CanFreeAll(s, E) <==> AllHaveBytes(s.written)
  {
    if AllHaveBytes(s.written) {
      SomeRunDrains(s, E);
    } else {
      NeverDrains(s, E);
    }
  }

  /** From start-up on: exactly when no write among the events was empty. */
  lemma RunDrainsIff(events: seq<Event>, E: nat)
    requires E > 0
    ensures var s := Run(IDLE, events, E);
      && s.written == Writes(events)
      && (CanDrain(s, E) <==> AllHaveBytes(Writes(events)))
      && (CanFreeAll(s, E) <==> AllHaveBytes(Writes(events)))
  {
    InitInv(E);
    RunKeeps(IDLE, events, E);
    WrittenGrows(IDLE, events, E);
    DrainsIff(Run(IDLE, events, E), E);
  }

  /** A write to a free driver or behind a transfer keeps the driver able to get back to idle
      exactly when it has bytes. */
  lemma WriteFinishesIff(s: Link, buf: Buf, busy: bool, E: nat)
    requires E > 0 && Inv(s, E)
    ensures CanDrain(Write(s, buf, busy, E), E) <==> CanDrain(s, E) && buf.data != []
  {
    var write := WriteEvent(buf, busy);
    StepKeeps(s, write, E);
    StepWrites(s, write, E);
    DrainsIff(s, E);
    DrainsIff(Step(s, write, E), E);
    assert AllHaveBytes(s.written + [buf]) <==> AllHaveBytes(s.written) && buf.data != [] by {
      assert (s.written + [buf])[|s.written|] == buf;
    }
  }
}
