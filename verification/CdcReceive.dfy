/** The CDC receiver: packets in, messages out; ble_lt_sdk/proj/app/usbcdc.c with the
    handler of ble_lt_sdk/proj/drivers/usb_uart.c. */
module CdcReceive {
  import opened Common
  import opened CdcTransport

  // ---------------------------------------------------------------- the specification

  datatype RxEvent = Packet(data: seq<u8>) | Timeout

  /** Messages delivered, and the bytes of the one still coming in */
  datatype Stream = Stream(messages: seq<seq<u8>>, partial: seq<u8>, timing: bool)

  const QUIET: Stream := Stream([], [], false)

  /** A packet shorter than the endpoint ends a message, whatever its length; a time-out
      ends one that a full packet left open. */
  function Receive(s: Stream, e: RxEvent, E: nat): Stream {
    match e
    case Packet(data) =>
      var message := s.partial + data;
      if |data| == E then Stream(s.messages, message, true)
      else Stream(s.messages + [message], [], false)
    case Timeout =>
      if s.timing then Stream(s.messages + [s.partial], [], false) else s
  }

  function ReceiveAll(s: Stream, events: seq<RxEvent>, E: nat): Stream {
    if events == [] then s
    else Receive(ReceiveAll(s, events[..|events| - 1], E), events[|events| - 1], E)
  }

  function AsPackets(chunks: seq<seq<u8>>): seq<RxEvent> {
    seq(|chunks|, i requires 0 <= i < |chunks| => Packet(chunks[i]))
  }

  // ---------------------------------------------------------------- nothing lost, nothing made up

  function Arrived(events: seq<RxEvent>): seq<u8> {
    if events == [] then []
    else Arrived(events[..|events| - 1]) + Brought(events[|events| - 1])
  }

  function Brought(e: RxEvent): seq<u8> {
    match e
    case Packet(data) => data
    case Timeout => []
  }

  lemma {:induction false} FlattenSnoc(a: seq<seq<u8>>, b: seq<u8>)
    ensures Flatten(a + [b]) == Flatten(a) + b
  {
    FlattenAppend(a, [b]);
    assert Flatten([b]) == b + Flatten([b][1..]);
  }

  /** Every byte that came in is in a message or in the open one, once and in order. */
  lemma {:induction false} ReceiveConserves(events: seq<RxEvent>, E: nat)
    ensures var s := ReceiveAll(QUIET, events, E);
      && Flatten(s.messages) + s.partial == Arrived(events)
      && (s.partial != [] ==> s.timing)
  {
    if events == [] {
    } else {
      var init, e := events[..|events| - 1], events[|events| - 1];
      ReceiveConserves(init, E);
      EventConserves(ReceiveAll(QUIET, init, E), e, E, Arrived(init));
    }
  }

  lemma EventConserves(s: Stream, e: RxEvent, E: nat, arrived: seq<u8>)
    requires Flatten(s.messages) + s.partial == arrived
    ensures var s' := Receive(s, e, E);
      Flatten(s'.messages) + s'.partial == arrived + Brought(e)
  {
    FlattenSnoc(s.messages, s.partial);
    if e.Packet? {
      FlattenSnoc(s.messages, s.partial + e.data);
      AppendAssoc(Flatten(s.messages), s.partial, e.data);
    }
  }

  /** How many full packets have come since the last short one or time-out */
  function FullSince(events: seq<RxEvent>, E: nat): nat {
    if events == [] then 0 else
    match events[|events| - 1]
    case Packet(data) => if |data| == E then 1 + FullSince(events[..|events| - 1], E) else 0
    case Timeout => 0
  }

  /** How many packets were short, or time-outs found full packets waiting */
  function Deliveries(events: seq<RxEvent>, E: nat): nat {
    if events == [] then 0 else
    var init := events[..|events| - 1];
    Deliveries(init, E) +
      match events[|events| - 1]
      case Packet(data) => if |data| == E then 0 else 1
      case Timeout => if FullSince(init, E) > 0 then 1 else 0
  }

  /** A message is delivered at each of those and at nothing else; and the timer is on exactly
      when full packets wait. */
  lemma {:induction false} DeliveriesCounted(events: seq<RxEvent>, E: nat)
    requires E > 0
    ensures var s := ReceiveAll(QUIET, events, E);
      && |s.messages| == Deliveries(events, E)
      && |s.partial| == FullSince(events, E) * E
      && (s.timing <==> FullSince(events, E) > 0)
      && (s.timing <==> s.partial != [])
  {
    if events == [] {
    } else {
      var init, e := events[..|events| - 1], events[|events| - 1];
      DeliveriesCounted(init, E);
      OneFullMore(FullSince(init, E), E);
      assert FullSince(events, E) > 0 ==> FullSince(events, E) * E > 0;
    }
  }

  lemma OneFullMore(n: nat, E: nat)
    requires E > 0
    ensures (1 + n) * E == n * E + E
    ensures n > 0 ==> n * E > 0
  {
  }

  lemma {:induction false} ReceiveAppend(s: Stream, a: seq<RxEvent>, b: seq<RxEvent>, E: nat)
    ensures ReceiveAll(s, a + b, E) == ReceiveAll(ReceiveAll(s, a, E), b, E)
    decreases |b|
  {
    if b == [] {
      assert a + b == a;
    } else {
      var init := b[..|b| - 1];
      assert (a + b)[..|a + b| - 1] == a + init;
      ReceiveAppend(s, a, init, E);
    }
  }

  // ---------------------------------------------------------------- sender to receiver

  lemma {:induction false} WholeEnds(data: seq<u8>, E: nat)
    requires E > 0 && data != []
    ensures Whole(|data|, E) <==> |Chunks(data, E)[|Chunks(data, E)| - 1]| == E
    decreases |data|
  {
    if |data| > E {
      WholeEnds(data[E..], E);
      assert Chunks(data, E)[1..] == Chunks(data[E..], E);
    } else {
      assert Whole(|data|, E) <==> |data| == E;
    }
  }

  lemma {:induction false} FullPacketsStayOpen(s: Stream, chunks: seq<seq<u8>>, E: nat)
    requires forall i :: 0 <= i < |chunks| ==> |chunks[i]| == E
    ensures ReceiveAll(s, AsPackets(chunks), E)
         == Stream(s.messages, s.partial + Flatten(chunks), s.timing || chunks != [])
  {
    if chunks == [] {
      assert s.partial + [] == s.partial;
    } else {
      var init, last := chunks[..|chunks| - 1], chunks[|chunks| - 1];
      FullPacketsStayOpen(s, init, E);
      assert AsPackets(chunks)[..|chunks| - 1] == AsPackets(init);
      assert chunks == init + [last];
      FlattenSnoc(init, last);
      assert (s.partial + Flatten(init)) + last == s.partial + Flatten(chunks);
    }
  }

  /** Full packets and a short one are one message, with whatever was open before them; full
      packets and a time-out are one too. */
  lemma MessageArrives(s: Stream, full: seq<seq<u8>>, short: seq<u8>, E: nat)
    requires (forall i :: 0 <= i < |full| ==> |full[i]| == E) && |short| != E
    ensures ReceiveAll(s, AsPackets(full) + [Packet(short)], E)
         == Stream(s.messages + [s.partial + Flatten(full) + short], [], false)
    ensures full != [] ==>
      ReceiveAll(s, AsPackets(full) + [Timeout], E) == Stream(s.messages + [s.partial + Flatten(full)], [], false)
  {
    FullPacketsStayOpen(s, full, E);
    var packets := AsPackets(full);
    assert (packets + [Packet(short)])[..|packets|] == packets;
    assert (packets + [Timeout])[..|packets|] == packets;
  }

  /** What a receiver makes of a buffer's packets: the last one ends a message exactly when the
      buffer is not a whole number of packets. */
  function Taken(s: Stream, data: seq<u8>, E: nat): Stream
    requires E > 0
  {
    if Whole(|data|, E) then Stream(s.messages, s.partial + data, true)
    else Stream(s.messages + [s.partial + data], [], false)
  }

  lemma BufferTaken(s: Stream, data: seq<u8>, E: nat)
    requires E > 0 && data != []
    ensures ReceiveAll(s, AsPackets(Chunks(data, E)), E) == Taken(s, data, E)
  {
    var chunks := Chunks(data, E);
    ChunksCover(data, E);
    WholeEnds(data, E);
    var init, last := chunks[..|chunks| - 1], chunks[|chunks| - 1];
    FullPacketsStayOpen(s, init, E);
    assert AsPackets(chunks)[..|chunks| - 1] == AsPackets(init);
    assert chunks == init + [last];
    FlattenSnoc(init, last);
    AppendAssoc(s.partial, Flatten(init), last);
  }

  /** One end's sender against the other end's receiver: the buffer arrives as one message
      at its last packet exactly when it is not a whole number of packets.  Otherwise the
      sender adds no empty packet, and the message waits for the time-out. */
  lemma SentIsReceived(data: seq<u8>, E: nat)
    requires E > 0 && data != []
    ensures var s := ReceiveAll(QUIET, AsPackets(Chunks(data, E)), E);
      && (!Whole(|data|, E) <==> s == Stream([data], [], false))
      && (Whole(|data|, E) ==> s == Stream([], data, true) && Receive(s, Timeout, E) == Stream([data], [], false))
  {
    BufferTaken(QUIET, data, E);
    assert [] + data == data;
  }

  // ---------------------------------------------------------------- one buffer after another

  /** Buffers received back to back */
  function AllTaken(bufs: seq<Buf>, E: nat): Stream
    requires E > 0
  {
    if bufs == [] then QUIET else Taken(AllTaken(bufs[..|bufs| - 1], E), bufs[|bufs| - 1].data, E)
  }

  lemma AsPacketsAppend(a: seq<seq<u8>>, b: seq<seq<u8>>)
    ensures AsPackets(a + b) == AsPackets(a) + AsPackets(b)
  {
  }

  lemma {:induction false} BuffersTaken(bufs: seq<Buf>, E: nat)
    requires E > 0 && forall b :: b in bufs ==> b.data != []
    ensures ReceiveAll(QUIET, AsPackets(AllChunks(bufs, E)), E) == AllTaken(bufs, E)
  {
    if bufs == [] {
    } else {
      var init, last := bufs[..|bufs| - 1], bufs[|bufs| - 1];
      BuffersTaken(init, E);
      AsPacketsAppend(AllChunks(init, E), Chunks(last.data, E));
      ReceiveAppend(QUIET, AsPackets(AllChunks(init, E)), AsPackets(Chunks(last.data, E)), E);
      BufferTaken(AllTaken(init, E), last.data, E);
    }
  }

  function Datas(bufs: seq<Buf>): seq<seq<u8>> {
    seq(|bufs|, i requires 0 <= i < |bufs| => bufs[i].data)
  }

  ghost predicate NoneWhole(bufs: seq<Buf>, E: nat)
    requires E > 0
  {
    forall b :: b in bufs ==> !Whole(|b.data|, E)
  }

  /** Every buffer arrives as a message of its own exactly when none is a whole number of
      packets; any that is runs into the next. */
  lemma {:induction false} BoundariesKept(bufs: seq<Buf>, E: nat)
    requires E > 0
    ensures |AllTaken(bufs, E).messages| <= |bufs|
    ensures AllTaken(bufs, E).messages == Datas(bufs) <==> NoneWhole(bufs, E)
    ensures NoneWhole(bufs, E) ==> AllTaken(bufs, E).partial == []
  {
    if bufs == [] {
    } else {
      var init, last := bufs[..|bufs| - 1], bufs[|bufs| - 1];
      BoundariesKept(init, E);
      assert bufs == init + [last];
      assert NoneWhole(bufs, E) <==> NoneWhole(init, E) && !Whole(|last.data|, E);
      var s, s' := AllTaken(init, E), AllTaken(bufs, E);
      if !Whole(|last.data|, E) {
        assert s'.messages[..|s'.messages| - 1] == s.messages;
        assert Datas(bufs)[..|bufs| - 1] == Datas(init);
        assert [] + last.data == last.data;
      }
    }
  }

  lemma {:induction false} ArrivedPackets(chunks: seq<seq<u8>>)
    ensures Arrived(AsPackets(chunks)) == Flatten(chunks)
  {
    if chunks == [] {
    } else {
      var init, last := chunks[..|chunks| - 1], chunks[|chunks| - 1];
      ArrivedPackets(init);
      assert AsPackets(chunks)[..|chunks| - 1] == AsPackets(init);
      assert chunks == init + [last];
      FlattenSnoc(init, last);
    }
  }

  lemma {:induction false} FullChunksAreFull(data: seq<u8>, k: nat, E: nat)
    requires E > 0 && k <= |data|
    ensures forall i :: 0 <= i < |FullChunks(data, k, E)| ==> |FullChunks(data, k, E)[i]| == E
    decreases k
  {
    if k < E {
    } else {
      FullChunksAreFull(data[E..], k - E, E);
    }
  }

  /** The packets of the transfer in progress stay open, and are the sent part of its buffer. */
  lemma StartedStaysOpen(s: Link, r: Stream, E: nat)
    requires E > 0 && Core(s, E)
    ensures var r' := ReceiveAll(r, AsPackets(Started(s, E)), E);
      r'.messages == r.messages && r'.partial == r.partial + SentPart(s)
  {
    if s.txBuf.Some? {
      var data, k := s.txBuf.value.data, s.lastSendIndex;
      FullChunksAreFull(data, k, E);
      FlattenFull(data, k, E);
      FullPacketsStayOpen(r, Started(s, E), E);
    } else {
      assert SentPart(s) == [];
    }
  }

  /** Driver to driver, after any run of the sender: the receiver has the bytes of the completed
      buffers and of the sent part of the one in flight, in order; and the completed buffers
      themselves as its messages exactly when none of them is a whole number of packets. */
  lemma SenderToReceiver(events: seq<Event>, E: nat)
    requires E > 0
    ensures var s := Run(IDLE, events, E);
      var r := ReceiveAll(QUIET, AsPackets(s.packets), E);
      && Flatten(r.messages) + r.partial == Payload(s.completed) + SentPart(s)
      && (r.messages == Datas(s.completed) <==> NoneWhole(s.completed, E))
      && (NoneWhole(s.completed, E) ==> r.partial == SentPart(s))
  {
    var s := Run(IDLE, events, E);
    RunSafe(events, E);
    ReceiveConserves(AsPackets(s.packets), E);
    ArrivedPackets(s.packets);
    var done, started := AllChunks(s.completed, E), Started(s, E);
    AsPacketsAppend(done, started);
    ReceiveAppend(QUIET, AsPackets(done), AsPackets(started), E);
    BuffersTaken(s.completed, E);
    BoundariesKept(s.completed, E);
    StartedStaysOpen(s, AllTaken(s.completed, E), E);
  }

  // ---------------------------------------------------------------- the driver

  /** The receiving half of cdc_ctrl_t, with the fresh buffers of the UART handler */
  class Receiver {
    const epSize: nat
    const bufSize: nat                    // of a LARGE_BUFFER
    var rxBuf: array<u8>
    var lastIndex: nat                    // a u8
    var timerOn: bool
    var delivered: seq<array<u8>>         // handed to usb_uart_cbFn, oldest first
    ghost var messages: seq<seq<u8>>      // what each of those begins with

    ghost predicate Valid()
      reads this, rxBuf, delivered
    {
      && epSize > 0
      && bufSize <= 255
      && rxBuf.Length == bufSize
      && lastIndex <= bufSize
      && rxBuf !in delivered
      && |messages| == |delivered|
      && (forall i :: 0 <= i < |delivered| ==> messages[i] <= delivered[i][..])
    }

    ghost function State(): Stream
      requires Valid()
      reads this, rxBuf, delivered
    {
      Stream(messages, rxBuf[..lastIndex], timerOn)
    }

    /** usbcdc_init and the first usbcdc_setRxBuf */
    constructor (epSize: nat, bufSize: nat)
      requires epSize > 0 && bufSize <= 255
      ensures Valid() && State() == QUIET && fresh(rxBuf)
      ensures this.epSize == epSize && this.bufSize == bufSize
    {
      this.epSize, this.bufSize := epSize, bufSize;
      rxBuf := new u8[bufSize];
      lastIndex, timerOn, delivered, messages := 0, false, [], [];
    }

    /** Clearing the buffer and calling usb_uart_rxHandler, which hands it on and sets
        another in its place */
    method Deliver()
      requires Valid()
      modifies this
      ensures Valid() && fresh(rxBuf) && timerOn == old(timerOn)
      ensures State() == Stream(old(messages) + [old(rxBuf[..lastIndex])], [], timerOn)
      ensures delivered == old(delivered) + [old(rxBuf)]
    {
      messages := messages + [rxBuf[..lastIndex]];
      lastIndex := 0;
      var p := rxBuf;
      delivered := delivered + [p];
      rxBuf := new u8[bufSize](_ => 0);
    }

    /** usbcdc_recvData, for a packet the buffer has room for */
    method RecvData(packet: seq<u8>)
      requires Valid() && lastIndex + |packet| <= bufSize
      modifies this, rxBuf
      ensures Valid() && State() == Receive(old(State()), Packet(packet), epSize)
      ensures delivered == old(delivered) + if |packet| == epSize then [] else [old(rxBuf)]
      ensures rxBuf == old(rxBuf) || fresh(rxBuf)
    {
      timerOn := false;
      var fEnd := |packet| != epSize;
      ghost var partial := rxBuf[..lastIndex];
      var i := 0;
      while i < |packet|
        invariant 0 <= i <= |packet|
        invariant lastIndex == old(lastIndex) + i
        invariant unchanged(`rxBuf) && unchanged(`delivered) && unchanged(`messages) && !timerOn
        invariant rxBuf[..lastIndex] == partial + packet[..i]
        invariant Valid()
      {
        rxBuf[lastIndex] := packet[i];
        lastIndex := lastIndex + 1;
        i := i + 1;
      }
      assert packet[..i] == packet;
      if fEnd {
        Deliver();
      } else {
        timerOn := true;
      }
    }

    /** There is room for every packet when it comes. */
    ghost predicate Roomy(s: Stream, events: seq<RxEvent>) {
      forall i :: 0 <= i < |events| && events[i].Packet? ==>
        |ReceiveAll(s, events[..i], epSize).partial| + |events[i].data| <= bufSize
    }

    /** Any sequence of packets and time-outs; a time-out comes to nothing when the timer is off. */
    method Drive(events: seq<RxEvent>)
      requires Valid() && Roomy(State(), events)
      modifies this, rxBuf
      ensures Valid() && State() == ReceiveAll(old(State()), events, epSize)
      ensures rxBuf == old(rxBuf) || fresh(rxBuf)
    {
      ghost var start := State();
      assert events[..0] == [];
      for i := 0 to |events|
        invariant Valid() && State() == ReceiveAll(start, events[..i], epSize)
        invariant rxBuf == old(rxBuf) || fresh(rxBuf)
      {
        assert events[..i + 1][..i] == events[..i];
        match events[i] {
          case Packet(data) => RecvData(data);
          case Timeout =>
            if timerOn {
              RecvTimeoutCb();
            }
        }
      }
      assert events[..|events|] == events;
    }

    /** usbcdc_recvTimeoutCb, which the scheduler calls while the timer is on */
    method RecvTimeoutCb()
      requires Valid() && timerOn
      modifies this
      ensures Valid() && State() == Receive(old(State()), Timeout, epSize)
      ensures delivered == old(delivered) + [old(rxBuf)] && fresh(rxBuf)
    {
      Deliver();
      timerOn := false;
    }
  }
}
