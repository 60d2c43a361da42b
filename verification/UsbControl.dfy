/** The USB control endpoint: ble_lt_sdk/proj/drivers/usb.c, the branch for the chip. */
module UsbControl {
  import opened Common
  import opened UsbClass

  /** USB_Request_Header_t */
  datatype Header = Header(bmRequestType: u8, bRequest: u8, wValue: u16, wIndex: u16, wLength: u16)

  const GET_DESCRIPTOR: u8 := 6
  const DEVICE_IN: u8 := 0x80              // device to host, standard, device
  const INTERFACE_IN: u8 := 0x81           // device to host, standard, interface
  const INTERFACE_OUT: u8 := 0x01          // host to device, standard, interface
  const DTYPE_DEVICE: u8 := 1
  const DTYPE_CONFIGURATION: u8 := 2
  const DTYPE_STRING: u8 := 3
  const DTYPE_HID: u8 := 0x21
  const DTYPE_REPORT: u8 := 0x22

  type Bytes = s: seq<u8> | |s| < 0x1_0000

  /** The descriptors compiled in, whether the custom report is, and host_cmd_paring_ok */
  datatype Config = Config(
    device: Bytes,
    configuration: Bytes,
    strings: map<int, Bytes>,
    hid: map<int, Bytes>,
    report: map<int, Bytes>,
    customReport: bool,
    paired: bool
  )

  const CLASS_INTERFACE_OUT: u8 := 0x21
  const CLASS_ENDPOINT_OUT: u8 := 0x22
  const CLASS_INTERFACE_IN: u8 := 0xa1
  const CLASS_ENDPOINT_IN: u8 := 0xa2

  /** control_request, g_response and how far into the descriptor it points, g_response_len,
      g_stall, and the globals of the class requests */
  datatype Control = Control(request: Header, response: seq<u8>, pos: nat, len: nat, stall: bool, device: Device)

  predicate Sound(s: Control) {
    s.pos + s.len <= |s.response|
  }

  datatype Reply = Ack(data: seq<u8>) | Stall

  // ---------------------------------------------------------------- the handlers as functions

  /** The eight bytes of a SETUP packet, words low byte first */
  function ReadHeader(p: Packet8): Header {
    Header(p[0], p[1], Pair16(p[2], p[3]), Pair16(p[4], p[5]), Pair16(p[6], p[7]))
  }

  /** The descriptor a device-level request asks for */
  function Asked(cfg: Config, h: Header): Option<Bytes> {
    var (high, low) := (h.wValue / 256, h.wValue % 256);
    if high == DTYPE_DEVICE then Some(cfg.device)
    else if high == DTYPE_CONFIGURATION then Some(cfg.configuration)
    else if high == DTYPE_STRING && low in cfg.strings then Some(cfg.strings[low])
    else None
  }

  /** The interface descriptor, if this interface has one */
  function AskedOfInterface(cfg: Config, h: Header): Option<Bytes> {
    var (high, index) := (h.wValue / 256, h.wIndex % 256);
    if high == DTYPE_HID && index in cfg.hid then Some(cfg.hid[index])
    else if high == DTYPE_REPORT && index in cfg.report then Some(cfg.report[index])
    else None
  }

  function Clip(s: Control): Control {
    if s.request.wLength < s.len then s.(len := s.request.wLength) else s
  }

  /** usb_prepare_desc_data */
  function PrepareDevice(cfg: Config, s: Control): Control {
    var d := Asked(cfg, s.request);
    if d.Some? then Clip(s.(response := d.value, pos := 0, len := |d.value|))
    else s.(response := [], pos := 0, len := 0, stall := true)
  }

  /** usb_handle_std_intf_req: an interface that has no such descriptor leaves the response
      that was there. */
  function PrepareInterface(cfg: Config, s: Control): Control {
    var d := AskedOfInterface(cfg, s.request);
    if d.Some? then Clip(s.(response := d.value, pos := 0, len := |d.value|))
    else Clip(s.(stall := s.stall || s.request.wValue / 256 == DTYPE_REPORT))
  }

  /** usb_send_response */
  function Packet(s: Control): seq<u8> {
    if Sound(s) then s.response[s.pos..s.pos + if s.len < 8 then s.len else 8] else []
  }

  function Sent(s: Control): Control {
    var n := if s.len < 8 then s.len else 8;
    s.(pos := s.pos + n, len := s.len - n)
  }

  /** usb_handle_request, with what the endpoint's buffer holds */
  function Handle(cfg: Config, s: Control, setup: bool, input: Packet8): (Control, seq<u8>) {
    var h := s.request;
    if h.bmRequestType == DEVICE_IN then
      if h.bRequest == GET_DESCRIPTOR then
        var ready := if setup then PrepareDevice(cfg, s) else s;
        (Sent(ready), Packet(ready))
      else (s, [])
    else if h.bmRequestType == INTERFACE_IN then
      if h.bRequest == GET_DESCRIPTOR then
        var ready := if setup then PrepareInterface(cfg, s) else s;
        (Sent(ready), Packet(ready))
      else (s, [])
    else if h.bmRequestType == CLASS_INTERFACE_OUT then
      var (device, stalls) := OutClass(s.device, cfg.customReport, h.bRequest, h.wValue, !setup, input);
      (s.(device := device, stall := s.stall || stalls), [])
    else if h.bmRequestType == CLASS_INTERFACE_IN then
      var (bytes, stalls) := InClass(s.device, cfg.customReport, cfg.paired, h.bRequest, h.wValue);
      (s.(stall := s.stall || stalls), bytes)
    else if h.bmRequestType == CLASS_ENDPOINT_OUT || h.bmRequestType == CLASS_ENDPOINT_IN then (s, [])
    else if h.bmRequestType == INTERFACE_OUT then (s, [])
    else (s.(stall := true), [])
  }

  function Answer(r: (Control, seq<u8>)): (Control, Reply) {
    (r.0, if r.0.stall then Stall else Ack(r.1))
  }

  /** usb_handle_ctl_ep_setup and usb_handle_ctl_ep_data */
  function Setup(cfg: Config, s: Control, p: Packet8): (Control, Reply) {
    Answer(Handle(cfg, s.(request := ReadHeader(p), stall := false), true, p))
  }

  function Data(cfg: Config, s: Control, input: Packet8): (Control, Reply) {
    Answer(Handle(cfg, s.(stall := false), false, input))
  }

  /** The replies to DATA events, whatever is in the buffer at each */
  function DataReplies(cfg: Config, s: Control, inputs: seq<Packet8>): seq<Reply>
    decreases |inputs|
  {
    if inputs == [] then []
    else [Data(cfg, s, inputs[0]).1] + DataReplies(cfg, Data(cfg, s, inputs[0]).0, inputs[1..])
  }

  // ---------------------------------------------------------------- fragmentation

  /** The i-th packet of a transfer in packets of eight, empty once the bytes are out */
  function Fragment(want: seq<u8>, i: nat): seq<u8> {
    if 8 * i >= |want| then []
    else if 8 * i + 8 >= |want| then want[8 * i..]
    else want[8 * i..8 * i + 8]
  }

  function Joined(replies: seq<Reply>): seq<u8> {
    if replies == [] then []
    else Joined(replies[..|replies| - 1]) + match replies[|replies| - 1] { case Ack(d) => d case Stall => [] }
  }

  predicate IsDescriptorRequest(h: Header) {
    (h.bmRequestType == DEVICE_IN || h.bmRequestType == INTERFACE_IN) && h.bRequest == GET_DESCRIPTOR
  }

  function AskedBy(cfg: Config, h: Header): Option<Bytes> {
    if h.bmRequestType == DEVICE_IN then Asked(cfg, h) else AskedOfInterface(cfg, h)
  }

  /** What the host should get: the descriptor, or as much of it as it has asked for */
  function Wanted(cfg: Config, h: Header): seq<u8>
    requires AskedBy(cfg, h).Some?
  {
    var d := AskedBy(cfg, h).value;
    if h.wLength < |d| then d[..h.wLength] else d
  }

  /** A response of which i packets have gone */
  predicate Responding(s: Control, want: seq<u8>, i: nat) {
    && IsDescriptorRequest(s.request)
    && Sound(s)
    && s.len == (if 8 * i >= |want| then 0 else |want| - 8 * i)
    && (8 * i < |want| ==> s.response[s.pos..s.pos + s.len] == want[8 * i..])
  }

  lemma DataSendsFragment(cfg: Config, s: Control, input: Packet8, want: seq<u8>, i: nat)
    requires Responding(s, want, i)
    ensures Data(cfg, s, input).1 == Ack(Fragment(want, i))
    ensures Responding(Data(cfg, s, input).0, want, i + 1)
  {
    var now := s.(stall := false);
    ResponseParts(now, want, i);
    assert Data(cfg, s, input) == (Sent(now), Ack(Packet(now)));
  }

  lemma ResponseParts(s: Control, want: seq<u8>, i: nat)
    requires Responding(s, want, i)
    ensures Packet(s) == Fragment(want, i) && Responding(Sent(s), want, i + 1)
  {
    var n := if s.len < 8 then s.len else 8;
    SliceParts(s.response, s.pos, s.pos + n, s.pos + s.len);
    if 8 * i < |want| {
      SliceParts(want, 8 * i, 8 * i + n, |want|);
      assert want[8 * i..|want|] == want[8 * i..];
      assert want[8 * i + n..|want|] == want[8 * i + n..];
    }
  }

  lemma SetupStarts(cfg: Config, s: Control, p: Packet8)
    requires IsDescriptorRequest(ReadHeader(p)) && AskedBy(cfg, ReadHeader(p)).Some?
    ensures var want := Wanted(cfg, ReadHeader(p));
      Setup(cfg, s, p).1 == Ack(Fragment(want, 0)) && Responding(Setup(cfg, s, p).0, want, 1)
  {
    var h := ReadHeader(p);
    var want := Wanted(cfg, h);
    var begun := s.(request := h, stall := false);
    var ready := if h.bmRequestType == DEVICE_IN then PrepareDevice(cfg, begun) else PrepareInterface(cfg, begun);
    assert ready.response[0..ready.len] == want;
    assert Responding(ready, want, 0);
    DataSendsFragment(cfg, ready, p, want, 0);
  }

  lemma {:induction false} DataSendsFragments(cfg: Config, s: Control, inputs: seq<Packet8>, want: seq<u8>, i: nat)
    requires Responding(s, want, i)
    ensures AreFragments(DataReplies(cfg, s, inputs), want, i, |inputs|)
    decreases |inputs|
  {
    if inputs == [] {
    } else {
      DataSendsFragment(cfg, s, inputs[0], want, i);
      var s' := Data(cfg, s, inputs[0]).0;
      DataSendsFragments(cfg, s', inputs[1..], want, i + 1);
      OneMore(Fragment(want, i), DataReplies(cfg, s', inputs[1..]), want, i, |inputs|);
    }
  }

  /** These replies are the n packets from the i-th on. */
  ghost predicate AreFragments(replies: seq<Reply>, want: seq<u8>, i: nat, n: nat) {
    |replies| == n && forall k :: 0 <= k < n ==> replies[k] == Ack(Fragment(want, i + k))
  }

  lemma OneMore(data: seq<u8>, replies: seq<Reply>, want: seq<u8>, i: nat, n: nat)
    requires n > 0 && data == Fragment(want, i) && AreFragments(replies, want, i + 1, n - 1)
    ensures AreFragments([Ack(data)] + replies, want, i, n)
  {
    var all := [Ack(data)] + replies;
    forall k | 0 <= k < n
      ensures all[k] == Ack(Fragment(want, i + k))
    {
      if k > 0 {
        assert all[k] == replies[k - 1] == Ack(Fragment(want, i + 1 + (k - 1)));
      }
    }
  }

  lemma FragmentsSnoc(replies: seq<Reply>, want: seq<u8>, n: nat, reply: Reply)
    requires AreFragments(replies, want, 0, n) && reply == Ack(Fragment(want, n))
    ensures AreFragments(replies + [reply], want, 0, n + 1)
  {
  }

  lemma {:induction false} FragmentsJoin(want: seq<u8>, replies: seq<Reply>)
    requires AreFragments(replies, want, 0, |replies|)
    ensures Joined(replies) == if 8 * |replies| >= |want| then want else want[..8 * |replies|]
  {
    if replies == [] {
    } else {
      FragmentsJoin(want, replies[..|replies| - 1]);
    }
  }

  lemma FragmentSize(want: seq<u8>, k: nat)
    ensures |Fragment(want, k)| <= 8
    ensures k < |want| / 8 ==> |Fragment(want, k)| == 8
    ensures k == |want| / 8 ==> |Fragment(want, k)| == |want| % 8
  {
  }

  /** The packets of the wanted bytes in order, all of them once there are enough, none over
      eight bytes, and the first short one where the data ends, so that the host sees the end
      (section 8.5.3.2 of USB 2.0) */
  ghost predicate Delivers(replies: seq<Reply>, want: seq<u8>) {
    && Joined(replies) == (if 8 * |replies| >= |want| then want else want[..8 * |replies|])
    && forall k :: 0 <= k < |replies| ==>
        && replies[k].Ack?
        && |replies[k].data| <= 8
        && (k < |want| / 8 ==> |replies[k].data| == 8)
        && (k == |want| / 8 ==> |replies[k].data| == |want| % 8)
  }

  lemma FragmentsDeliver(replies: seq<Reply>, want: seq<u8>)
    requires AreFragments(replies, want, 0, |replies|)
    ensures Delivers(replies, want)
  {
    FragmentsJoin(want, replies);
    forall k | 0 <= k < |replies|
      ensures |replies[k].data| <= 8
      ensures k < |want| / 8 ==> |replies[k].data| == 8
      ensures k == |want| / 8 ==> |replies[k].data| == |want| % 8
    {
      FragmentSize(want, k);
    }
  }

  /** The replies are the first n bytes of d, cut every eight. */
  ghost predicate InPackets(replies: seq<Reply>, d: seq<u8>, n: nat)
    requires n <= |d|
  {
    forall k :: 0 <= k < |replies| ==>
      replies[k] == Ack(d[if 8 * k < n then 8 * k else n..if 8 * k + 8 < n then 8 * k + 8 else n])
  }

  lemma FragmentsInPackets(replies: seq<Reply>, d: seq<u8>, n: nat, want: seq<u8>)
    requires n <= |d| && want == d[..n] && AreFragments(replies, want, 0, |replies|)
    ensures InPackets(replies, d, n)
  {
    forall k | 0 <= k < |replies|
      ensures replies[k] == Ack(d[if 8 * k < n then 8 * k else n..if 8 * k + 8 < n then 8 * k + 8 else n])
    {
      assert replies[k] == Ack(Fragment(want, 0 + k));
    }
  }

  /** This descriptor is what the eight bytes of the SETUP packet ask for: the device's (type 1), the
      configuration's (2) or a string's (3), or for an interface the HID class's (0x21) or the
      report's (0x22).  (Sections 9.3 and 9.4.3 of USB 2.0) */
  predicate AsksFor(cfg: Config, p: Packet8, d: Bytes) {
    p[1] == 6 &&
    if p[0] == 0x80 then
      || (p[3] == 1 && d == cfg.device)
      || (p[3] == 2 && d == cfg.configuration)
      || (p[3] == 3 && p[2] in cfg.strings && d == cfg.strings[p[2]])
    else
      && p[0] == 0x81
      && (|| (p[3] == 0x21 && p[4] in cfg.hid && d == cfg.hid[p[4]])
          || (p[3] == 0x22 && p[4] in cfg.report && d == cfg.report[p[4]]))
  }

  lemma InPacketsOf(cfg: Config, p: Packet8, replies: seq<Reply>, want: seq<u8>)
    requires IsDescriptorRequest(ReadHeader(p)) && AskedBy(cfg, ReadHeader(p)).Some?
    requires want == Wanted(cfg, ReadHeader(p)) && AreFragments(replies, want, 0, |replies|)
    ensures forall d: Bytes :: AsksFor(cfg, p, d) ==>
      var asked := p[6] as int + 0x100 * p[7] as int;
      InPackets(replies, d, if asked < |d| then asked else |d|)
  {
    forall d: Bytes | AsksFor(cfg, p, d)
      ensures var asked := p[6] as int + 0x100 * p[7] as int;
        InPackets(replies, d, if asked < |d| then asked else |d|)
    {
      AskedIs(cfg, p, d);
      var asked := p[6] as int + 0x100 * p[7] as int;
      var n := if asked < |d| then asked else |d|;
      assert want == d[..n];
      FragmentsInPackets(replies, d, n, want);
    }
  }

  lemma WordParts(low: u8, high: u8)
    ensures var w: int := Pair16(low, high);
      w == low as int + 0x100 * high as int && w / 256 == high && w % 256 == low
  {
  }

  lemma AskedIs(cfg: Config, p: Packet8, d: Bytes)
    requires AsksFor(cfg, p, d)
    ensures var h := ReadHeader(p);
      && IsDescriptorRequest(h)
      && AskedBy(cfg, h) == Some(d)
      && h.wLength as int == p[6] as int + 0x100 * p[7] as int
  {
    WordParts(p[2], p[3]);
    WordParts(p[4], p[5]);
    WordParts(p[6], p[7]);
  }

  /** From the bytes of the SETUP packet: the device, configuration and string descriptors, and the
      HID and report descriptors of an interface, go out from the first byte on in packets of
      eight, as many bytes as there are or as the packet's last two bytes ask for, over that
      SETUP and any number of DATA events. */
  lemma DescriptorBytes(cfg: Config, s: Control, p: Packet8, inputs: seq<Packet8>, d: Bytes, n: nat)
    requires p[1] == 6
    requires || (p[0] == 0x80 && p[3] == 1 && d == cfg.device)
             || (p[0] == 0x80 && p[3] == 2 && d == cfg.configuration)
             || (p[0] == 0x80 && p[3] == 3 && p[2] in cfg.strings && d == cfg.strings[p[2]])
             || (p[0] == 0x81 && p[3] == 0x21 && p[4] in cfg.hid && d == cfg.hid[p[4]])
             || (p[0] == 0x81 && p[3] == 0x22 && p[4] in cfg.report && d == cfg.report[p[4]])
    requires var asked := p[6] as int + 0x100 * p[7] as int;
      n == if asked < |d| then asked else |d|
    ensures var r := Setup(cfg, s, p);
      var replies := [r.1] + DataReplies(cfg, r.0, inputs);
      |replies| == 1 + |inputs| &&
      forall k :: 0 <= k < |replies| ==>
        replies[k] == Ack(d[if 8 * k < n then 8 * k else n..if 8 * k + 8 < n then 8 * k + 8 else n])
  {
    AskedIs(cfg, p, d);
    var want := Wanted(cfg, ReadHeader(p));
    var r := Setup(cfg, s, p);
    SetupStarts(cfg, s, p);
    DataSendsFragments(cfg, r.0, inputs, want, 1);
    OneMore(Fragment(want, 0), DataReplies(cfg, r.0, inputs), want, 0, |inputs| + 1);
    assert want == d[..n];
    FragmentsInPackets([r.1] + DataReplies(cfg, r.0, inputs), d, n, want);
  }

  /** Every other device-level descriptor request stalls, and so does every request of a type that
      is none of the seven the driver knows. */
  lemma OthersStall(cfg: Config, s: Control, p: Packet8)
    ensures p[0] == 0x80 && p[1] == 6 && p[3] != 1 && p[3] != 2 && !(p[3] == 3 && p[2] in cfg.strings) ==>
      Setup(cfg, s, p).1 == Stall
    ensures p[0] !in {0x01, 0x21, 0x22, 0x80, 0x81, 0xa1, 0xa2} ==> Setup(cfg, s, p).1 == Stall
    ensures (p[0] == 0x80 || p[0] == 0x81) && p[1] != 6 ==> Setup(cfg, s, p).1 == Ack([])
    ensures p[0] == 0x01 || p[0] == 0x22 || p[0] == 0xa2 ==> Setup(cfg, s, p).1 == Ack([])
    ensures p[0] == 0x81 && p[1] == 6 ==> (Setup(cfg, s, p).1 == Stall <==> p[3] == 0x22 && p[4] !in cfg.report)
  {
    WordParts(p[2], p[3]);
    WordParts(p[4], p[5]);
  }

  /** A descriptor request, of the device or of an interface, and any number of DATA events
      after it deliver what the host asked for. */
  lemma DescriptorDelivered(cfg: Config, s: Control, p: Packet8, inputs: seq<Packet8>)
    requires IsDescriptorRequest(ReadHeader(p)) && AskedBy(cfg, ReadHeader(p)).Some?
    ensures var r := Setup(cfg, s, p);
      Delivers([r.1] + DataReplies(cfg, r.0, inputs), Wanted(cfg, ReadHeader(p)))
  {
    var want := Wanted(cfg, ReadHeader(p));
    var r := Setup(cfg, s, p);
    SetupStarts(cfg, s, p);
    DataSendsFragments(cfg, r.0, inputs, want, 1);
    OneMore(Fragment(want, 0), DataReplies(cfg, r.0, inputs), want, 0, |inputs| + 1);
    FragmentsDeliver([r.1] + DataReplies(cfg, r.0, inputs), want);
  }

  // ---------------------------------------------------------------- what a new request forgets

  /** A device descriptor request forgets every response and request before it. */
  lemma DeviceRequestForgets(cfg: Config, s: Control, s': Control, p: Packet8)
    requires ReadHeader(p).bmRequestType == DEVICE_IN && ReadHeader(p).bRequest == GET_DESCRIPTOR
    ensures Setup(cfg, s, p).1 == Setup(cfg, s', p).1
    ensures Setup(cfg, s, p).0 == Setup(cfg, s', p).0.(device := s.device)
  {
  }

  /** An interface descriptor request does not: an interface that has not got the descriptor
      stalls if a report descriptor is asked for, and otherwise acknowledges with bytes of the
      response that was in progress, exactly when some of that was left and the host asks for
      any. */
  lemma InterfaceRequestLeaks(cfg: Config, s: Control, p: Packet8)
    requires Sound(s) && ReadHeader(p).bmRequestType == INTERFACE_IN && ReadHeader(p).bRequest == GET_DESCRIPTOR
    ensures var h := ReadHeader(p);
      var r, asked := Setup(cfg, s, p).1, AskedOfInterface(cfg, h);
      && (r.Stall? <==> asked.None? && h.wValue / 256 == DTYPE_REPORT)
      && (asked.Some? ==> r == Ack(Fragment(Wanted(cfg, h), 0)))
      && (asked.None? && r.Ack? ==> r.data <= s.response[s.pos..s.pos + s.len])
      && (asked.None? && r.Ack? && r.data != []
          <==> asked.None? && h.wValue / 256 != DTYPE_REPORT && s.len > 0 && h.wLength > 0)
  {
    if AskedOfInterface(cfg, ReadHeader(p)).Some? {
      SetupStarts(cfg, s, p);
    }
  }

  // ---------------------------------------------------------------- the register report over runs

  datatype Event = SetupEvent(p: Packet8) | DataEvent(input: Packet8)

  function React(cfg: Config, s: Control, e: Event): (Control, Reply) {
    match e
    case SetupEvent(p) => Setup(cfg, s, p)
    case DataEvent(input) => Data(cfg, s, input)
  }

  function Run(cfg: Config, s: Control, events: seq<Event>): Control
    decreases |events|
  {
    if events == [] then s else Run(cfg, React(cfg, s, events[0]).0, events[1..])
  }

  predicate SetsCustomReport(h: Header) {
    h.bmRequestType == CLASS_INTERFACE_OUT && h.bRequest == SET_REPORT && h.wValue / 256 == REPORT_CUSTOM
  }

  predicate GetsCustomReport(h: Header) {
    h.bmRequestType == CLASS_INTERFACE_IN && h.bRequest == GET_REPORT && h.wValue == CUSTOM_REPORT
  }

  /** No data stage of a custom report is among these events. */
  predicate NoCustomReport(cfg: Config, s: Control, events: seq<Event>)
    decreases |events|
  {
    events != [] ==>
      && (events[0].DataEvent? ==> !SetsCustomReport(s.request))
      && NoCustomReport(cfg, React(cfg, s, events[0]).0, events[1..])
  }

  /** Whatever else the host does, descriptor transfers and other class requests included,
      leaves the registers and the byte count of the last access alone. */
  lemma {:induction false} AccessKept(cfg: Config, s: Control, events: seq<Event>)
    requires NoCustomReport(cfg, s, events)
    ensures Run(cfg, s, events).device.access == s.device.access
    decreases |events|
  {
    if events == [] {
    } else {
      OneAccessKept(cfg, s, events[0]);
      AccessKept(cfg, React(cfg, s, events[0]).0, events[1..]);
    }
  }

  lemma OneAccessKept(cfg: Config, s: Control, e: Event)
    requires e.DataEvent? ==> !SetsCustomReport(s.request)
    ensures React(cfg, s, e).0.device.access == s.device.access
  {
  }

  /** A custom report: its SETUP and its data stage */
  function Report(cfg: Config, s: Control, p: Packet8, cmd: Packet8): Control {
    Data(cfg, Setup(cfg, s, p).0, cmd).0
  }

  lemma ReportExecutes(cfg: Config, s: Control, p: Packet8, cmd: Packet8)
    requires cfg.customReport && SetsCustomReport(ReadHeader(p))
    ensures Setup(cfg, s, p).1 == Ack([]) && Data(cfg, Setup(cfg, s, p).0, cmd).1 == Ack([])
    ensures Report(cfg, s, p, cmd) ==
      s.(request := ReadHeader(p), stall := false, device := s.device.(access := Execute(s.device.access, cmd)))
  {
  }

  lemma CustomReplied(cfg: Config, s: Control, p: Packet8)
    requires cfg.customReport && GetsCustomReport(ReadHeader(p))
    ensures Setup(cfg, s, p).1 == Ack(CustomReply(s.device.access, cfg.paired))
  {
  }

  /** A host writes core registers, reads core registers, and fetches the report.  Whatever else
      it does after each of the first two, it gets the bytes it wrote, where it reads those, and
      otherwise the bytes that were there. */
  lemma RegistersReadBack(cfg: Config, s: Control, put: Packet8, write: Packet8, later: seq<Event>,
                          put': Packet8, read: Packet8, later': seq<Event>, get: Packet8)
    requires cfg.customReport
    requires SetsCustomReport(ReadHeader(put)) && SetsCustomReport(ReadHeader(put'))
    requires GetsCustomReport(ReadHeader(get))
    requires IsCoreWrite(write) && IsCoreRead(read)
    requires NoCustomReport(cfg, Report(cfg, s, put, write), later)
    requires var mid := Run(cfg, Report(cfg, s, put, write), later);
      NoCustomReport(cfg, Report(cfg, mid, put', read), later')
    ensures var mid := Run(cfg, Report(cfg, s, put, write), later);
      var end := Run(cfg, Report(cfg, mid, put', read), later');
      Setup(cfg, end, get).1 ==
        Ack(ExpectedCells(s.device.access, write, CoreAddress(read), 4) + [0x10, 0x20, 0x40, 0x80])
  {
    var written := Report(cfg, s, put, write);
    ReportExecutes(cfg, s, put, write);
    AccessKept(cfg, written, later);
    var mid := Run(cfg, written, later);
    ReportExecutes(cfg, mid, put', read);
    AccessKept(cfg, Report(cfg, mid, put', read), later');
    CustomReplied(cfg, Run(cfg, Report(cfg, mid, put', read), later'), get);
    WriteThenRead(s.device.access, write, read, written.device.access, cfg.paired);
  }

  /** The two requests, from the bytes of their SETUP packets */
  lemma CustomRequestBytes(p: Packet8)
    ensures SetsCustomReport(ReadHeader(p)) <==> p[0] == 0x21 && p[1] == 9 && p[3] == 3
    ensures GetsCustomReport(ReadHeader(p)) <==> p[0] == 0xa1 && p[1] == 1 && p[2] == 5 && p[3] == 3
  {
    WordParts(p[2], p[3]);
  }

  /** The same from the bytes of the packets: a write of one, two or four core registers, a read of
      four, and the report fetched, whatever else the host does after each of the first two */
  lemma HostReadsBack(cfg: Config, s: Control, put: Packet8, write: Packet8, later: seq<Event>,
                      put': Packet8, read: Packet8, later': seq<Event>, get: Packet8, a: int, b: int, n: int)
    requires cfg.customReport
    requires put[0] == put'[0] == 0x21 && put[1] == put'[1] == 9 && put[3] == put'[3] == 3
    requires get[0] == 0xa1 && get[1] == 1 && get[2] == 5 && get[3] == 3
    requires (write[1] == 0xc1 && n == 1) || (write[1] == 0xc2 && n == 2) || (write[1] == 0xc3 && n == 4)
    requires read[1] == 0xc0
    requires a == 0x80_0000 + write[2] as int + 0x100 * write[3] as int
    requires b == 0x80_0000 + read[2] as int + 0x100 * read[3] as int
    requires NoCustomReport(cfg, Report(cfg, s, put, write), later)
    requires var mid := Run(cfg, Report(cfg, s, put, write), later);
      NoCustomReport(cfg, Report(cfg, mid, put', read), later')
    ensures var mid := Run(cfg, Report(cfg, s, put, write), later);
      var r := Setup(cfg, Run(cfg, Report(cfg, mid, put', read), later'), get).1;
      && r.Ack? && |r.data| == 8 && r.data[4..] == [0x10, 0x20, 0x40, 0x80]
      && forall i :: 0 <= i < 4 ==>
        r.data[i] == if a <= b + i < a + n then write[4 + b + i - a] else Cell(s.device.access.core, b + i)
  {
    CustomRequestBytes(put);
    CustomRequestBytes(put');
    CustomRequestBytes(get);
    CommandKinds(write);
    CommandKinds(read);
    RegistersReadBack(cfg, s, put, write, later, put', read, later', get);
    var cells := ExpectedCells(s.device.access, write, b, 4);
    ExpectedBytes(s.device.access, write, a, n, b, cells, [0x10, 0x20, 0x40, 0x80]);
  }

  /** After a custom report that is no register command the reply tells whether pairing is done. */
  lemma PairingReplied(cfg: Config, s: Control, put: Packet8, cmd: Packet8, later: seq<Event>, get: Packet8)
    requires cfg.customReport && !(0xc0 <= cmd[1] <= 0xcf)
    requires put[0] == 0x21 && put[1] == 9 && put[3] == 3
    requires get[0] == 0xa1 && get[1] == 1 && get[2] == 5 && get[3] == 3
    requires NoCustomReport(cfg, Report(cfg, s, put, cmd), later)
    ensures Setup(cfg, Run(cfg, Report(cfg, s, put, cmd), later), get).1
         == Ack([0x04, 0x58, 0x00, if cfg.paired then 0xa1 else 0x00, 0x00, 0x00, 0x08, 0x00])
  {
    CustomRequestBytes(put);
    CustomRequestBytes(get);
    CommandKinds(cmd);
    ReportExecutes(cfg, s, put, cmd);
    AccessKept(cfg, Report(cfg, s, put, cmd), later);
    CustomReplied(cfg, Run(cfg, Report(cfg, s, put, cmd), later), get);
  }

  // ---------------------------------------------------------------- the other class requests

  /** Which class requests of an interface are refused, from the bytes of their SETUP packets */
  lemma ClassStalls(cfg: Config, s: Control, p: Packet8)
    ensures p[0] == 0x21 ==> (Setup(cfg, s, p).1.Stall? <==>
      p[1] != 0x0a && p[1] != 0x0b && !(p[1] == 9 && (p[3] <= 2 || (p[3] == 3 && cfg.customReport))))
    ensures p[0] == 0xa1 ==> (Setup(cfg, s, p).1.Stall? <==> p[1] > 3)
    ensures p[0] == 0xa1 && p[1] == 0 ==> Setup(cfg, s, p).1 == Ack([0])
    ensures p[0] == 0xa1 && p[1] == 1 && !(p[2] == 5 && p[3] == 3) ==> Setup(cfg, s, p).1 == Ack([])
  {
    WordParts(p[2], p[3]);
  }

  /** The data stage of a feature report sets the host's keyboard status. */
  lemma FeatureReport(cfg: Config, s: Control, p: Packet8, input: Packet8)
    requires p[0] == 0x21 && p[1] == 9 && p[3] == 2
    ensures var r := Data(cfg, Setup(cfg, s, p).0, input);
      r.1 == Ack([]) && r.0.device == s.device.(keyboardStatus := input[0])
  {
    WordParts(p[2], p[3]);
  }

  /** The idle rate of the last SET_IDLE among these events, or the one before them */
  function LastRate(events: seq<Event>, before: u8): u8
    decreases |events|
  {
    if events == [] then before else
    var sets := events[0].SetupEvent? && events[0].p[0] == 0x21 && events[0].p[1] == 0x0a;
    LastRate(events[1..], if sets then events[0].p[3] else before)
  }

  /** The protocol of the last SET_PROTOCOL among these events, or the one before them */
  function LastProtocol(events: seq<Event>, before: u8): u8
    decreases |events|
  {
    if events == [] then before else
    var sets := events[0].SetupEvent? && events[0].p[0] == 0x21 && events[0].p[1] == 0x0b;
    LastProtocol(events[1..], if sets then events[0].p[2] else before)
  }

  /** A request to set one of them has been carried out. */
  predicate Settled(s: Control) {
    && (s.request.bmRequestType == 0x21 && s.request.bRequest == 0x0a ==> s.device.rate == s.request.wValue / 256)
    && (s.request.bmRequestType == 0x21 && s.request.bRequest == 0x0b ==> s.device.protocol == s.request.wValue % 256)
  }

  lemma SettingStep(cfg: Config, s: Control, e: Event)
    requires Settled(s)
    ensures var s' := React(cfg, s, e).0;
      && Settled(s')
      && s'.device.rate == LastRate([e], s.device.rate)
      && s'.device.protocol == LastProtocol([e], s.device.protocol)
  {
    assert [e][1..] == [];
    if e.SetupEvent? {
      WordParts(e.p[2], e.p[3]);
    }
  }

  lemma {:induction false} SettingsKept(cfg: Config, s: Control, events: seq<Event>)
    requires Settled(s)
    ensures var s' := Run(cfg, s, events);
      && Settled(s')
      && s'.device.rate == LastRate(events, s.device.rate)
      && s'.device.protocol == LastProtocol(events, s.device.protocol)
    decreases |events|
  {
    if events == [] {
    } else {
      var e := events[0];
      SettingStep(cfg, s, e);
      assert [e][1..] == [];
      SettingsKept(cfg, React(cfg, s, e).0, events[1..]);
    }
  }

  /** After any events GET_IDLE and GET_PROTOCOL reply with what was last set. */
  lemma SettingsReadBack(cfg: Config, s: Control, events: seq<Event>, p: Packet8)
    requires Settled(s) && p[0] == 0xa1
    ensures p[1] == 2 ==> Setup(cfg, Run(cfg, s, events), p).1 == Ack([LastRate(events, s.device.rate)])
    ensures p[1] == 3 ==> Setup(cfg, Run(cfg, s, events), p).1 == Ack([LastProtocol(events, s.device.protocol)])
  {
    SettingsKept(cfg, s, events);
  }

  // ---------------------------------------------------------------- the driver

  /** The driver's globals, and the endpoint's buffer */
  class Endpoint {
    const cfg: Config
    var request: Header
    var response: seq<u8>
    var pos: nat
    var responseLen: nat
    var stall: bool
    var input: Packet8                    // the endpoint's buffer, as the host filled it
    var fifo: seq<u8>                     // and as the driver did
    var hostCmd: Packet8
    var customRegCmd: bool
    var customReadDat: u32
    var core: Registers
    var analog: Registers
    var rate: u8
    var mouseReportProto: u8
    var hostKeyboardStatus: u8

    ghost function State(): Control
      reads this
    {
      Control(request, response, pos, responseLen, stall, DeviceState())
    }

    ghost function AccessState(): Access
      reads this
    {
      Access(hostCmd, customRegCmd, customReadDat, core, analog)
    }

    ghost function DeviceState(): Device
      reads this
    {
      Device(AccessState(), rate, mouseReportProto, hostKeyboardStatus)
    }

    ghost predicate Valid()
      reads this
    {
      Sound(State())
    }

    constructor (cfg: Config)
      ensures Valid() && this.cfg == cfg
    {
      this.cfg := cfg;
      request := Header(0, 0, 0, 0, 0);
      response, pos, responseLen, stall, fifo := [], 0, 0, false, [];
      input, hostCmd := [0, 0, 0, 0, 0, 0, 0, 0], [0, 0, 0, 0, 0, 0, 0, 0];
      customRegCmd, customReadDat, core, analog := false, 0, map[], map[];
      rate, mouseReportProto, hostKeyboardStatus := 0, 0, 0;
    }

    /** The loop of usb_send_response */
    method CopyOut(count: nat)
      requires pos + count <= |response|
      modifies this`pos, this`fifo
      ensures pos == old(pos) + count && fifo == response[old(pos)..pos]
    {
      fifo := [];
      var n := count;
      while n > 0
        invariant 0 <= n <= count && pos == old(pos) + count - n
        invariant fifo == response[old(pos)..pos]
      {
        n := n - 1;
        SliceSnoc(response, old(pos), pos);
        fifo := fifo + [response[pos]];
        pos := pos + 1;
      }
    }

    /** usb_send_response */
    method SendResponse()
      requires Valid()
      modifies this
      ensures Valid() && State() == Sent(old(State())) && fifo == Packet(old(State())) && input == old(input)
    {
      var n := if responseLen < 8 then responseLen else 8;
      responseLen := responseLen - n;
      CopyOut(n);
    }

    method ClipResponse()
      requires Valid()
      modifies this`responseLen
      ensures Valid() && State() == Clip(old(State()))
    {
      if request.wLength < responseLen {
        responseLen := request.wLength;
      }
    }

    /** usb_prepare_desc_data */
    method PrepareDescData()
      modifies this
      ensures Valid() && State() == PrepareDevice(cfg, old(State())) && fifo == old(fifo) && input == old(input)
    {
      var (valueH, valueL) := (request.wValue / 256, request.wValue % 256);
      response, pos, responseLen := [], 0, 0;
      if valueH == DTYPE_DEVICE {
        response, responseLen := cfg.device, |cfg.device|;
      } else if valueH == DTYPE_CONFIGURATION {
        response, responseLen := cfg.configuration, |cfg.configuration|;
      } else if valueH == DTYPE_STRING {
        if valueL in cfg.strings {
          response, responseLen := cfg.strings[valueL], |cfg.strings[valueL]|;
        } else {
          stall := true;
        }
      } else {
        stall := true;
      }
      ClipResponse();
    }

    /** usb_handle_std_intf_req */
    method HandleStdIntfReq()
      requires Valid()
      modifies this
      ensures Valid() && State() == PrepareInterface(cfg, old(State())) && fifo == old(fifo) && input == old(input)
    {
      var (valueH, indexL) := (request.wValue / 256, request.wIndex % 256);
      if valueH == DTYPE_HID {
        if indexL in cfg.hid {
          response, pos, responseLen := cfg.hid[indexL], 0, |cfg.hid[indexL]|;
        }
      } else if valueH == DTYPE_REPORT {
        if indexL in cfg.report {
          response, pos, responseLen := cfg.report[indexL], 0, |cfg.report[indexL]|;
        } else {
          stall := true;
        }
      }
      ClipResponse();
    }

    /** The loop that shifts four register bytes into custom_read_dat, the first ending lowest */
    method ReadCore(adr: nat)
      modifies this`customReadDat
      ensures customReadDat == Number32(Cells(core, adr, 4))
    {
      ghost var c := Cells(core, adr, 4);
      for i := 0 to 4
        invariant ShiftedIn(customReadDat, c, i)
      {
        ShiftsOnce(customReadDat, c, i);
        customReadDat := ShiftByteIn(customReadDat, Cell(core, adr + i));
      }
    }

    /** write_reg8, write_reg16 and write_reg32 */
    method WriteCore(adr: nat, width: nat)
      requires width == 1 || width == 2 || width == 4
      modifies this`core
      ensures core == PutCells(old(core), adr, hostCmd[4..4 + width])
    {
      ghost var bytes := hostCmd[4..4 + width];
      for i := 0 to width
        invariant PutCells(core, adr + i, bytes[i..]) == PutCells(old(core), adr, bytes)
      {
        assert bytes[i..][0] == hostCmd[4 + i] && bytes[i..][1..] == bytes[i + 1..];
        core := core[adr + i := hostCmd[4 + i]];
      }
    }

    /** The data stage of a custom report */
    method HandleCustomReport()
      modifies this`hostCmd, this`customRegCmd, this`customReadDat, this`core, this`analog
      ensures AccessState() == Execute(old(AccessState()), input)
    {
      hostCmd := input;
      customRegCmd := hostCmd[1] / 16 == 0xc;
      if customRegCmd {
        hostCmd := hostCmd[0 := 0];
        var adr: int := Pair16(hostCmd[2], hostCmd[3]);
        var len := hostCmd[1] % 4;
        adr := adr + CORE_BASE;
        if hostCmd[1] / 4 % 4 == 0 {
          if len == 0 {
            ReadCore(adr);
          } else {
            WriteCore(adr, if len == 3 then 4 else len);
          }
        } else if len == 0 {
          customReadDat := Cell(analog, hostCmd[2]);
        } else {
          analog := analog[hostCmd[2] as nat := hostCmd[4]];
        }
      }
    }

    /** usb_handle_out_class_intf_req */
    method HandleOutClassIntfReq(dataRequest: bool)
      requires !stall
      modifies this
      ensures State() == old(State()).(device := DeviceState(), stall := stall)
      ensures fifo == old(fifo) && input == old(input)
      ensures (DeviceState(), stall)
        == OutClass(old(DeviceState()), cfg.customReport, request.bRequest, request.wValue, dataRequest, input)
    {
      var (valueH, valueL) := (request.wValue / 256, request.wValue % 256);
      if request.bRequest == SET_REPORT {
        if valueH == REPORT_IN || valueH == REPORT_OUT {
        } else if valueH == REPORT_FEATURE {
          if dataRequest {
            hostKeyboardStatus := input[0];
          }
        } else if valueH == REPORT_CUSTOM && cfg.customReport {
          if dataRequest {
            HandleCustomReport();
          }
        } else {
          stall := true;
        }
      } else if request.bRequest == SET_IDLE {
        if dataRequest {
          rate := input[0];
        }
        rate := valueH;
      } else if request.bRequest == SET_PROTOCOL {
        if dataRequest {
          mouseReportProto := input[0];
        }
        mouseReportProto := valueL;
      } else {
        stall := true;
      }
    }

    /** usb_handle_in_class_intf_req */
    method HandleInClassIntfReq()
      requires !stall
      modifies this`fifo, this`stall
      ensures (fifo, stall)
        == InClass(DeviceState(), cfg.customReport, cfg.paired, request.bRequest, request.wValue)
    {
      fifo := [];
      if request.bRequest == 0 {
        fifo := [0];
      } else if request.bRequest == GET_REPORT {
        if cfg.customReport && request.wValue == CUSTOM_REPORT {
          if customRegCmd {
            fifo := [customReadDat % 0x100, customReadDat / 0x100 % 0x100, customReadDat / 0x1_0000 % 0x100,
                     customReadDat / 0x100_0000 % 0x100, 0x10, 0x20, 0x40, 0x80];
            assert fifo == CustomReply(AccessState(), cfg.paired);
          } else {
            fifo := [0x04, 0x58, 0x00, if cfg.paired then 0xa1 else 0x00, 0x00, 0x00, 0x08, 0x00];
          }
        }
      } else if request.bRequest == GET_IDLE {
        fifo := [rate];
      } else if request.bRequest == GET_PROTOCOL {
        fifo := [mouseReportProto];
      } else {
        stall := true;
      }
    }

    /** usb_handle_request */
    method HandleRequest(setup: bool)
      requires Valid() && !stall
      modifies this
      ensures Valid() && input == old(input)
      ensures (State(), fifo) == Handle(cfg, old(State()), setup, input)
    {
      fifo := [];
      if request.bmRequestType == DEVICE_IN {
        if request.bRequest == GET_DESCRIPTOR {
          if setup {
            PrepareDescData();
          }
          SendResponse();
        }
      } else if request.bmRequestType == INTERFACE_IN {
        if request.bRequest == GET_DESCRIPTOR {
          if setup {
            HandleStdIntfReq();
          }
          SendResponse();
        }
      } else if request.bmRequestType == CLASS_INTERFACE_OUT {
        HandleOutClassIntfReq(!setup);
      } else if request.bmRequestType == CLASS_ENDPOINT_OUT {
      } else if request.bmRequestType == CLASS_INTERFACE_IN {
        HandleInClassIntfReq();
      } else if request.bmRequestType == CLASS_ENDPOINT_IN {
      } else if request.bmRequestType == INTERFACE_OUT {
      } else {
        stall := true;
      }
    }

    /** usb_handle_ctl_ep_setup */
    method HandleSetup(p: Packet8) returns (reply: Reply)
      requires Valid()
      modifies this
      ensures Valid() && (State(), reply) == Setup(cfg, old(State()), p)
    {
      input := p;
      request := ReadHeader(p);
      stall := false;
      HandleRequest(true);
      reply := if stall then Stall else Ack(fifo);
    }

    /** usb_handle_ctl_ep_data */
    method HandleData(p: Packet8) returns (reply: Reply)
      requires Valid()
      modifies this
      ensures Valid() && (State(), reply) == Data(cfg, old(State()), p)
    {
      input := p;
      stall := false;
      HandleRequest(false);
      reply := if stall then Stall else Ack(fifo);
    }

    /** usb_handle_ctl_ep_status: the status stage says what the last stage said. */
    method HandleStatus() returns (stalled: bool)
      ensures stalled == stall
    {
      stalled := stall;
    }

    /** A DATA event while a response is going out */
    method NextPacket(p: Packet8, ghost want: seq<u8>, ghost i: nat) returns (reply: Reply)
      requires Valid() && Responding(State(), want, i)
      modifies this
      ensures Valid() && Responding(State(), want, i + 1) && reply == Ack(Fragment(want, i))
    {
      DataSendsFragment(cfg, State(), p, want, i);
      reply := HandleData(p);
    }

    /** A whole control-in transfer: what the host collects is what it wanted. */
    method Transfer(p: Packet8, inputs: seq<Packet8>) returns (replies: seq<Reply>)
      requires Valid() && IsDescriptorRequest(ReadHeader(p)) && AskedBy(cfg, ReadHeader(p)).Some?
      modifies this
      ensures Valid() && |replies| == |inputs| + 1 && Delivers(replies, Wanted(cfg, ReadHeader(p)))
      ensures forall d: Bytes :: AsksFor(cfg, p, d) ==>
        var asked := p[6] as int + 0x100 * p[7] as int;
        InPackets(replies, d, if asked < |d| then asked else |d|)
    {
      ghost var want := Wanted(cfg, ReadHeader(p));
      SetupStarts(cfg, State(), p);
      var reply := HandleSetup(p);
      replies := [reply];
      for i := 0 to |inputs|
        invariant Valid() && Responding(State(), want, i + 1)
        invariant AreFragments(replies, want, 0, i + 1)
      {
        reply := NextPacket(inputs[i], want, i + 1);
        FragmentsSnoc(replies, want, i + 1, reply);
        replies := replies + [reply];
      }
      FragmentsDeliver(replies, want);
      InPacketsOf(cfg, p, replies, want);
    }

    /** Any events, in any order */
    method Serve(events: seq<Event>)
      requires Valid()
      modifies this
      ensures Valid() && State() == Run(cfg, old(State()), events)
    {
      var rest := events;
      while rest != []
        invariant Valid() && Run(cfg, State(), rest) == Run(cfg, old(State()), events)
        decreases |rest|
      {
        var reply;
        match rest[0] {
          case SetupEvent(p) => reply := HandleSetup(p);
          case DataEvent(p) => reply := HandleData(p);
        }
        rest := rest[1..];
      }
    }
  }
}
