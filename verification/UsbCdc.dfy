/** The CDC sender with the UART queue above it, field by field:
    ble_lt_sdk/proj/app/usbcdc.c and ble_lt_sdk/proj/drivers/usb_uart.c. */
module UsbCdc {
  import opened Common
  import opened CdcTransport

  datatype Status = SUCCESS | USB_BUSY | USB_MULTIBLOCK

  /** cdc_ctrl_t, the pending queue, the task queue and the bulk endpoint.  `busy` is what
      usbhw_is_ep_busy answers; the wait after each packet is left to the hardware. */
  class UsbUart {
    const epSize: nat
    var txBuf: Option<Buf>
    var lenToSend: nat
    var lastSendIndex: nat
    var txPendingQ: seq<Buf>
    var tasks: seq<Buf>
    var packets: seq<seq<u8>>
    var freed: seq<Buf>
    ghost var written: seq<Buf>
    ghost var completed: seq<Buf>

    ghost function State(): Link
      reads this
    {
      Link(txBuf, lenToSend, lastSendIndex, txPendingQ, tasks, packets, written, completed, freed)
    }

    /** The indices of a transfer stay inside its buffer. */
    ghost predicate Valid()
      reads this
    {
      && epSize > 0
      && (txBuf.Some? ==> lastSendIndex + lenToSend <= |txBuf.value.data|)
      && (txBuf.None? ==> lenToSend == 0)
    }

    constructor (epSize: nat)
      requires epSize > 0
      ensures Valid() && this.epSize == epSize && State() == IDLE
    {
      this.epSize := epSize;
      txBuf, lenToSend, lastSendIndex := None, 0, 0;
      txPendingQ, tasks, packets, freed := [], [], [], [];
      written, completed := [], [];
    }

    /** usbcdc_isAvailable */
    method IsAvailable() returns (available: bool)
      ensures available <==> txBuf.None?
    {
      available := txBuf.None?;
    }

    /** The loop that copies a packet into the endpoint */
    method CopyPacket(len: nat) returns (fifo: seq<u8>)
      requires txBuf.Some? && lastSendIndex + len <= |txBuf.value.data|
      modifies this`lastSendIndex
      ensures lastSendIndex == old(lastSendIndex) + len
      ensures fifo == txBuf.value.data[old(lastSendIndex)..lastSendIndex]
    {
      fifo := [];
      var i := 0;
      while i < len
        invariant 0 <= i <= len && lastSendIndex == old(lastSendIndex) + i
        invariant fifo == txBuf.value.data[old(lastSendIndex)..lastSendIndex]
      {
        fifo := fifo + [txBuf.value.data[lastSendIndex]];
        lastSendIndex := lastSendIndex + 1;
        i := i + 1;
      }
    }

    /** usbcdc_sendBulkData: one packet if the endpoint is free */
    method SendBulkData(busy: bool) returns (sent: nat)
      requires Valid()
      modifies this
      ensures Valid() && State() == Bulk(old(State()), busy, epSize)
      ensures busy ==> State() == old(State())
      ensures sent == if busy || old(lenToSend) == 0 then 0 else |packets[|packets| - 1]|
    {
      if busy {
        return 0;
      }
      var len := if lenToSend > epSize then epSize else lenToSend;
      lenToSend := lenToSend - len;
      if len == 0 {
        return 0;
      }
      var fifo := CopyPacket(len);
      packets := packets + [fifo];
      if lenToSend == 0 {
        lastSendIndex := 0;
        tasks := tasks + [txBuf.value];
        completed := completed + [txBuf.value];
        txBuf := None;
      }
      return len;
    }

    /** usbcdc_sendData */
    method SendData(buf: Buf, busy: bool) returns (status: Status)
      requires Valid()
      modifies this
      ensures Valid()
      ensures old(txBuf).Some? ==> status == USB_BUSY && State() == old(State())
      ensures old(txBuf).None? ==> status == SUCCESS && State() == Submit(old(State()), buf, busy, epSize)
    {
      if txBuf.Some? {
        return USB_BUSY;
      }
      lenToSend := |buf.data|;
      txBuf := Some(buf);
      lastSendIndex := 0;
      var _ := SendBulkData(busy);
      return SUCCESS;
    }

    /** usb_uart_write, as tXFinishCb calls it as well as clients */
    method Submission(buf: Buf, busy: bool) returns (status: Status)
      requires Valid()
      modifies this
      ensures Valid() && State() == Submit(old(State()), buf, busy, epSize)
      ensures status == if old(txBuf).None? then SUCCESS else USB_MULTIBLOCK
    {
      var available := IsAvailable();
      if available {
        status := SendData(buf, busy);
      } else {
        txPendingQ := txPendingQ + [buf];
        status := USB_MULTIBLOCK;
      }
    }

    /** usb_uart_write from a client */
    method UartWrite(buf: Buf, busy: bool) returns (status: Status)
      requires Valid()
      modifies this
      ensures Valid() && State() == Write(old(State()), buf, busy, epSize)
      ensures status == if old(txBuf).None? then SUCCESS else USB_MULTIBLOCK
    {
      written := written + [buf];
      status := Submission(buf, busy);
    }

    /** usb_uart_tXFinishCb */
    method TxFinishCb(pData: Buf, busy: bool)
      requires Valid()
      modifies this
      ensures Valid()
      ensures var done := old(State()).(freed := old(freed) + [pData]);
        State() == if done.pending == [] then done
                   else Submit(done.(pending := done.pending[1..]), done.pending[0], busy, epSize)
    {
      freed := freed + [pData];
      if |txPendingQ| != 0 {
        var evt := txPendingQ[0];
        txPendingQ := txPendingQ[1..];
        var _ := Submission(evt, busy);
      }
    }

    /** The scheduler runs the oldest callback. */
    method RunNextTask(busy: bool)
      requires Valid()
      modifies this
      ensures Valid() && State() == RunTask(old(State()), busy, epSize)
    {
      if |tasks| != 0 {
        var task := tasks[0];
        tasks := tasks[1..];
        TxFinishCb(task, busy);
      }
    }

    /** Any interleaving of the three entry points */
    method Drive(events: seq<Event>)
      requires Valid()
      modifies this
      ensures Valid() && State() == Run(old(State()), events, epSize)
    {
      var rest := events;
      while rest != []
        invariant Valid() && Run(State(), rest, epSize) == Run(old(State()), events, epSize)
        decreases |rest|
      {
        match rest[0] {
          case WriteEvent(buf, busy) => var _ := UartWrite(buf, busy);
          case IrqEvent(busy) => var _ := SendBulkData(busy);
          case TaskEvent(busy) => RunNextTask(busy);
        }
        rest := rest[1..];
      }
    }
  }
}
