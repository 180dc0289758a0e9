/** The receive interrupt of the USART linked to the debugger's virtual COM
    port. Register access is reduced to the values the handler reads: the
    RXC flag of INTFLAG, the error bits of STATUS and the DATA register. */
module RxHandler {
  import opened Common
  import ByteQueue

  /** STATUS error bits for a frame error and a buffer overflow (SAM D21
      SERCOM USART register layout). */
  const STATUS_FERR: bv8 := 0x02
  const STATUS_BUFOVF: bv8 := 0x04

  /** DATA register mask: up to 9 data bits, so masking keeps the value
      modulo 0x200. */
  const DATA_MODULUS: nat := 0x200

  /** What one interrupt did. */
  datatype RxOutcome =
    | NotReceive        // RXC was not set: nothing is read, queued or echoed
    | ErrorsCleared     // a frame error or overflow: both flags are cleared; nothing is read, queued or echoed
    | UnknownError      // another error bit: nothing is read, queued or echoed
    | Dropped           // the queue was full: the byte is lost and not echoed
    | Echoed(b: byte)   // the byte was queued, then written back to DATA

  /** The byte queued and echoed for a DATA register value: the low eight
      bits of the masked value (the queue copies one byte from the 16-bit
      variable, its low byte on this little-endian core). */
  function ReceivedByte(data: nat): (b: byte)
    ensures b as int == data % 256
  {
    ((data % DATA_MODULUS) % 256) as byte
  }

  /** The handler's decision, given the RXC flag, the masked error code, the
      DATA value and whether the queue has room. A byte is accepted exactly
      when RXC is set, no error bit is set and the queue has room; only an
      accepted byte is echoed, and it is the received byte. */
  function Decide(rxc: bool, errorCode: bv8, data: nat, room: bool): (r: RxOutcome)
    ensures r.Echoed? <==> rxc && errorCode == 0 && room
    ensures r.Echoed? ==> r.b == ReceivedByte(data)
    ensures r == Dropped <==> rxc && errorCode == 0 && !room
    ensures r == NotReceive <==> !rxc
    ensures r == ErrorsCleared <==>
      rxc && errorCode & (STATUS_FERR | STATUS_BUFOVF) != 0
    ensures r == UnknownError <==>
      rxc && errorCode != 0 && errorCode & (STATUS_FERR | STATUS_BUFOVF) == 0
  {
    if !rxc then NotReceive
    else if errorCode != 0 then
      if errorCode & (STATUS_FERR | STATUS_BUFOVF) != 0 then ErrorsCleared else UnknownError
    else if room then Echoed(ReceivedByte(data))
    else Dropped
  }

  /** cdc_rx_handler: at most one byte reaches the queue per interrupt, and
      it is the byte that is echoed; in every other case the queue is left as
      it was. */
  method CdcRxHandler(q: ByteQueue.Queue, rxc: bool, errorCode: bv8, data: nat)
    returns (outcome: RxOutcome)
    requires q.Valid()
    modifies q
    ensures q.Valid()
    ensures outcome == Decide(rxc, errorCode, data, |old(q.items)| < q.capacity)
    ensures q.items == if outcome.Echoed? then old(q.items) + [outcome.b] else old(q.items)
  {
    if rxc {
      if errorCode != 0 {
        if errorCode & (STATUS_FERR | STATUS_BUFOVF) != 0 {
          // both flags are written back to STATUS to clear them
          outcome := ErrorsCleared;
        } else {
          outcome := UnknownError;
        }
      } else {
        var b := ReceivedByte(data);
        var ok := q.SendFromIsr(b);
        if !ok {
          outcome := Dropped;
        } else {
          // the echo: wait for DRE, then write the byte to DATA
          outcome := Echoed(b);
        }
      }
    } else {
      outcome := NotReceive;
    }
  }
}
