/**
 * The CC2500 driver of lib/radio_cc2500.c as a class over an abstract chip.
 *
 * The chip is reduced to what the driver observes of it: its RX FIFO (a
 * sequence of bytes that burst reads pop and a flush strobe empties), the
 * bytes written to its TX FIFO, and a trace of the strobes and register
 * writes the driver issues, including the writes to the microcontroller's
 * GDO0 interrupt-enable and interrupt-flag registers. The static receive and
 * transmit buffers are arrays of the header's buffer length.
 */
module Cc2500Radio {

  import opened Cc2500Frame

  /** Command strobes the driver issues. */
  datatype StrobeCommand = SRX | STX | SFRX

  /** Configuration registers backed by fields of the settings record. */
  datatype Register = Addr | Channr

  /** One operation of the driver on the chip or on the GDO0 port registers. */
  datatype Event =
    | Strobe(command: StrobeCommand)
    | WriteRegister(register: Register, value: Byte)
    | WritePatable(value: Byte)
    | WriteTxFifo(bytes: seq<Byte>)
    | DisableGdo0Interrupt
    | EnableGdo0Interrupt
    | ClearGdo0Flag

  /** The in-memory copy of the chip settings that the setters keep. */
  datatype Settings = Settings(addr: Byte, channr: Byte)

  /** The receive handler slot: the default no-op handler or one registered at setup. */
  datatype Callback = Dummy | Handler(id: nat)

  /** One call of the receive handler: which handler, the receive buffer it was shown, and the length. */
  datatype Invocation = Invocation(handler: Callback, buffer: seq<Byte>, length: Byte)

  /**
   * memcpy of `src` into `dst` from index `at` on; also the way a burst read
   * from the RX FIFO lands in the caller's buffer.
   */
  method CopyBytes(dst: array<Byte>, at: nat, src: seq<Byte>)
    requires at + |src| <= dst.Length
    modifies dst
    ensures dst[..at] == old(dst[..at])
    ensures dst[at..at + |src|] == src
    ensures dst[at + |src|..] == old(dst[at + |src|..])
  {
    var i := 0;
    while i < |src|
      invariant 0 <= i <= |src|
      invariant forall j :: 0 <= j < at ==> dst[j] == old(dst[j])
      invariant forall j :: 0 <= j < i ==> dst[at + j] == src[j]
      invariant forall j :: at + i <= j < dst.Length ==> dst[j] == old(dst[j])
    {
      dst[at + i] := src[i];
      i := i + 1;
    }
  }

  class Radio {
    /** Header constants: buffer length, CRC mask and LQI position. */
    const k: Constants
    /** The static receive buffer `p_rx_buffer`. */
    const rxBuffer: array<Byte>
    /** The static transmit buffer `p_tx_buffer`. */
    const txBuffer: array<Byte>

    /** Bytes waiting in the chip's RX FIFO. */
    var rxFifo: seq<Byte>
    /** Every byte written to the chip's TX FIFO, in order. */
    var txLog: seq<Byte>
    /** Every strobe and register write issued, in order. */
    var trace: seq<Event>
    /** The settings record `cc2500_settings`. */
    var settings: Settings
    /** GDO0 bit of the port interrupt-flag register. */
    var gdo0Flag: bool
    /** GDO0 bit of the port interrupt-enable register. */
    var gdo0Enabled: bool
    /** The receive handler slot `rx_callback`. */
    var rxCallback: Callback
    /** Every call of the receive handler, in order. */
    var invocations: seq<Invocation>

    ghost predicate Valid()
    {
      && k.Valid()
      && rxBuffer.Length == k.bufferLength
      && txBuffer.Length == k.bufferLength
      && rxBuffer != txBuffer
    }

    /**
     * The driver's static state at start-up: zeroed buffers and the default
     * handler. The settings record is defined outside the driver and is given.
     * The chip starts with empty FIFOs and the GDO0 interrupt disabled and clear.
     */
    constructor (k: Constants, settings: Settings)
      requires k.Valid()
      ensures Valid()
      ensures this.k == k && this.settings == settings
      ensures fresh(rxBuffer) && fresh(txBuffer)
      ensures rxBuffer[..] == seq(k.bufferLength, _ => 0) && txBuffer[..] == seq(k.bufferLength, _ => 0)
      ensures rxFifo == [] && txLog == [] && trace == [] && invocations == []
      ensures !gdo0Flag && !gdo0Enabled && rxCallback == Dummy
    {
      this.k := k;
      this.settings := settings;
      rxBuffer := new Byte[k.bufferLength](_ => 0);
      txBuffer := new Byte[k.bufferLength](_ => 0);
      rxFifo, txLog, trace, invocations := [], [], [], [];
      gdo0Flag, gdo0Enabled := false, false;
      rxCallback := Dummy;
    }

    // -------------------------------------------------------------------------
    // The abstract chip: burst reads, strobes, FIFO occupancy
    // -------------------------------------------------------------------------

    /** Number of bytes in the RX FIFO, as the RXBYTES status register reports it. */
    method RxBytes() returns (n: nat)
      ensures n == |rxFifo|
    {
      n := |rxFifo|;
    }

    /** Burst read of `n` bytes from the RX FIFO. */
    method ReadRxFifo(n: nat) returns (bytes: seq<Byte>)
      requires n <= |rxFifo|
      modifies this`rxFifo
      ensures bytes == old(rxFifo)[..n] && rxFifo == old(rxFifo)[n..]
    {
      bytes := rxFifo[..n];
      rxFifo := rxFifo[n..];
    }

    /** A command strobe; SFRX also empties the RX FIFO. */
    method IssueStrobe(command: StrobeCommand)
      modifies this`trace, this`rxFifo
      ensures trace == old(trace) + [Strobe(command)]
      ensures rxFifo == if command == SFRX then [] else old(rxFifo)
    {
      trace := trace + [Strobe(command)];
      if command == SFRX {
        rxFifo := [];
      }
    }

    // -------------------------------------------------------------------------
    // The driver
    // -------------------------------------------------------------------------

    /** Registers the receive handler. */
    method Setup(callback: Callback)
      modifies this`rxCallback
      ensures rxCallback == callback
    {
      rxCallback := callback;
    }

    /**
     * Sends `length` raw bytes of `buffer`: with the GDO0 interrupt disabled,
     * burst-write them to the TX FIFO and strobe STX; then clear the GDO0 flag
     * and enable the interrupt again. The waits on the GDO0 pin between the
     * strobe and the flag clear are not part of the model.
     */
    method Tx(buffer: array<Byte>, length: Byte)
      requires length as int <= buffer.Length
      modifies this`txLog, this`trace, this`gdo0Flag, this`gdo0Enabled
      ensures txLog == old(txLog) + buffer[..length]
      ensures trace == old(trace) + [DisableGdo0Interrupt, WriteTxFifo(buffer[..length]), Strobe(STX),
                                     ClearGdo0Flag, EnableGdo0Interrupt]
      ensures !gdo0Flag && gdo0Enabled
    {
      gdo0Enabled := false;
      trace := trace + [DisableGdo0Interrupt];
      var bytes := buffer[..length];
      txLog := txLog + bytes;
      trace := trace + [WriteTxFifo(bytes)];
      trace := trace + [Strobe(STX)];
      gdo0Flag := false;
      trace := trace + [ClearGdo0Flag];
      gdo0Enabled := true;
      trace := trace + [EnableGdo0Interrupt];
    }

    /**
     * Frames `length` bytes of `payload` for `dest` in the transmit buffer and
     * sends the `length + 2` framed bytes. The copy is bounded by the
     * transmit buffer only through the precondition.
     */
    method TxPacket(payload: seq<Byte>, length: Byte, dest: Byte)
      requires Valid()
      requires length as int <= |payload|
      requires TxCopyEnd(length) <= k.bufferLength
      modifies txBuffer, this`txLog, this`trace, this`gdo0Flag, this`gdo0Enabled
      ensures txBuffer[LengthField] as int == (length as int + 1) % 256
      ensures txBuffer[AddressField] == dest
      ensures txBuffer[DataField..DataField + length as int] == payload[..length]
      ensures txBuffer[..DataField + length as int] == Frame(payload[..length], dest)
      ensures txBuffer[DataField + length as int..] == old(txBuffer[DataField + length as int..])
      ensures txLog == old(txLog) + Frame(payload[..length], dest)
      ensures trace == old(trace) + [DisableGdo0Interrupt, WriteTxFifo(Frame(payload[..length], dest)),
                                     Strobe(STX), ClearGdo0Flag, EnableGdo0Interrupt]
      ensures !gdo0Flag && gdo0Enabled
    {
      txBuffer[LengthField] := ((length as int + 1) % 256) as Byte;
      txBuffer[AddressField] := dest;
      CopyBytes(txBuffer, DataField, payload[..length]);
      assert txBuffer[..DataField + length as int] == Frame(payload[..length], dest);
      Tx(txBuffer, ((length as int + DataField) % 256) as Byte);
    }

    /** Sets the device address and writes it to the ADDR register. */
    method SetAddress(address: Byte)
      modifies this`settings, this`trace
      ensures settings == old(settings).(addr := address)
      ensures trace == old(trace) + [WriteRegister(Addr, address)]
    {
      settings := settings.(addr := address);
      trace := trace + [WriteRegister(Addr, settings.addr)];
    }

    /** Sets the channel number and writes it to the CHANNR register. */
    method SetChannel(channel: Byte)
      modifies this`settings, this`trace
      ensures settings == old(settings).(channr := channel)
      ensures trace == old(trace) + [WriteRegister(Channr, channel)]
    {
      settings := settings.(channr := channel);
      trace := trace + [WriteRegister(Channr, settings.channr)];
    }

    /**
     * Writes the PATABLE byte for `power` to the chip, clamping levels past
     * the end of the power table to its last entry.
     */
    method SetPower(power: Byte)
      modifies this`trace
      ensures trace == old(trace) + [WritePatable(PowerByte(power))]
    {
      trace := trace + [WritePatable(PowerByte(power))];
    }

    /**
     * Receives one packet from the RX FIFO into `buffer`, `length` being the
     * capacity offered. Returns the CRC bit of the LQI status byte and the new
     * `*length`. The new state is the one `ReceiveStep` describes; a flush is
     * one SFRX strobe.
     */
    method ReceivePacket(buffer: array<Byte>, length: Byte) returns (crc: Byte, newLength: Byte)
      requires Valid()
      requires FifoHoldsPacket(rxFifo, length) && StatusFits(buffer.Length, rxFifo, length)
      modifies buffer, this`rxFifo, this`trace
      ensures var s := ReceiveStep(k, old(buffer[..]), old(rxFifo), length);
              && crc == s.ret && newLength == s.length
              && buffer[..] == s.buffer && rxFifo == s.fifo
              && trace == old(trace) + (if s.flushed then [Strobe(SFRX)] else [])
    {
      ghost var fifo0 := rxFifo;
      var pending := RxBytes();
      if pending != 0 {
        var head := ReadRxFifo(1);
        var packetLength := head[0];
        ghost var n := packetLength as int;
        if packetLength <= length {
          var payload := ReadRxFifo(packetLength as int);
          CopyBytes(buffer, 0, payload);
          newLength := packetLength;
          var status := ReadRxFifo(StatusLength);
          CopyBytes(buffer, packetLength as int, status);
          crc := ByteAnd(status[k.lqiPos], k.crcOk);
          assert payload == fifo0[1..1 + n];
          assert status == fifo0[1 + n..1 + n + StatusLength];
          assert buffer[..] == buffer[..n] + buffer[n..n + StatusLength] + buffer[n + StatusLength..];
        } else {
          newLength := packetLength;
          IssueStrobe(SFRX);
          crc := 0;
        }
      } else {
        crc := 0;
        newLength := length;
      }
    }

    /**
     * The PORT2 interrupt: when the GDO0 flag is set, receive into the static
     * receive buffer and, on a nonzero result, call the receive handler once
     * with the buffer and the received length. The GDO0 flag is cleared in
     * every case. The capacity offered leaves room for the two status bytes.
     */
    method Port2Isr()
      requires Valid()
      requires gdo0Flag ==> FifoHoldsPacket(rxFifo, IsrCapacity(k))
      modifies rxBuffer, this`rxFifo, this`trace, this`gdo0Flag, this`invocations
      ensures !gdo0Flag
      ensures !old(gdo0Flag) ==>
                && rxFifo == old(rxFifo) && rxBuffer[..] == old(rxBuffer[..])
                && invocations == old(invocations)
                && trace == old(trace) + [ClearGdo0Flag]
      ensures old(gdo0Flag) ==>
                var s := ReceiveStep(k, old(rxBuffer[..]), old(rxFifo), IsrCapacity(k));
                && rxFifo == s.fifo && rxBuffer[..] == s.buffer
                && invocations == old(invocations) +
                     (if s.ret != 0 then [Invocation(rxCallback, s.buffer, s.length)] else [])
                && trace == old(trace) + (if s.flushed then [Strobe(SFRX)] else []) + [ClearGdo0Flag]
    {
      var length := IsrCapacity(k);
      if gdo0Flag {
        var ok, received := ReceivePacket(rxBuffer, length);
        if ok != 0 {
          invocations := invocations + [Invocation(rxCallback, rxBuffer[..], received)];
        }
      }
      gdo0Flag := false;
      trace := trace + [ClearGdo0Flag];
    }
  }

  // ---------------------------------------------------------------------------
  // End-to-end use of the driver
  // ---------------------------------------------------------------------------

  /**
   * One radio frames and sends `payload` to `dest`; its TX FIFO bytes,
   * followed by two status bytes with the CRC bit set, arrive in a second
   * radio's RX FIFO, which receives them with `capacity`.
   */
  method TransmitThenReceive(k: Constants, payload: seq<Byte>, dest: Byte, status: seq<Byte>,
                             capacity: Byte, settings: Settings)
    returns (crc: Byte, length: Byte, received: seq<Byte>)
    requires k.Valid()
    requires |payload| + 1 <= capacity as int && capacity as int + StatusLength <= k.bufferLength
    requires |status| == StatusLength && ByteAnd(status[k.lqiPos], k.crcOk) != 0
    ensures crc != 0 && length as int == |payload| + 1
    ensures received == [dest] + payload
  {
    var tx := new Radio(k, settings);
    tx.TxPacket(payload, |payload| as Byte, dest);
    assert payload[..|payload|] == payload;
    var rx := new Radio(k, settings);
    rx.rxFifo := tx.txLog + status;
    FrameRoundTrip(k, payload, dest, status, [], rx.rxBuffer[..], capacity);
    assert rx.rxFifo == Frame(payload, dest) + status + [];
    crc, length := rx.ReceivePacket(rx.rxBuffer, capacity);
    received := rx.rxBuffer[..length];
  }

  /**
   * A frame with a good CRC reaches the receive handler: after setup with
   * `callback`, a frame in the RX FIFO and the GDO0 flag set, the interrupt
   * calls the handler exactly once, with the received length, and the buffer
   * it is shown starts with the address byte and the payload.
   */
  method InterruptDeliversFrame(k: Constants, callback: Callback, payload: seq<Byte>, dest: Byte,
                                status: seq<Byte>, settings: Settings)
    returns (calls: seq<Invocation>, flagAfter: bool)
    requires k.Valid()
    requires |payload| + 1 + StatusLength <= k.bufferLength
    requires |status| == StatusLength && ByteAnd(status[k.lqiPos], k.crcOk) != 0
    ensures |calls| == 1 && calls[0].handler == callback
    ensures calls[0].length as int == |payload| + 1 && |calls[0].buffer| == k.bufferLength
    ensures calls[0].buffer[..|payload| + 1] == [dest] + payload
    ensures !flagAfter
  {
    var rx := new Radio(k, settings);
    rx.Setup(callback);
    rx.rxFifo := Frame(payload, dest) + status + [];
    rx.gdo0Flag := true;
    FrameRoundTrip(k, payload, dest, status, [], rx.rxBuffer[..], IsrCapacity(k));
    rx.Port2Isr();
    calls, flagAfter := rx.invocations, rx.gdo0Flag;
  }

  /**
   * A bad CRC drops the packet at the interrupt: the payload is still copied
   * into the receive buffer, but the handler is not called.
   */
  method InterruptDropsBadCrc(k: Constants, payload: seq<Byte>, dest: Byte,
                              status: seq<Byte>, settings: Settings)
    returns (calls: seq<Invocation>, buffered: seq<Byte>)
    requires k.Valid()
    requires |payload| + 1 + StatusLength <= k.bufferLength
    requires |status| == StatusLength && ByteAnd(status[k.lqiPos], k.crcOk) == 0
    ensures calls == []
    ensures buffered == [dest] + payload
  {
    var rx := new Radio(k, settings);
    var fifo := Frame(payload, dest) + status;
    rx.rxFifo := fifo;
    rx.gdo0Flag := true;
    var n := |payload| + 1;
    assert fifo[0] as int == n && fifo[1..1 + n] == [dest] + payload;
    assert fifo[1 + n + k.lqiPos] == status[k.lqiPos];
    rx.Port2Isr();
    calls, buffered := rx.invocations, rx.rxBuffer[..n];
  }
}
