/**
 * Byte-level specification of the CC2500 link-layer framing used by the driver
 * in lib/radio_cc2500.c: the on-air frame layout, the effect of receiving one
 * packet from the RX FIFO, and the transmit power table.
 *
 * Bytes are integers in 0..255; every `length + 1` or `length + DataField`
 * that the C code stores in a `uint8_t` is reduced modulo 256 explicitly.
 */
module Cc2500Frame {

  newtype Byte = x: int | 0 <= x < 256

  /** Bitwise AND of two naturals, bit by bit from the least significant one. */
  function BitAnd(a: nat, b: nat): (r: nat)
    ensures r <= a && r <= b
    decreases a
  {
    if a == 0 || b == 0 then 0
    else 2 * BitAnd(a / 2, b / 2) + (if a % 2 == 1 && b % 2 == 1 then 1 else 0)
  }

  /** `m` has exactly one bit set. */
  predicate SingleBit(m: nat)
  {
    m == 1 || (m > 1 && m % 2 == 0 && SingleBit(m / 2))
  }

  /** Masking with a single bit yields either nothing or that bit. */
  lemma {:induction false} BitAndSingleBit(a: nat, m: nat)
    requires SingleBit(m)
    ensures BitAnd(a, m) == 0 || BitAnd(a, m) == m
    decreases m
  {
    if a != 0 && m != 1 {
      BitAndSingleBit(a / 2, m / 2);
    }
  }

  /** Masking a value with itself leaves it unchanged. */
  lemma {:induction false} BitAndSelf(a: nat)
    ensures BitAnd(a, a) == a
    decreases a
  {
    if a != 0 {
      BitAndSelf(a / 2);
    }
  }

  /** `a & b` on bytes. */
  function ByteAnd(a: Byte, b: Byte): (r: Byte)
  {
    BitAnd(a as nat, b as nat) as Byte
  }

  // Positions of the fields in a frame buffer.
  const LengthField: nat := 0
  const AddressField: nat := 1
  const DataField: nat := 2

  /** Number of status bytes (RSSI, then LQI with the CRC-valid bit) that follow a received packet. */
  const StatusLength: nat := 2

  /**
   * Constants that come from the driver's headers, which are not part of this
   * model: the size of the static packet buffers, the CRC-valid mask in the
   * LQI status byte, and which of the two status bytes carries that mask.
   */
  datatype Constants = Constants(bufferLength: nat, crcOk: Byte, lqiPos: nat)
  {
    /**
     * The buffer length is assigned to a `uint8_t` in the interrupt handler
     * and must hold at least the length and address bytes; the CRC mask is a
     * single bit; the LQI byte is one of the two status bytes.
     */
    predicate Valid()
    {
      && DataField <= bufferLength <= 255
      && SingleBit(crcOk as nat)
      && lqiPos < StatusLength
    }
  }

  // ---------------------------------------------------------------------------
  // Transmit framing
  // ---------------------------------------------------------------------------

  /** The length byte of a frame carrying `n` payload bytes: payload plus address, modulo 256. */
  function LengthByte(n: nat): Byte
  {
    ((n + 1) % 256) as Byte
  }

  /**
   * The frame put on the air for `payload` sent to `dest`: the length byte,
   * the address byte, then the payload.
   */
  function Frame(payload: seq<Byte>, dest: Byte): (f: seq<Byte>)
    ensures |f| == |payload| + DataField
    ensures f[LengthField] == LengthByte(|payload|) && f[AddressField] == dest
    ensures f[DataField..] == payload
  {
    [LengthByte(|payload|), dest] + payload
  }

  /**
   * One past the last index of the transmit buffer that the frame copy
   * writes for a `length` byte payload, as the source computes it: nothing
   * bounds it by the buffer size.
   */
  function TxCopyEnd(length: Byte): nat
  {
    DataField + length as int
  }

  /**
   * Any valid buffer length is at most 255, while the copy for a payload of
   * 254 or 255 bytes (both legal `uint8_t` lengths) ends past 255: the
   * unchecked copy can run off the end of the transmit buffer.
   */
  lemma TxCopyUnchecked(k: Constants)
    requires k.Valid()
    ensures exists length: Byte :: TxCopyEnd(length) > k.bufferLength
  {
    assert TxCopyEnd(255) > k.bufferLength;
  }

  // ---------------------------------------------------------------------------
  // Receive
  // ---------------------------------------------------------------------------

  /**
   * One past the last index of the caller's buffer that one receive writes,
   * as the source computes it: a packet of `head` bytes that passes the guard
   * `head <= capacity` is followed by two status bytes at `head` and `head+1`;
   * a packet that fails the guard writes nothing.
   */
  function ReceiveWriteEnd(head: Byte, capacity: Byte): nat
  {
    if head <= capacity then head as int + StatusLength else 0
  }

  /**
   * The abstract RX FIFO holds a whole packet (length byte, payload and both
   * status bytes) whenever its leading length byte passes the guard.
   */
  predicate FifoHoldsPacket(fifo: seq<Byte>, capacity: Byte)
  {
    fifo != [] && fifo[0] <= capacity ==> 1 + fifo[0] as int + StatusLength <= |fifo|
  }

  /** The status bytes appended after the payload stay inside a buffer of `bufferLength` bytes. */
  predicate StatusFits(bufferLength: nat, fifo: seq<Byte>, capacity: Byte)
  {
    fifo != [] ==> ReceiveWriteEnd(fifo[0], capacity) <= bufferLength
  }

  /** What one receive does: the value returned, the new `*length`, buffer and FIFO, and whether it flushed. */
  datatype RxStep = RxStep(ret: Byte, length: Byte, buffer: seq<Byte>, fifo: seq<Byte>, flushed: bool)

  /**
   * The effect of one receive on the caller's buffer `buf`, the in/out
   * length `capacity` and the RX FIFO `fifo`.
   */
  function ReceiveStep(k: Constants, buf: seq<Byte>, fifo: seq<Byte>, capacity: Byte): (s: RxStep)
    requires k.Valid()
    requires FifoHoldsPacket(fifo, capacity) && StatusFits(|buf|, fifo, capacity)
    ensures |s.buffer| == |buf|
    // Nothing pending: nothing changes and 0 is returned.
    ensures fifo == [] ==> s == RxStep(0, capacity, buf, fifo, false)
    // Oversized packet: 0, the offending length reported, buffer untouched, FIFO flushed.
    ensures fifo != [] && fifo[0] > capacity ==>
              s == RxStep(0, fifo[0], buf, [], true)
    // Packet that fits: payload then status bytes copied, the rest of the buffer
    // untouched, exactly 1 + n + 2 FIFO bytes consumed, CRC bit returned.
    ensures fifo != [] && fifo[0] <= capacity ==>
              var n := fifo[0] as int;
              && s.length == fifo[0]
              && s.buffer[..n] == fifo[1..1 + n]
              && s.buffer[n..n + StatusLength] == fifo[1 + n..1 + n + StatusLength]
              && s.buffer[n + StatusLength..] == buf[n + StatusLength..]
              && s.fifo == fifo[1 + n + StatusLength..]
              && !s.flushed
              && s.ret == ByteAnd(fifo[1 + n + k.lqiPos], k.crcOk)
  {
    if fifo == [] then
      RxStep(0, capacity, buf, fifo, false)
    else
      var head := fifo[0];
      if head <= capacity then
        var n := head as int;
        var payload := fifo[1..1 + n];
        var status := fifo[1 + n..1 + n + StatusLength];
        RxStep(ByteAnd(status[k.lqiPos], k.crcOk), head, payload + status + buf[n + StatusLength..],
               fifo[1 + n + StatusLength..], false)
      else
        RxStep(0, head, buf, [], true)
  }

  /** With a single-bit CRC mask a receive returns either 0 or exactly that mask. */
  lemma ReceiveReturnsMaskOrZero(k: Constants, buf: seq<Byte>, fifo: seq<Byte>, capacity: Byte)
    requires k.Valid()
    requires FifoHoldsPacket(fifo, capacity) && StatusFits(|buf|, fifo, capacity)
    ensures var s := ReceiveStep(k, buf, fifo, capacity);
            s.ret == 0 || s.ret == k.crcOk
  {
    var s := ReceiveStep(k, buf, fifo, capacity);
    if fifo != [] && fifo[0] <= capacity {
      BitAndSingleBit(fifo[1 + fifo[0] as int + k.lqiPos] as nat, k.crcOk as nat);
    }
  }

  /**
   * Transmit/receive round trip: the frame for `payload` and `dest`, followed
   * by two status bytes whose CRC bit is set, is received whole by a buffer of
   * capacity at least `|payload| + 1` (and two more bytes of room): a nonzero
   * result, length `|payload| + 1`, and the address byte then the payload at
   * the start of the buffer.
   */
  lemma FrameRoundTrip(k: Constants, payload: seq<Byte>, dest: Byte,
                       status: seq<Byte>, rest: seq<Byte>,
                       buf: seq<Byte>, capacity: Byte)
    requires k.Valid()
    requires |payload| + 1 <= capacity as int && |payload| + 1 + StatusLength <= |buf|
    requires |status| == StatusLength && ByteAnd(status[k.lqiPos], k.crcOk) != 0
    ensures var fifo := Frame(payload, dest) + status + rest;
            FifoHoldsPacket(fifo, capacity) && StatusFits(|buf|, fifo, capacity) &&
            var s := ReceiveStep(k, buf, fifo, capacity);
            && s.ret != 0
            && s.length as int == |payload| + 1
            && s.buffer[..|payload| + 1] == [dest] + payload
            && s.buffer[|payload| + 1..|payload| + 1 + StatusLength] == status
            && s.fifo == rest
            && !s.flushed
  {
  }

  /**
   * A two-byte payload 0xAA 0xBB for address 0x05 goes on the air as
   * 0x03 0x05 0xAA 0xBB: the length byte counts the address and the payload.
   */
  lemma TransmitExample()
    ensures Frame([0xAA, 0xBB], 0x05) == [0x03, 0x05, 0xAA, 0xBB]
  {
  }

  /**
   * A FIFO holding 0x04 0x09 0x01 0x02 0x03, an RSSI byte and an LQI byte
   * whose CRC bit is set, received into a 10-byte buffer offered whole:
   * length 4, the buffer starts 0x09 0x01 0x02 0x03, and the result is
   * nonzero. Offered a capacity of 2 instead, the packet is refused: length
   * 4, result 0, buffer untouched and the FIFO flushed.
   */
  lemma ReceiveExample(k: Constants, buf: seq<Byte>, rssi: Byte, lqi: Byte)
    requires k.Valid() && k.lqiPos == 1 && |buf| == 10
    requires ByteAnd(lqi, k.crcOk) == k.crcOk
    ensures var s := ReceiveStep(k, buf, [0x04, 0x09, 0x01, 0x02, 0x03, rssi, lqi], 10);
            s.ret != 0 && s.length == 4 && s.buffer[..4] == [0x09, 0x01, 0x02, 0x03] && s.fifo == []
    ensures ReceiveStep(k, buf, [0x04, 0x09, 0x01, 0x02, 0x03, rssi, lqi], 2) == RxStep(0, 4, buf, [], true)
  {
  }


  // ---------------------------------------------------------------------------
  // Transmit power
  // ---------------------------------------------------------------------------

  /** PATABLE settings for -55, -30, -28, ..., -2, 0 and +1 dBm. */
  const PowerTable: seq<Byte> :=
    [0x00, 0x50, 0x44, 0xC0,
     0x84, 0x81, 0x46, 0x93,
     0x55, 0x8D, 0xC6, 0x97,
     0x6E, 0x7F, 0xA9, 0xBB,
     0xFE, 0xFF]

  /**
   * The table index the power level clamp computes as written: it replaces
   * the level only when it is strictly greater than the table size.
   */
  function PowerIndexAsWritten(power: Byte): nat
  {
    if power as int > |PowerTable| then |PowerTable| - 1 else power as int
  }

  /**
   * The clamp the source means: levels past the last entry use the last
   * entry, so the index is always inside the table.
   */
  function PowerTableIndex(power: Byte): (i: nat)
    ensures i < |PowerTable|
    ensures power as int < |PowerTable| ==> i == power as int
    ensures power as int >= |PowerTable| ==> i == |PowerTable| - 1
  {
    if power as int >= |PowerTable| then |PowerTable| - 1 else power as int
  }

  /**
   * The written clamp agrees with the intended one on every level except the
   * table size itself, 18, where it yields an index one past the table.
   */
  lemma PowerClampOffByOne()
    ensures PowerIndexAsWritten(18) == |PowerTable|
    ensures forall power: Byte :: PowerIndexAsWritten(power) == PowerTableIndex(power) <==> power as int != |PowerTable|
  {
  }

  /** The PATABLE byte written for a requested level. */
  function PowerByte(power: Byte): (b: Byte)
    ensures power as int < |PowerTable| ==> b == PowerTable[power]
    ensures power as int >= |PowerTable| ==> b == 0xFF
  {
    PowerTable[PowerTableIndex(power)]
  }

  // ---------------------------------------------------------------------------
  // Interrupt handler capacity
  // ---------------------------------------------------------------------------

  /**
   * As written, the interrupt handler offers the whole buffer as capacity, so
   * a packet one byte shorter than the buffer, or exactly as long, passes the
   * guard and its status bytes land one or two bytes past the end of the
   * buffer: such a FIFO falls outside what a receive can safely be given.
   */
  lemma IsrStatusOverrun(k: Constants, rest: seq<Byte>)
    requires k.Valid()
    ensures !StatusFits(k.bufferLength, [(k.bufferLength - 1) as Byte] + rest, k.bufferLength as Byte)
    ensures !StatusFits(k.bufferLength, [k.bufferLength as Byte] + rest, k.bufferLength as Byte)
  {
  }

  /**
   * The capacity the interrupt handler should offer: the buffer length less
   * the two status bytes. With it, no packet that passes the guard writes
   * past the end of the receive buffer.
   */
  function IsrCapacity(k: Constants): (c: Byte)
    requires k.Valid()
    ensures c as int + StatusLength == k.bufferLength
    ensures forall fifo: seq<Byte> {:trigger StatusFits(k.bufferLength, fifo, c)} :: StatusFits(k.bufferLength, fifo, c)
  {
    (k.bufferLength - StatusLength) as Byte
  }
}
