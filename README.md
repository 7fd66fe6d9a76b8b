# CC2500 radio driver: framing, receive path and interrupt dispatch

This project is a Dafny model of the byte-buffer core of the CC2500 radio
driver in `lib/radio_cc2500.c`. The driver runs on a microcontroller. It
sends length-prefixed, address-tagged packets through the radio's TX FIFO
and reads received packets and their two trailing status bytes (RSSI, then
LQI with the CRC-valid bit) out of the RX FIFO. A PORT2 interrupt on the
GDO0 pin hands good packets to a registered receive handler. The driver also
sets the device address, the channel and the transmit power (a lookup in an
18-entry PATABLE table).

The model has two modules:

- `Cc2500Frame` (`cc2500_frame.dfy`) is the pure specification. It holds the
  field offsets (length byte 0, address byte 1, payload from byte 2) and the
  frame the transmit path builds (`Frame`). `ReceiveStep` states what one
  receive does in each of its three outcomes: nothing pending, packet too
  long, packet that fits. The module also holds the power table and its
  clamp, and the lemmas that tie these together, including the
  transmit/receive round trip.
- `Cc2500Radio` (`cc2500_radio.dfy`) is the driver as a class `Radio` over
  an abstract chip. The chip state is:
  - `rxFifo`: the RX FIFO. Burst reads pop bytes from it and the SFRX strobe
    empties it. "Bytes pending" (`read_status(RXBYTES) & NUM_RXBYTES`) is
    `|rxFifo| > 0`.
  - `txLog`: every byte burst-written to the TX FIFO.
  - `trace`: a log of the strobes, the register and PATABLE writes, and the
    writes to the GDO0 interrupt-enable and flag bits.
  - `gdo0Flag` and `gdo0Enabled`: booleans for the GDO0 flag and interrupt
    enable.

  The driver state is:
  - the settings record (`settings`);
  - the receive handler slot (`rxCallback`) and a log of its calls
    (`invocations`);
  - the static receive and transmit buffers, as arrays of the header's
    buffer length.

  Every method that changes state is specified by what it changes, and its
  `modifies` clause names only the fields it writes. The receive method and
  the interrupt handler are tied to `ReceiveStep`.

Three constants come from headers that are not part of this model:
`CC2500_BUFFER_LENGTH`, `CRC_OK` and `LQI_POS`. They are the fields of the
datatype `Constants`, and are only assumed to satisfy `Constants.Valid()`:
- the buffer length is at most 255, because it is stored in a `uint8_t` at
  `lib/radio_cc2500.c:213`. It is also at least 2. This lower bound is an
  assumption of the model, not something the code states: the length and
  address bytes of a frame must fit, and `IsrCapacity` subtracts the two
  status bytes from it;
- the CRC mask has exactly one bit set;
- the LQI position is 0 or 1.

Bytes are integers in 0..255. Every `length + 1` and `length + DATA_FIELD`
that the C code stores into a `uint8_t` is written out modulo 256. The
bitwise `&` of the CRC test is the recursive function `BitAnd`.

In three places the model differs from the written code, because the code
is wrong there (see "## Findings"):
- `SetPower` clamps with `>=`;
- the interrupt handler offers the buffer length minus the two status bytes
  as capacity;
- `TxPacket` states the bound on the payload length as a precondition.

The receive result is often described as a boolean. The code returns
`status[LQI_POS] & CRC_OK`, a byte that is either 0 or the mask, and the
model follows the code (`ReceiveReturnsMaskOrZero`). Power levels are
sometimes described as 0..19, but the table in the code has 18 entries, and
the model follows the code.

## Model

| member | source | states |
|---|---|---|
| `Cc2500Frame.BitAnd` | lib/radio_cc2500.c:189 | the `&` of the CRC test is no larger than either operand, so its result is again a byte |
| `Cc2500Frame.BitAndSingleBit` | lib/radio_cc2500.c:189 | masking any byte with a single-bit mask such as `CRC_OK` gives 0 or the mask itself |
| `Cc2500Frame.BitAndSelf` | lib/radio_cc2500.c:189 | masking a byte with itself leaves it unchanged, so an LQI byte equal to `CRC_OK` passes the CRC test and the receive example has an instance |
| `Cc2500Frame.Frame` | lib/radio_cc2500.c:96-105 | a frame is the length byte at offset 0, the destination at offset 1 and the payload from offset 2, two bytes longer than the payload |
| `Cc2500Frame.TxCopyUnchecked` | lib/radio_cc2500.c:96-108 | for every valid buffer length, some `uint8_t` payload length makes the copy run past the transmit buffer |
| `Cc2500Frame.ReceiveStep` | lib/radio_cc2500.c:162-205 | empty FIFO: returns 0 and changes nothing. Oversized packet: returns 0, reports the length, leaves the buffer alone and flushes. Packet that fits: payload then status bytes copied, the rest of the buffer kept, `1 + n + 2` FIFO bytes consumed, the CRC bit of the LQI byte returned |
| `Cc2500Frame.ReceiveReturnsMaskOrZero` | lib/radio_cc2500.c:188-189 | the receive result is 0 or exactly `CRC_OK` |
| `Cc2500Frame.FrameRoundTrip` | lib/radio_cc2500.c:171-189 | a frame built for `payload` and `dest`, plus status bytes with the CRC bit set, is received with a nonzero result and length `n + 1`. The buffer then starts with `dest` and the payload, the status bytes follow, and exactly the frame and status bytes leave the FIFO |
| `Cc2500Frame.TransmitExample` | lib/radio_cc2500.c:96-108 | payload `AA BB` for address `05` goes on the air as `03 05 AA BB` |
| `Cc2500Frame.ReceiveExample` | lib/radio_cc2500.c:171-199 | FIFO `04 09 01 02 03 rssi lqi`, for any `lqi` whose CRC bit is set, received with capacity 10, gives length 4, buffer `09 01 02 03` and a nonzero result. With capacity 2 it gives length 4, result 0, the buffer untouched and the FIFO flushed |
| `Cc2500Frame.PowerTableIndex` | lib/radio_cc2500.c:137-141 | the clamped index is always inside the table: it equals the level below 18 and is 17 from 18 on |
| `Cc2500Frame.PowerClampOffByOne` | lib/radio_cc2500.c:138-144 | the written clamp differs from the intended one exactly at level 18, where it indexes one past the table |
| `Cc2500Frame.PowerByte` | lib/radio_cc2500.c:34-39 | the PATABLE byte is the table entry for levels below 18 and `0xFF` for every higher level |
| `Cc2500Frame.IsrStatusOverrun` | lib/radio_cc2500.c:213-218 | with the whole buffer offered as capacity, a FIFO whose length byte is the buffer length or one less breaks `StatusFits`: the packet passes the guard and its status bytes land past the buffer, outside what a receive can safely be given |
| `Cc2500Frame.IsrCapacity` | lib/radio_cc2500.c:213 | the capacity the handler offers plus the two status bytes is the buffer length, so no packet ever writes past the receive buffer |
| `Cc2500Radio.CopyBytes` | lib/radio_cc2500.c:105 | memcpy: the source bytes land at the offset and every other byte of the destination is kept |
| `Cc2500Radio.Radio.constructor` | lib/radio_cc2500.c:24-29 | both static buffers are zeroed and have the buffer length, and the handler slot holds the default handler |
| `Cc2500Radio.Radio.RxBytes` | lib/radio_cc2500.c:168 | the occupancy read reports the number of bytes in the RX FIFO |
| `Cc2500Radio.Radio.ReadRxFifo` | lib/radio_cc2500.c:171 | a burst read of `n` bytes returns the first `n` FIFO bytes and removes them |
| `Cc2500Radio.Radio.IssueStrobe` | lib/radio_cc2500.c:197 | a strobe is logged, and SFRX empties the RX FIFO |
| `Cc2500Radio.Radio.Setup` | lib/radio_cc2500.c:45-50 | setup puts the given handler in the slot |
| `Cc2500Radio.Radio.Tx` | lib/radio_cc2500.c:67-88 | the bytes are appended to the TX FIFO. The order is: interrupt disabled, FIFO write, STX strobe, flag cleared, interrupt enabled. The flag ends clear and the interrupt enabled |
| `Cc2500Radio.Radio.TxPacket` | lib/radio_cc2500.c:96-109 | `txBuffer[0] == (n+1) mod 256`, `txBuffer[1] == dest`, `txBuffer[2..2+n] == payload[..n]`. The rest of the buffer is kept and exactly `txBuffer[..n+2]`, the frame, goes to the TX FIFO |
| `Cc2500Radio.Radio.SetAddress` | lib/radio_cc2500.c:115-119 | only `settings.addr` changes, to the new address, and one ADDR register write with it is logged |
| `Cc2500Radio.Radio.SetChannel` | lib/radio_cc2500.c:125-129 | only `settings.channr` changes, to the new channel, and one CHANNR register write with it is logged |
| `Cc2500Radio.Radio.SetPower` | lib/radio_cc2500.c:135-145 | one PATABLE write is logged: the table entry for levels 0..17, `0xFF` for 18 and above |
| `Cc2500Radio.Radio.ReceivePacket` | lib/radio_cc2500.c:162-205 | the result, the new length, the new buffer and the new FIFO are those of `ReceiveStep`, and the only strobe is one SFRX when the packet is oversized |
| `Cc2500Radio.Radio.Port2Isr` | lib/radio_cc2500.c:211-233 | flag clear: FIFO, buffer and handler log unchanged. Flag set: one receive as `ReceiveStep` describes, and exactly one handler call with the buffer and the received length exactly when the result is nonzero. The flag is cleared on exit in every case |
| `Cc2500Radio.TransmitThenReceive` | lib/radio_cc2500.c:96-205 | the bytes one radio transmits, plus status bytes with a good CRC, are received by another with a nonzero result, length `n + 1` and buffer contents `[dest] + payload` |
| `Cc2500Radio.InterruptDeliversFrame` | lib/radio_cc2500.c:211-233 | a good frame at the interrupt gives exactly one call of the registered handler, with length `n + 1` and a buffer that starts `[dest] + payload`, and the flag ends clear |
| `Cc2500Radio.InterruptDropsBadCrc` | lib/radio_cc2500.c:216-230 | a frame with a bad CRC is still copied into the receive buffer, but the handler is not called |

## Left out

- The two busy-wait loops on the GDO0 pin in `cc2500_tx` (lines 76 and 80). Their exit depends on the radio driving the pin, so `Tx` is one step.
- `setup_cc2500` beyond registering the handler: `initialize_radio`, the settle delay, `write_rf_settings`, the initial PATABLE write of `0xFB` and the SRX strobe (lines 52-59). These are calls into the hardware abstraction layer and an RF configuration table that is not part of this model.
- The SPI transport, the register addresses and the bit layout of `cc2500_settings_t`, `read_status` and `write_register`. The register writes are logged as abstract events (`WriteRegister(Addr, a)`).
- The occupancy test `read_status(RXBYTES) & NUM_RXBYTES`. It is abstracted to "the RX FIFO is non-empty", and the overflow bit of RXBYTES is not modelled.
- Interrupt preemption and the `wakeup interrupt` vector mechanics. The interrupt handler is an ordinary method that runs to completion.
- `__no_operation` and the commented-out UART write and SRX strobes (lines 84, 153, 229, 237).
- What a registered receive handler does and what it returns. The handler's return value is discarded by the code. A call is logged with a copy of the whole receive buffer, which includes the status bytes after the reported length.
- Cc2500Radio.Radio.SetPower: clamps every level `>= 18` to 17 through `PowerTableIndex`. The written `>` admits level 18 and reads past the table (see "## Findings").
- The default handler `dummy_callback` (lines 151-156) is the `Dummy` case of the handler slot. Its return value 0 is not modelled, because the interrupt handler discards the handler's result (line 221).
- Cc2500Radio.Radio.ReceivePacket: requires `FifoHoldsPacket`, i.e. that the chip has the whole packet and its status bytes in the RX FIFO. The behaviour of a burst read from a short FIFO belongs to the chip, which is not modelled.
- Cc2500Radio.Radio.ReceivePacket: requires `StatusFits`, i.e. that a packet which passes the guard leaves room for the two status bytes. The code does not check this (see "## Findings").
- Cc2500Radio.Radio.Port2Isr: offers capacity `CC2500_BUFFER_LENGTH - 2` instead of the written `CC2500_BUFFER_LENGTH` (see "## Findings").
- Cc2500Radio.Radio.TxPacket: requires `length + 2 <= CC2500_BUFFER_LENGTH` and a payload of at least `length` bytes. The code checks neither (see "## Findings"). The payload is taken as a sequence value, so overlap between the caller's buffer and the transmit buffer is not modelled.

## Findings

| source | as written | input that shows it | evidently intended | confidence | as-written member | corrected member |
|---|---|---|---|---|---|---|
| lib/radio_cc2500.c:138 | `if ( power > sizeof(power_table) )` leaves level 18 unclamped, and line 144 then reads `power_table[18]`, one past the 18-entry table | `cc2500_set_power(18)` | clamp every level `>= 18` to 17, as the comment at line 137 says | high (not executed) | `Cc2500Frame.PowerIndexAsWritten`, `Cc2500Frame.PowerClampOffByOne` | `Cc2500Frame.PowerTableIndex`, used by `Cc2500Radio.Radio.SetPower` |
| lib/radio_cc2500.c:213 | the handler offers the whole buffer as capacity. The guard at line 174 admits `packet_length == CC2500_BUFFER_LENGTH`, and line 186 then writes the two status bytes at `p_rx_buffer[CC2500_BUFFER_LENGTH]` and the next index | a received length byte equal to `CC2500_BUFFER_LENGTH` (or one less) | offer `CC2500_BUFFER_LENGTH - 2`, so that payload and status bytes fit | high (not executed) | `Cc2500Frame.ReceiveWriteEnd`, `Cc2500Frame.IsrStatusOverrun` | `Cc2500Frame.IsrCapacity`, used by `Cc2500Radio.Radio.Port2Isr` |
| lib/radio_cc2500.c:105 | the frame copy writes `p_tx_buffer[2..length+2]` with no check against `CC2500_BUFFER_LENGTH` | `cc2500_tx_packet(p, 255, d)` with any buffer length up to 255 | transmit only payloads with `length + 2 <= CC2500_BUFFER_LENGTH` | medium (not executed): callers may keep to the bound | `Cc2500Frame.TxCopyEnd`, `Cc2500Frame.TxCopyUnchecked` | `Cc2500Radio.Radio.TxPacket`, whose precondition states the bound |
