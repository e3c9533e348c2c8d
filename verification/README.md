# SerialServer framing engine in Dafny

This project models the core of `SerialServer`, a small C++ library that
exchanges fixed-length binary messages over a serial link. It proves
properties of the model.

A server keeps two append-only tables. The TX table lists the messages it
sends and the RX table lists the messages it accepts. Each entry holds an id
byte, a data length and a callback. On the wire, a message is one frame:

    [start byte][id][data bytes ...][checksum]

The checksum is the 8-bit wrap-around sum of the data bytes.

- `tx_index(i)` runs entry `i`'s packing callback on the TX data buffer. It
  then writes the frame built from the first `len` bytes of that buffer.
- `tx(id)` sends the first entry with that id. It does nothing for an
  unregistered id.
- `tx()` sends every entry once, in the order they were registered.
- `rx()` reads the bytes the transport has buffered, one frame at a time. A
  frame whose checksum matches is handed to its entry's unpacking callback. A
  checksum mismatch drops the frame and reading goes on. A byte other than
  the start byte, an unknown id or a missing byte makes `rx()` flush the
  input and return.

Layout:

- `bytes.dfy` (module `Bytes`): `uint8`, the 8-bit running checksum
  `Checksum`, and its relation to the exact sum.
- `registry.dfy` (module `Registry`): the capacity macros (`Capacity`), the
  table entries, the server state (`Server`), the constructor, `add_tx` and
  `add_rx`, and the first-match id lookup `Find`.
- `encoder.dfy` (module `Encoder`): the wire frame (`WireFrame`, `WireBytes`,
  `Serialize`), and `tx_index`, `tx(id)` and `tx()`.
- `decoder.dfy` (module `Decoder`): `rx()` with `flush()`. `Rx` is the model
  one frame at a time. `RxBytes` follows the source byte by byte, and is
  proved to make the same callbacks. The file also holds the checksum-gate,
  flush and round-trip lemmas.

Modelling choices:

- The transport is a byte sequence. The input is the sequence of bytes
  already buffered, so a wait for the next byte succeeds exactly when that
  sequence is not empty. The output is the sequence of bytes written.
- A TX packing callback is a function from the buffer contents it finds to
  the bytes it writes from the start of the buffer (`Packer`, `Pack`). The TX
  buffer is part of the server state, so bytes a callback does not overwrite
  keep their old values, as they do in the source.
- An RX callback is recorded as a `Dispatch`: the RX table index and the data
  bytes handed over.
- `rx()` returns an `RxOutcome`: the callbacks made, the input left unread
  (always empty), and whether the call ended in a flush.

Behaviour of the code that shapes the model:

- `add_tx` and `add_rx` check nothing. There is no capacity, length or
  duplicate-id error, and a length of 0 is accepted. So the model has no
  registration errors, and room in the table is a precondition.
- Every read after the start byte goes through `wait()`, whose bound is the
  fixed 100 ms at SerialServer.cpp:181. In the model, a wait fails exactly
  when no byte is buffered.

## Model

| member | source | states |
|---|---|---|
| Bytes.ChecksumIsSumMod256 | SerialServer.cpp:159-168 | the running 8-bit checksum over the data equals the exact sum of the data bytes modulo 256 |
| Bytes.ChecksumDetectsSingleByteChange | SerialServer.cpp:115-126 | two data sequences that differ in exactly one byte have different checksums |
| Registry.New | SerialServer.cpp:17-24 | the constructor needs the four capacity macros to be at least 1 (SerialServer.h:13-30); it stores the start byte as given, leaves both tables empty and gives a valid server |
| Registry.NewDefault | SerialServer.h:38-41 | a server built without a start byte uses 0x00 and starts with valid, empty tables |
| Registry.AddTx | SerialServer.cpp:32-41 | with room in the TX table, the new entry lands at index `num_tx`, the count grows by one, earlier entries, the RX table and the buffer are unchanged, and the server stays valid |
| Registry.AddRx | SerialServer.cpp:49-58 | with room in the RX table, the new entry lands at index `num_rx`, the count grows by one, earlier entries and the TX side are unchanged, and the server stays valid |
| Registry.Find | SerialServer.cpp:67 | the lookup returns the first index holding the id, and returns nothing exactly when the id is absent |
| Registry.AddTxLookup | SerialServer.cpp:32-41 | after `add_tx`, the lookup of an id registered earlier is unchanged, a new id is found at the new index, and any other id stays absent |
| Registry.AddRxLookup | SerialServer.cpp:49-58 | after `add_rx`, the lookup of an id registered earlier is unchanged, a new id is found at the new index, and any other id stays absent |
| Encoder.TxIndex | SerialServer.cpp:149-169 | the packing callback updates the buffer; the output is exactly `len + 3` bytes: the start byte, the id, the first `len` buffer bytes in order, then their sum modulo 256 |
| Encoder.TxId | SerialServer.cpp:64-72 | an unregistered id writes nothing and changes nothing; otherwise the output is exactly the frame of the first entry with that id |
| Encoder.TxAllFrames | SerialServer.cpp:77-83 | one frame per TX entry, in registration order, each with its entry's id and exactly its entry's length of data |
| Encoder.TxAll | SerialServer.cpp:77-83 | the output is the frames of entries `0..num_tx-1` back to back, in order, each once, with each packing callback seeing the buffer the previous one left |
| Decoder.ReadFrame | SerialServer.cpp:93-126 | one pass of the loop body: idle exactly on empty input; a whole frame is read only when the first byte is the start byte and the second is an id the first-match lookup finds at the frame's entry; the data are the entry's length of bytes right after the id, the checksum byte comes next, and reading stops right after it |
| Decoder.Rx | SerialServer.cpp:88-143 | `rx()` leaves no input behind and makes at most one callback per three input bytes |
| Decoder.ReadFrameBytes | SerialServer.cpp:93-126 | the byte-by-byte reading of one frame reads the same frame as `ReadFrame`, and its running checksum is the checksum of the data read |
| Decoder.RxBytes | SerialServer.cpp:88-143 | the source's loop makes the same callbacks, leaves the same input and ends the same way as `Rx` |
| Decoder.FaultIffBrokenHead | SerialServer.cpp:93-141 | the pass of the loop body flushes exactly when the input starts with a non-start byte, a lone start byte, an unknown id, or too few bytes for the data and checksum |
| Decoder.RxOneFrame | SerialServer.cpp:120-129 | a recognised frame at the head of the input gets its callback exactly when its checksum byte matches, and decoding continues after it without a flush either way |
| Decoder.RxFrames | SerialServer.cpp:88-143 | recognised frames back to back make exactly the callbacks of the frames whose checksums match, in order, then decoding continues with what follows |
| Decoder.RxFramesThenFault | SerialServer.cpp:192-198 | after frames, a broken head flushes the input: no further callback runs, even for valid frames later in the input, and no input is left |
| Decoder.RxDecomposes | SerialServer.cpp:88-143 | every input is recognised frames followed by nothing or a broken head; `rx()` makes exactly the callbacks of the frames whose checksums match, leaves no input, and flushes exactly when there is a broken head |
| Decoder.DispatchesFitTable | SerialServer.cpp:108-128 | every callback is for an RX table entry and receives exactly that entry's registered number of data bytes |
| Decoder.UnflushedIffFramed | SerialServer.cpp:88-143 | `rx()` returns without flushing if and only if its input is a run of whole recognised frames |
| Decoder.FrameRoundTrip | SerialServer.cpp:149-169 | the frame `tx_index` writes, read by a server with a matching RX entry and the same start byte, makes exactly one callback, with the original data, and no flush |
| Decoder.CorruptedFrameDropped | SerialServer.cpp:120-129 | changing any one data byte or the checksum byte of an encoded frame makes `rx()` drop that frame without a flush and go on with the next byte |
| Decoder.GatedSealed | SerialServer.cpp:159-168 | frames carrying the checksum the encoder computes all pass the checksum gate, each with its own data |
| Decoder.TxAllRoundTrip | SerialServer.cpp:77-83 | the bytes `tx()` writes, read by a server whose RX entries match every TX id and length, make one callback per TX entry, in registration order, with the data each sent, and no flush |
| Decoder.ExampleExchange | SerialServer.cpp:88-143 | RX id 0x05 with 2 data bytes and input `00 05 0A 14 1E` makes exactly one callback, with `0A 14` |

## Left out

- `wait()` timing: the `Timer`, the busy polling and the 100 ms bound. A wait
  succeeds exactly when a byte is buffered. Bytes that arrive while `rx()`
  runs are not modelled, because that is concurrent with the transport.
- The `timeout` constructor argument and field. The code stores it but never
  reads it.
- `Platform::serial_t`. Its `available`, `read` and `write` are modelled only
  as the input and output byte sequences.
- The bodies of the packing and unpacking callbacks, which are foreign code.
  A packing callback is modelled as a pure function of the buffer. The model
  does not cover a callback that reads other state, or an unpacking callback
  that changes the server or the RX buffer.
- The RX data buffer beyond the first `len` bytes. The source hands the
  whole buffer to the callback; the model records only the bytes read for
  this frame.
- Registered lengths larger than the data buffers. `add_tx` and `add_rx`
  accept any length, and then `tx_index` and `rx()` would index past
  `tx_data` or `rx_data`. That is undefined behaviour in C++, so the
  operations that touch the buffers require every registered length to fit
  (`Server.TxLensFit`, `Server.RxLensFit`).
- `CppUtil::find`: its source is not available. `Registry.Find` models it as
  a first-match linear search, which is an assumption.
- The private copy constructor and assignment operator. They have no
  behaviour.
- Registry.AddTx: requires fewer than 255 entries. At 255 entries the
  `uint8_t` count would wrap around to 0, which is not modelled.
- Registry.AddRx: requires fewer than 255 entries, for the same reason.
- Decoder.Dispatch: the table index is an unbounded natural number. The
  source's `uint8_t` index never exceeds 254 under the preconditions above.
