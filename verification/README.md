# WHR930 serial framing engine, modelled in Dafny

This project models the protocol engine of the ESPHome component for the
Zehnder/StorkAir WHR930 ventilation unit
(`components/whr930/whr930_component.cpp`). The engine builds request frames,
computes the unit's checksum, reads response frames byte by byte, and runs
two kinds of transactions over the serial link: a *command* (send a frame,
require the acknowledgement `07 F3`) and a *request* (the same, then read and
validate a response frame).

Frames on the wire:

```
request : 07 F0 | command | n | data (n bytes) | checksum | 07 0F
response: 07 F0 | 00 command | n | data (n bytes) | checksum | 07 0F
ack     : 07 F3
```

The checksum is 0xAD plus every byte between the markers, modulo 256, where
the stop byte 0x07 is counted only the first time it occurs.

The serial port is modelled as a pure input queue (`seq<byte>`). A byte is
"available" when the queue is non-empty, peeking looks at the head, and
reading drops the head. Every primitive is a total function that returns a
success flag and the remaining input. A transaction takes the unit's reply as
a parameter. That reply is appended to the input after the frame has been
written.

Modules, one per file:

- `Bytes` (`bytes.dfy`): the `byte` type and the stop byte.
- `Checksums` (`checksums.dfy`): `calculate_checksum` as a recursive scan, its closed form, and the imperative loop.
- `Packets` (`packets.dfy`): `create_packet`, the two-byte-command layout its comment describes, and the send buffer exactly as `uart_send_command` fills it.
- `Uart` (`uart.dfy`): `uart_wait_and_verify_byte` and chains of it.
- `Responses` (`responses.dfy`): `uart_process_response`, split into stages.
- `Transactions` (`transactions.dfy`): `uart_clear_buffer`, `uart_send_command`, `uart_received_ack`, `uart_execute_command`, `uart_execute_request`.

Where the code and its comments disagree, the model follows the code:

- The comment on `create_packet` says the command takes two bytes. The code writes one, so a request frame has `n + 7` bytes, not `n + 8`. The two-byte layout is modelled as well (`Packets.TwoByteCommandPacket`), and "## Findings" discusses both readings.
- The checksum accumulator is a `uint8_t`, so its `> 0xFF` correction never fires. The checksum is plain byte wraparound. No "subtract 256 once" rule is involved.

## Model

| member | source | states |
|---|---|---|
| Checksums.ComputeChecksum | components/whr930/whr930_component.cpp:65-86 | the byte-accumulator loop with its stop-byte flag yields the recursive checksum, which equals (0xAD + sum with 0x07 counted at most once) mod 256 |
| Checksums.ChecksumFromClosedForm | components/whr930/whr930_component.cpp:70-84 | from any accumulator and flag, the scan equals the accumulator plus all non-0x07 bytes plus one 0x07 if it occurs and none was seen yet, mod 256 |
| Checksums.Checksum | components/whr930/whr930_component.cpp:65-86 | the scan from seed 0xAD with no stop byte seen equals (0xAD + deduplicated sum) mod 256; the `> 0xFF` branch plays no part |
| Checksums.DuplicateStopByteIgnored | components/whr930/whr930_component.cpp:73-79 | a 0x07 after an earlier 0x07 does not change the checksum |
| Checksums.FirstStopByteCounted | components/whr930/whr930_component.cpp:73-79 | the first 0x07 adds 7 to the checksum (mod 256) |
| Checksums.ZeroByteNeutral | components/whr930/whr930_component.cpp:73-75 | inserting a 0x00 byte anywhere leaves the checksum unchanged |
| Checksums.StopByteExamples | components/whr930/whr930_component.cpp:57-86 | checksum of 07 07 05 equals checksum of 07 05 (0xB9), and checksum of 01 00 is 0xAE |
| Packets.Packet | components/whr930/whr930_component.cpp:37-55 | the frame has n + 7 bytes: 07 F0, command, n, the data verbatim, a checksum over exactly the bytes between the markers, then 07 0F |
| Packets.TwoByteCommandPacket | components/whr930/whr930_component.cpp:25-32 | the frame with a two-byte command has n + 8 bytes (the size of the send buffer): 07 F0, 00, command, n, the data, a checksum over everything between the markers, then 07 0F |
| Packets.TwoByteCommandPacketInsertsHighByte | components/whr930/whr930_component.cpp:25-32 | the two-byte-command frame is the frame `create_packet` builds with 00 inserted after the start marker |
| Packets.EmptyCommandPacket | components/whr930/whr930_component.cpp:37-55 | command 0x01 with no data gives 07 F0 01 00 AE 07 0F |
| Packets.WriteWrapped | components/whr930/whr930_component.cpp:38-54 | writing through a byte-wide index keeps the buffer size and never touches positions 256 and above |
| Packets.WriteWrappedInPlace | components/whr930/whr930_component.cpp:38-54 | while the index stays below 256, the writes lay the values down in order |
| Packets.SendBufferAsWritten | components/whr930/whr930_component.cpp:104-110 | the transmitted buffer has n + 8 bytes, and any position at 256 or above still holds the uninitialised stack byte |
| Packets.SendBufferIsPacketPlusStray | components/whr930/whr930_component.cpp:104-110 | for n <= 249 the transmitted bytes are the packet followed by one byte nobody wrote |
| Packets.WriteWrappedTail | components/whr930/whr930_component.cpp:50-54 | the last two of three byte-index writes land at index + 1 and index + 2 mod 256, whatever the first wrote |
| Packets.SendBufferLosesEndByte | components/whr930/whr930_component.cpp:38-54 | for 250 <= n <= 255 the final end byte is never written where it belongs, and the end marker lands at (n + 5, n + 6) mod 256; for n <= 254, whatever the stack held, the bytes sent are not the packet |
| Uart.VerifyByte | components/whr930/whr930_component.cpp:163-179 | no byte: fail, input unchanged; a different byte: fail, nothing consumed; the expected byte: succeed, exactly one byte consumed |
| Uart.VerifyAll | components/whr930/whr930_component.cpp:115-117 | a short-circuit chain of byte checks succeeds exactly when the input starts with the expected bytes, and then consumes just those |
| Uart.VerifyAllStopsAtMismatch | components/whr930/whr930_component.cpp:163-179 | a failed chain consumed only the matching prefix and stopped at the first missing or different byte |
| Responses.ResponseChecksum | components/whr930/whr930_component.cpp:119-139 | the reader's checksum over 00, command, n, data equals the checksum `create_packet` emits for command and data |
| Responses.ParseTrailer | components/whr930/whr930_component.cpp:138-147 | succeeds exactly when the input starts with the checksum byte then 07 0F, consuming those three bytes; fails with BadChecksum exactly when the first byte is missing or wrong |
| Responses.ParseLength | components/whr930/whr930_component.cpp:127-136 | data is accepted only up to the given capacity |
| Responses.LengthComplete | components/whr930/whr930_component.cpp:127-147 | after the command pair, n, n data bytes, the right checksum and 07 0F are accepted, and the rest of the input is left |
| Responses.LengthSound | components/whr930/whr930_component.cpp:127-147 | whatever the stage accepts after the command pair is n, data, the right checksum and 07 0F, followed by the remaining input |
| Responses.HeaderAccepted | components/whr930/whr930_component.cpp:114-125 | after 07 F0 00 command the reader goes on to the length byte |
| Responses.ParseFrame | components/whr930/whr930_component.cpp:113-154 | accepted data never exceeds the capacity of the scratch buffer |
| Responses.ParseResponseAsWritten | components/whr930/whr930_component.cpp:113-154 | the reader as written trusts the length byte: accepted data can be as long as 255 bytes |
| Responses.ParseResponseAsWrittenCharacterised | components/whr930/whr930_component.cpp:113-154 | the reader as written yields (P, rest) if and only if the input is the response frame for (C, P) followed by rest, for any P of up to 255 bytes |
| Responses.ParseResponse | components/whr930/whr930_component.cpp:119-136 | accepted data always fits the 20-byte scratch buffer after its 3 header bytes |
| Responses.ParseFrameComplete | components/whr930/whr930_component.cpp:113-154 | round trip: a response frame for (C, P) followed by anything yields P, and the input after the frame remains |
| Responses.ParseFrameSound | components/whr930/whr930_component.cpp:113-154 | whatever is accepted is a response frame for the expected command, followed by the remaining input |
| Responses.ParseResponseCharacterised | components/whr930/whr930_component.cpp:113-154 | the reader yields (P, rest) if and only if the input is the response frame for (C, P) followed by rest, with P at most 17 bytes |
| Responses.AsWrittenOverrunsBuffer | components/whr930/whr930_component.cpp:120-136 | the reader as written accepts a frame with 18 data bytes, which needs 21 bytes of its 20-byte buffer; the corrected reader rejects it as oversize |
| Responses.TruncatedFrameRejected | components/whr930/whr930_component.cpp:127-147 | no proper prefix of a valid frame is accepted |
| Responses.LengthByteFixesSize | components/whr930/whr930_component.cpp:127-136 | a frame inside a prefix of another frame for the same command has the same length, and the prefix is the whole frame |
| Responses.WrongCommandRejected | components/whr930/whr930_component.cpp:119-125 | a frame for another command fails with BadCommand after 07 F0 00 are consumed |
| Responses.CorruptChecksumRejected | components/whr930/whr930_component.cpp:138-142 | a wrong checksum byte fails with BadChecksum, and that byte stays unread |
| Responses.LengthRejectsWrongSum | components/whr930/whr930_component.cpp:138-142 | after the data, a byte other than the checksum makes the reader fail with BadChecksum |
| Responses.EmptyResponseExample | components/whr930/whr930_component.cpp:113-154 | 07 F0 00 01 00 AE 07 0F is accepted for command 0x01 with empty data |
| Responses.ProcessResponse | components/whr930/whr930_component.cpp:113-154 | succeeds exactly when the reader accepts; the caller's buffer then holds the data in front, otherwise it is unchanged |
| Responses.TransferIsFramed | components/whr930/whr930_component.cpp:113-154 | a successful transfer consumed exactly one response frame, and the caller's buffer holds its data |
| Transactions.ReceivedAck | components/whr930/whr930_component.cpp:181-183 | succeeds exactly when the input starts with 07 F3; on failure only a matching 07 was consumed |
| Transactions.ClearBuffer | components/whr930/whr930_component.cpp:185-193 | all waiting input is discarded and nothing written is affected |
| Transactions.SendCommand | components/whr930/whr930_component.cpp:104-111 | the input is empty before the packet for (command, data) is appended to what was sent |
| Transactions.ExecuteCommand | components/whr930/whr930_component.cpp:94-97 | the frame is sent, and the command succeeds exactly when the reply begins with 07 F3 |
| Transactions.ExecuteRequest | components/whr930/whr930_component.cpp:89-92 | without the ack the response is not read and the caller's buffer is untouched; with it, the result is exactly that of `uart_process_response` on the bytes after the ack |
| Transactions.StaleInputIgnored | components/whr930/whr930_component.cpp:104-111 | bytes waiting before a transaction do not influence its result |
| Transactions.RequestRoundTrip | components/whr930/whr930_component.cpp:89-92 | ack plus a response frame with at most 17 data bytes gives success, the data in the caller's buffer, and the input after the frame |
| Transactions.AckedTransferIsFramed | components/whr930/whr930_component.cpp:89-92 | after 07 F3, a successful transfer means the reply is the ack, one response frame and the unread rest |
| Transactions.RequestSuccessIsFramed | components/whr930/whr930_component.cpp:89-92 | a successful request was answered with the ack and a response frame carrying the data now in the caller's buffer |

## Findings

| source | as written | input that shows it | evidently intended | confidence | as-written member | corrected member |
|---|---|---|---|---|---|---|
| components/whr930/whr930_component.cpp:104-110 | the send buffer has `8 + data_size` bytes and all of them are written to the port, one more than the `data_size + 7` byte frame `create_packet` lays down | command 0x01 with no data: eight bytes go out, and the last was never initialised (`Packets.SendBufferIsPacketPlusStray`) | first reading, a one-byte command as the code writes it: send exactly the `n + 7` byte frame | medium; not executed | Packets.SendBufferAsWritten | Transactions.SendCommand |
| components/whr930/whr930_component.cpp:25-54 | the comment says the command takes two bytes and the buffer has room for them, but `create_packet` writes only the low byte | command 0x01 with no data: `07 F0 01 00 AE 07 0F` and a stray byte go out instead of `07 F0 00 01 00 AE 07 0F` (`Packets.SendBufferIsPacketPlusStray`, `Packets.TwoByteCommandPacketInsertsHighByte`) | second reading, a two-byte command as the comment and the response frames have it: send `07 F0 00 command n data checksum 07 0F`, which fills the `8 + n` byte buffer exactly | medium; not executed | Packets.SendBufferIsPacketPlusStray | Packets.TwoByteCommandPacket |
| components/whr930/whr930_component.cpp:38-54 | `bufferIndex` is a `uint8_t`, so the writes wrap to index 0 past 255 | 250 data bytes: the last end byte 0x0F lands at index 0, overwriting the start byte 0x07, and position 256 is sent unwritten (`Packets.SendBufferLosesEndByte`) | lay the frame down in order for any length the length byte can express | medium; not executed | Packets.SendBufferAsWritten | Packets.Packet |
| components/whr930/whr930_component.cpp:120-136 | the length byte is trusted and up to 255 data bytes are read into `response[3..]` of a 20-byte array | a well-formed response frame declaring 18 data bytes (`Responses.AsWrittenOverrunsBuffer`) | reject a declared length above 17 before reading the data | high; not executed | Responses.ParseResponseAsWritten | Responses.ParseResponse |

The first two rows are two readings of one discrepancy: the buffer is sized
for a two-byte command, the code writes a one-byte command. The code supports
the first reading. `create_packet` writes the length at index 3 and takes the
checksum over `len + 2` bytes from index 2, both of which fit one command
byte. The comment and the response frames, which carry `00 command`, support
the second. The checksum is the same either way, because a zero byte adds
nothing. Which layout the unit expects cannot be read off this file. The
transaction layer follows the code and sends `Packet` without the stray byte.
`TwoByteCommandPacket` is the corrected frame under the second reading, and
it is the layout `ResponseFrame` uses for the unit's replies. Responses are
read with `ParseResponse`.

## Left out

- `setup`, `loop` and `dump_config` (lines 10-18): empty lifecycle hooks and a log line, with no logic.
- `components/whr930/__init__.py`: ESPHome code generation and configuration schema. The header `whr930_component.h` holds declarations only.
- Timing: the 1000-iteration busy wait in `uart_wait_and_verify_byte` and the timeouts inside ESPHome's `read_byte`/`read_array` are not modelled. A byte that has not arrived by the time it is needed counts as missing. Arrivals during a wait are not modelled.
- `read_byte`/`read_array` come from the ESPHome UART library, which is not part of this model. A failed read is modelled as consuming nothing.
- `flush()` only waits for transmission and has no effect in the model. `write_array` appends to the sent sequence.
- Concurrency: one transaction at a time, as the source assumes.
- Responses.ProcessResponse: requires a destination of at least 17 bytes. The source writes `data_size` bytes to a caller buffer whose size it never checks.
- Transactions.SendCommand: requires at most 255 data bytes, the range the one-byte length field can express. Longer data is covered only by `Packets.SendBufferAsWritten`, where the length field is truncated to a byte.
- Transactions.ExecuteCommand: requires at most 255 data bytes, for the same reason as `SendCommand`.
- Transactions.ExecuteRequest: requires at most 255 data bytes and a destination of at least 17 bytes, for the reasons given above.
