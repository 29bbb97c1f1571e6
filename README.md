# netstick, modelled in Dafny

netstick relays a joystick from one machine to another over TCP:

- **The client (`netstick`)** enumerates a Linux input device:
  - It reads the device's capability bitmaps.
  - It gives every button and axis a consecutive slot, through an id → slot index map.
  - It sends the resulting configuration record once.
  - After that, on every `EV_SYN` it sends the current report: the slot values of the abs axes, then the rel axes, then the buttons.
- **Framing.** Every message is a TLVC envelope (tag, length, payload, 16-bit checksum) framed with SLIP byte stuffing.
- **The server (`netstickd`)** handles each connection:
  - It keeps a fixed table of connection slots.
  - It feeds every received byte to the connection's SLIP decoder.
  - It validates each completed envelope and dispatches it.
  - The first valid configuration creates a virtual joystick.
  - Each later report is written to that joystick as input events: abs axes, rel axes, buttons, then `EV_SYN`.
- **`jsproxy`** is the earlier single program holding both halves. Its client sends every message with a single `write` and ignores whether it worked.

The model has one module per source file:

| file | module | what it holds |
|---|---|---|
| `slip.dfy` | `Slip` | SLIP encoder and decoder as classes over byte arrays, specified by step functions over their state |
| `tlvc.dfy` | `Tlvc` | The envelope, with both checksum loops as methods proved against a recursive byte sum |
| `joystick.dfy` | `Joystick` | The configuration record with its byte layout, the report size, and the slot-update context as a class |
| `netstickd.dfy` | `Netstickd` | The per-connection state: the `configSet` lifecycle, report fan-out into an event log, and the byte-feeding read loop |
| `server.dfy` | `Server` | The connection slot table, with the handlers recorded as a ghost trace |
| `netstick.dfy` | `Netstick` | The client: index map, bitmap enumeration, in-place report buffer, frame assembly, the transmit as written (payload-sized encoder, pointer-moving write loop) beside the corrected one of the findings, and the event loop over the transmit as written |
| `jsproxy.dfy` | `Jsproxy` | Where the older program differs: the single-write transmit and a client that ignores failed transmits |
| `delivery.dfy` | `Delivery` | The client and the server together |

The remaining modules are support code:

- `Bytes` holds little-endian codecs and a byte sum.
- `Input` holds the Linux input constants.
- `Wrappers` holds `Option`.

The envelope's header and footer are in host byte order in the source. The model fixes that order to little-endian.

jsproxy.c's index map, enumeration, connection handler, read loop and disconnect are the same code as in netstick.c and netstickd.c. The same members model both. Their rows cite the newer file and name the older copy.

## Model

| member | source | states |
|---|---|---|
| Slip.EscapeAllLength | slip.c:55-73 | Escaping maps END and ESC to two bytes and every other byte to itself. The escaped length is the input length plus the number of END/ESC bytes, which is at most twice the input length |
| Slip.EscapeAllAppend | slip.c:49-75 | Escaping distributes over concatenation |
| Slip.EscapeAllHasNoEnd | slip.c:55-73 | An escaped body never contains END |
| Slip.EncodeStepPrefix | slip.c:49-75 | One encoded byte: the buffer size is unchanged, the index grows by the escape's length (cut at capacity), the written prefix extends by the escape, and the result is Ok exactly when it fits |
| Slip.EncodeFeedAppend | slip.c:49-75 | Encoding a + b is encoding a, then b |
| Slip.EncodeFeedPrefix | slip.c:49-75 | After any byte sequence, the encoder's written prefix is the old prefix plus the escaped bytes, cut at capacity. It never writes past `encodedSize`, and every call returned Ok exactly when the escapes fit |
| Slip.EncodeFramePrefix | slip.c:32-75 | begin → bytes → finish leaves END ++ escape(bs) ++ END in the buffer, cut at the capacity |
| Slip.EncoderCapacitySuffices | slip.c:16 | With capacity 2n+2, begin, then any n bytes, then finish all return Ok, and the buffer holds the whole frame |
| Slip.DecodeFeedAppend | slip.c:105-147 | Decoding a + b is decoding a, then b, and the results concatenate |
| Slip.FullDecoderRefusesAll | slip.c:107-109 | Once `index` reaches the capacity, every byte returns TooBig and the state never changes |
| Slip.DecodeOneEscaped | slip.c:112-138 | Decoding the escape of one byte appends exactly that byte, with every result Ok |
| Slip.DecodeEscaped | slip.c:105-147 | Decoding an escaped body that fits appends the body after `raw[..index]`, leaves the rest of raw alone and ends outside an escape |
| Slip.DecodeRoundTrip | slip.c:49-147 | Start from a fresh decoder and feed escape(b) ++ END, with `|b| < rawSize`. Then `raw[..index] == b`, every result before the END is Ok, and the END yields EndOfFrame |
| Slip.SlipEncoder.Create | slip.c:12-22 | The buffer has capacity 2·rawSize+2, zeroed, with index 0 |
| Slip.SlipEncoder.Begin | slip.c:32-36 | Writes END at index 0 and sets index to 1 |
| Slip.SlipEncoder.Finish | slip.c:39-46 | Appends END when there is room, otherwise TooBig |
| Slip.SlipEncoder.EncodeByte | slip.c:49-75 | Updates the buffer and index as the encoding step does |
| Slip.SlipDecoder.Create | slip.c:78-89 | A zeroed raw buffer of rawSize bytes, with index 0 and no escape |
| Slip.SlipDecoder.Begin | slip.c:99-102 | Resets only `index`; `inEscape` keeps its value |
| Slip.SlipDecoder.DecodeByte | slip.c:105-147 | Updates raw, index and inEscape as the decoding step does, and returns its result |
| Tlvc.EncodeData | tlvc.c:12-28 | Sets the tag, sets the length to dataLen mod 2^16, and points the data at the caller's buffer without copying. The checksum is the 16-bit sum of the header bytes and the payload |
| Tlvc.DecodeData | tlvc.c:31-61 | Fails exactly when the envelope decoder fails: fewer than 6 bytes, a length other than dataLen − 6, or a checksum mismatch. On success the tag comes from the header, the data view starts at offset 4, and dataLen is the header length |
| Tlvc.RoundTrip | tlvc.c:12-61 | For payloads of at most 65535 bytes, decoding the serialised envelope gives back its tag and payload |
| Tlvc.DecodeSound | tlvc.c:31-61 | Whatever decodes successfully is the serialisation of an envelope with a matching length and checksum |
| Tlvc.SingleByteCorruptionDetected | tlvc.c:41-53 | Changing any single byte of a valid envelope makes decode fail |
| Joystick.ConfigSizeIsTotal | joystick.h:22-40 | The packed configuration record's field widths add up to its size |
| Joystick.ConfigRoundTrip | joystick.h:22-40 | Parsing the bytes of a record gives the record back |
| Joystick.ParseConfigRoundTrip | joystick.h:22-40 | Any byte string of the record's size parses to a record whose bytes are that string |
| Joystick.ParsedFields | joystick.h:22-40 | The parsed fields are the little-endian values at their offsets |
| Joystick.ReportSizeIsLength | joystick.c:200-206 | The report size is buttonCount + 4·absAxisCount + 4·relAxisCount, the length of the serialised report |
| Joystick.Clamp | joystick.c:179-185 | When min ≤ max the result lies in [min, max]. A value already in range is unchanged. When max < min the result is max |
| Joystick.CopyBytes | joystick.c:209-226 | A copy loop writes the source bytes at the destination offset and nothing else |
| Joystick.CopiesCompose | joystick.c:209-226 | Three consecutive copies leave the concatenation in front and the rest unchanged |
| Joystick.JoystickContext.Create | joystick.c:17-39 | Fresh current and previous slot arrays, sized by the record |
| Joystick.JoystickContext.BeginUpdate | joystick.c:146-162 | Previous becomes equal to current in every class, and current is unchanged |
| Joystick.JoystickContext.UpdateButton | joystick.c:165-170 | An out-of-range index is a no-op. Otherwise only that button changes, to exactly 0 or 1. Previous is untouched |
| Joystick.JoystickContext.UpdateAbsAxis | joystick.c:173-188 | An out-of-range axis is a no-op. Otherwise only that slot changes, to the clamped value |
| Joystick.JoystickContext.UpdateRelAxis | joystick.c:191-197 | An out-of-range axis is a no-op. Otherwise only that slot changes, to the value verbatim |
| Joystick.JoystickContext.GetReportSize | joystick.c:200-206 | Four bytes per abs and rel axis, plus one per button |
| Joystick.JoystickContext.SerializeReport | joystick.c:209-226 | Writes exactly the report size: abs, then rel, then buttons, in slot order. Bytes after that are unchanged |
| Server.FirstFree | server.c:100-105 | The lowest-index free slot, or none exactly when every slot is in use |
| Server.FindFd | server.c:193-194 | The first slot holding the fd, or none exactly when no slot holds it |
| Server.FirstFreeIffRoom | server.c:99-105 | A free slot exists exactly when fewer than maxClients slots are in use |
| Server.InUseCountUpdate | server.c:100-164 | How the in-use count changes when one slot is rewritten |
| Server.ServerContext.Create | server.c:59-72 | All maxClients slots are free, with fd −1 and no context, and nothing has been called yet |
| Server.ServerContext.OnClientConnect | server.c:97-154 | With a free slot: exactly the lowest free slot is claimed, holding the fd and the result of onConnect. With none: onConnect is not called, no slot changes, and the fd is closed |
| Server.ServerContext.OnClientDisconnect | server.c:157-164 | Calls onDisconnect with the slot's context and closes its fd. Only that slot changes: the fd becomes −1 and the slot becomes free, while the context pointer is kept |
| Server.ServerContext.OnClientEvent | server.c:193-208 | Finds the first slot holding the fd. HUP/ERR/RDHUP disconnects it without a read. A read returning false disconnects it. Anything else, or an unknown fd, changes nothing |
| Server.ConnectTakesOneSlot | server.c:97-154 | A connect with room raises the in-use count by exactly one, and never past maxClients |
| Server.DisconnectFreesOneSlot | server.c:157-164 | A disconnect lowers the in-use count by exactly one |
| Server.FullTableReusesFreedSlot | server.c:97-164 | With the table full, connect is refused. After one disconnect, the next connect takes the freed slot |
| Netstickd.CreateDevice | joystick.c:132-143 | A device exists exactly when the record's counts fit the device limits |
| Netstickd.Connected | netstickd.c:36-48 | A new connection has a 32768-byte decoder with index 0 and no escape, is unconfigured, has no device and has emitted nothing |
| Netstickd.HandleMessageCases | netstickd.c:83-146 | Tag 0 on a configured connection is a no-op, checked before the size. Tag 0 of the wrong size is a no-op. An accepted tag 0 stores the device and sets configSet. Tag 1 before configuration emits nothing. Unknown tags change nothing |
| Netstickd.HandleReport | netstickd.c:105-141 | Tag 1 on a configured connection appends exactly the report's events and changes nothing else |
| Netstickd.ReportIgnoresDataSize | netstickd.c:105-120 | The report path's outcome does not depend on dataSize |
| Netstickd.AbsEventsOfReport | netstickd.c:117-126 | Abs event i is EV_ABS(absAxis[i]) carrying the i32 at offset 4i |
| Netstickd.RelEventsOfReport | netstickd.c:118-131 | Rel event i is EV_REL(relAxis[i]) carrying the i32 at offset 4·abs + 4i |
| Netstickd.KeyEventsOfReport | netstickd.c:119-136 | Key event i is EV_KEY(buttons[i]) carrying the byte at offset 4·abs + 4·rel + i |
| Netstickd.ReportEventsOfReport | netstickd.c:111-139 | A report's events are abs + rel + buttons + 1 in number: abs axes, then rel axes, then buttons, then EV_SYN(0, 0) |
| Netstickd.ProcessAppend | netstickd.c:149-187 | Feeding a + b is feeding a, then b |
| Netstickd.ProcessMonotone | netstickd.c:83-187 | configSet is never cleared, the device never changes once set, and the event log only grows |
| Netstickd.ProcessDecoderOnly | netstickd.c:161-176 | Bytes that complete no frame only change the decoder |
| Netstickd.OpeningEnd | netstickd.c:161-176 | The END opening a frame, arriving at index 0, dispatches nothing and changes nothing |
| Netstickd.ClosingEnd | netstickd.c:163-171 | A closing END decodes raw[..index], dispatches only a valid envelope, and resets the index |
| Netstickd.HandleIgnoresDecoder | netstickd.c:83-146 | Handling a message neither reads nor writes the decoder |
| Netstickd.FrameBodyDecoded | netstickd.c:161-176 | After an escaped envelope, the decoder holds its payload at offset 4 |
| Netstickd.FrameResetsDecoder | netstickd.c:163-175 | After a whole frame, the decoder is back at index 0 and outside an escape |
| Netstickd.FrameDispatched | netstickd.c:161-171 | A whole frame dispatches its envelope's tag and payload once |
| Netstickd.FrameDelivers | netstickd.c:149-187 | A frame on a fresh decoder is handled as its message |
| Netstickd.ConfigDelivered | netstickd.c:86-104 | The configuration frame sent to a new connection configures it and creates the device exactly when the record fits |
| Netstickd.ReportDelivered | netstickd.c:105-141 | A report frame on a configured connection emits exactly the expected events, in order |
| Netstickd.ClientContext.Connect | netstickd.c:36-48 | The new connection is in the state `Connected` describes |
| Netstickd.ClientContext.Disconnect | netstickd.c:51-60 | The device is released exactly when configSet is set and a device exists. The older copy (jsproxy.c:314-322) has the same guard without the null dereference |
| Netstickd.ClientContext.HandleMessage | netstickd.c:83-146 | Updates the connection as `Handle` specifies. The older handler (jsproxy.c:340-418) is the same |
| Netstickd.ClientContext.EmitReport | netstickd.c:111-139 | Appends exactly the report's events; the configuration is untouched |
| Netstickd.ClientContext.EmitAbs | netstickd.c:122-126 | Appends the abs events |
| Netstickd.ClientContext.EmitRel | netstickd.c:127-131 | Appends the rel events |
| Netstickd.ClientContext.EmitKeys | netstickd.c:132-136 | Appends the key events |
| Netstickd.ClientContext.Emit | netstickd.c:63-79 | Appends one event to the log |
| Netstickd.ClientContext.Read | netstickd.c:149-187 | Feeds every byte read, in order. It returns false only when `read` returned 0. The older read loop (jsproxy.c:421-459) is the same |
| Netstickd.ClientContext.ReadChunk | netstickd.c:161-176 | Feeds one buffer of bytes |
| Netstickd.ClientContext.ReadByte | netstickd.c:162-175 | Decodes one byte, dispatches a valid envelope at EndOfFrame, and resets the decoder on every frame end or error |
| Netstick.IsBitSetMeaning | netstick.c:143-148 | Bit i is bit i mod 8 of byte i/8, least significant bit first |
| Netstick.BitTest | netstick.c:143-148 | Masking bit k of a byte tests (b / 2^k) mod 2 |
| Netstick.Unmapped | netstick.c:101-107 | KEY_MAX entries, all −1 |
| Netstick.LookupStore | netstick.c:110-130 | After storing, a lookup gives the stored value for the stored class and id. Other entries are unchanged, and a lookup of any type other than EV_ABS, EV_REL or EV_KEY gives −1 |
| Netstick.IndexMap.Create | netstick.c:42-46 | Three fresh arrays of KEY_MAX entries |
| Netstick.IndexMap.Init | netstick.c:101-107 | Every id in all three classes maps to −1. The older copy (jsproxy.c:90-96) is the same |
| Netstick.IndexMap.Set | netstick.c:110-118 | Stores the value for EV_ABS, EV_REL and EV_KEY only; other entries are unchanged. The older copy (jsproxy.c:99-107) is the same |
| Netstick.IndexMap.GetIndex | netstick.c:121-130 | The stored value for the three classes, and −1 for any other type. The older copy (jsproxy.c:110-119) is the same |
| Netstick.SetBitsSpec | netstick.c:193-214 | The ids collected are the set bits below n |
| Netstick.SetBitsSound | netstick.c:193-214 | Every collected id is below n and has its bit set |
| Netstick.SetBitsComplete | netstick.c:193-214 | Every set bit below n is collected |
| Netstick.SetBitsIncreasing | netstick.c:193-214 | The ids come in ascending order |
| Netstick.ClassIdsMeaning | netstick.c:182-218 | An id belongs to a class exactly when the class bit and the id's bit are set; EV_SYN is skipped |
| Netstick.ClassIdsIncreasing | netstick.c:182-218 | The ids of a class come in ascending order |
| Netstick.StrNCpy | netstick.c:161-179 | strncpy: copies up to the first NUL and pads with zeros |
| Netstick.ScanNothing | netstick.c:182-218 | A class with no set bits changes neither the record nor the map |
| Netstick.SlotsSnoc | netstick.c:193-214 | The next id gets the next consecutive slot |
| Netstick.WithAbsSnoc | netstick.c:193-206 | One more abs id appends its axis, info and resolution 100 and bumps the count |
| Netstick.WithRelSnoc | netstick.c:207-210 | One more rel id appends it and bumps the count |
| Netstick.WithKeysSnoc | netstick.c:211-214 | One more key id appends it and bumps the count |
| Netstick.AssignAbs | netstick.c:193-206 | Records one abs id in the record and its slot in the map |
| Netstick.AssignRel | netstick.c:207-210 | Records one rel id in the record and its slot in the map |
| Netstick.AssignKey | netstick.c:211-214 | Records one key id in the record and its slot in the map |
| Netstick.ScanClass | netstick.c:188-216 | Scanning one class's bitmap gives the record and map its set bits determine |
| Netstick.ScanAbs | netstick.c:193-206 | The abs scan gives consecutive slots to the set bits in order |
| Netstick.ScanRel | netstick.c:207-210 | The rel scan gives consecutive slots to the set bits in order |
| Netstick.ScanKeys | netstick.c:211-214 | The key scan gives consecutive slots to the set bits in order |
| Netstick.VisitAbs | netstick.c:193-206 | One abs id visited: the record and map of the bits up to and including it |
| Netstick.VisitRel | netstick.c:207-210 | One rel id visited: the record and map of the bits up to and including it |
| Netstick.VisitKey | netstick.c:211-214 | One key id visited: the record and map of the bits up to and including it |
| Netstick.VisitClass | netstick.c:182-218 | One event class visited, with EV_SYN skipped |
| Netstick.ScannedStep | netstick.c:182-218 | Scanning classes up to i + 1 is scanning up to i, then class i |
| Netstick.Enumerate | netstick.c:161-218 | Builds exactly the record and the index map that the device's bitmaps determine. The older copy (jsproxy.c:175-212) is the same |
| Netstick.SlotsInvert | netstick.c:193-214 | Slot −1 means the id was not enumerated; otherwise the slot's id is that id |
| Netstick.ClientAbs | netstick.c:193-206 | The abs counts equal the number of set bits, and `config.absAxis[map.abs[id]] == id` |
| Netstick.ClientRel | netstick.c:207-210 | The same for rel axes |
| Netstick.ClientKeys | netstick.c:211-214 | The same for buttons |
| Netstick.EnumerationSlots | netstick.c:182-218 | The map sends each enumerated id to its position in the record, and every other id to −1 |
| Netstick.ZeroReportBytes | netstick.c:248-250 | The calloc'd report is all zero bytes |
| Netstick.PackI32Update | netstick.c:252-255 | Changing one i32 slot rewrites exactly its four bytes |
| Netstick.SetAbsBytes | netstick.c:252 | An abs slot's bytes are at offset 4i |
| Netstick.SetRelBytes | netstick.c:253 | A rel slot's bytes are at offset 4·abs + 4i |
| Netstick.SetButtonBytes | netstick.c:254-255 | A button's byte is at offset 4·(abs + rel) + i |
| Netstick.ReportBuffer.Create | netstick.c:248-255 | A zeroed buffer of exactly the report size, with the counts of the record |
| Netstick.ReportBuffer.SetAbs | netstick.c:290 | Only that abs slot changes |
| Netstick.ReportBuffer.SetRel | netstick.c:297 | Only that rel slot changes |
| Netstick.ReportBuffer.SetButton | netstick.c:283 | Only that button changes |
| Netstick.ApplyEventSlot | netstick.c:277-298 | A key stores 0 or 1 (`!!value`). An axis stores its value verbatim. An unmapped id, or any other type, changes nothing. Every other slot keeps its value |
| Netstick.ClientMapsFit | netstick.c:182-255 | Every slot the enumeration hands out lies inside the report it sizes |
| Netstick.UpdateReport | netstick.c:277-298 | The buffer changes as the event's effect on the report says |
| Netstick.FrameMessage | netstick.c:49-71 | For an encoder created with rawSize, the frame is END ++ escape(header ++ payload ++ footer) ++ END, cut at 2·rawSize + 2 |
| Netstick.EncodeBytes | netstick.c:57-69 | Each byte loop feeds its bytes to the encoder in order |
| Netstick.EnvelopeFramed | netstick.c:50-71 | The bytes fed form the serialised envelope |
| Netstick.WireFrameLength | netstick.c:53-71 | The frame has 8 + n bytes plus one per END/ESC byte in the envelope, at most 2(n+6)+2 |
| Netstick.PayloadSizedEncoder | netstick.c:53 | With capacity 2n+2, the frame is whole exactly when the envelope's END/ESC bytes number at most n − 6 |
| Netstick.ShortPayloadCut | netstick.c:53 | A payload under 6 bytes is always cut, before its closing END |
| Netstick.EnvelopeSizedEncoder | slip.c:16 | Capacity 2(n+6)+2 always holds the whole frame |
| Netstick.WriteLoopOutcome | netstick.c:73-97 | The corrected loop `WriteLoop` (retry in place; it agrees with the source's loop only when no reply is EINTR/EAGAIN, `Netstick.AsWrittenAgrees`) reports Sent exactly when the whole frame went out. It dies on the first reply of 0 bytes or an error other than EINTR/EAGAIN, and on no other. It stalls only when every reply was used |
| Netstick.WriteLoopAccepted | netstick.c:79-88 | In the corrected loop `WriteLoop` (which agrees with the source's loop only when no reply is EINTR/EAGAIN, `Netstick.AsWrittenAgrees`), a positive count advances the pointer by that count, so the loop's position is the sum of the used replies' counts, capped at the frame's length |
| Netstick.AcceptedCons | netstick.c:79-88 | The replies' byte counts add up reply by reply |
| Netstick.RetryRepeatsByte | netstick.c:86-87 | For replies 2, EAGAIN, 3 on [END, 5, 7, END], the loop as written reports success with a byte sent twice, while the corrected loop sends the frame once |
| Netstick.AsWrittenAgrees | netstick.c:73-97 | Without EINTR/EAGAIN replies, the loop as written and the corrected loop agree |
| Netstick.WriteAllAsWritten | netstick.c:73-89 | The loop as written, with `toWrite` and `raw` both moved by −1 on EINTR/EAGAIN: it is defined exactly when the pointer never walks before the frame, and then its status, the bytes that reached the socket and the replies used are those of the reply-by-reply loop as written |
| Netstick.TransmitWire | netstick.c:49-97 | Without EINTR/EAGAIN replies, `encode_and_transmit` as written is defined and puts a prefix of the frame cut at 2n+2 on the socket; all of it exactly when it reports success; and then the complete wire frame exactly when that frame fits 2n+2 bytes |
| Netstick.Transmit | netstick.c:49-98 | `encode_and_transmit` as written (encoder of capacity 2n+2, then the loop as written) computes what the as-written transmit specifies, and is undefined exactly when that is |
| Netstick.WriteAll | netstick.c:73-88 | The corrected write loop, which retries in place, computes the status, the bytes written and the replies used that the reply-by-reply loop specifies |
| Netstick.EncodeAndTransmit | netstick.c:49-98 | The corrected transmit (encoder for the whole envelope, retry in place): the bytes on the wire are a prefix of the whole frame, and they are the whole frame whenever the status is Sent |
| Netstick.StoppedStays | netstick.c:274-276 | Once a transmit fails, the client sends nothing more |
| Netstick.ClientRunAppend | netstick.c:256-300 | Running a + b is running a, then b |
| Netstick.ClientRunDelivers | netstick.c:256-300 | While every transmit succeeds and no `write` gives EINTR/EAGAIN, the wire is, in order, the frame of the report as it stood at each EV_SYN, each cut at its encoder's capacity 2n+2; and the report follows every event |
| Netstick.SentFramesWhole | netstick.c:53 | The frames handed to `write` are the complete wire frames of the reports exactly when every report's frame fits its encoder |
| Netstick.DeliversSyn | netstick.c:273-276 | Without EINTR/EAGAIN, an EV_SYN whose transmit succeeds sends the report as it stands, as its cut frame, ahead of what the later events send |
| Netstick.DeliversOther | netstick.c:277-298 | Any other event updates the report and sends nothing |
| Netstick.SynSent | netstick.c:273-276 | Without EINTR/EAGAIN, a successful transmit on EV_SYN appends the report's cut frame, keeps the report, and leaves replies still free of EINTR/EAGAIN |
| Netstick.ReadEventsInMap | netstick.c:270-271 | The events read all have codes the map covers |
| Netstick.HandleEvent | netstick.c:271-298 | One event of the loop, as the client step says: EV_SYN runs the transmit as written, and a failed or undefined transmit stops the loop; any other event updates the report buffer in place |
| Netstick.HandleBatch | netstick.c:270-299 | One read's events, in order |
| Netstick.EventLoop | netstick.c:256-300 | All reads, in order, stopping after a failed transmit |
| Netstick.InitialReport | netstick.c:248-250 | The first report has the record's counts |
| Netstick.SessionFrames | netstick.c:240-300 | While every transmit succeeds and no `write` gives EINTR/EAGAIN, the session's wire is the configuration's cut frame followed by the reports' cut frames |
| Netstick.SendConfig | netstick.c:240-243 | Sends the configuration with the transmit as written: the status, wire bytes and replies used are those of that transmit, and it is undefined exactly when that is |
| Netstick.Serve | netstick.c:240-300 | Sends the configuration, returns when that fails or is undefined, and otherwise runs the event loop: the wire is the session's |
| Netstick.Session | netstick.c:151-300 | The client from the enumeration on |
| Delivery.ReportsDelivered | netstickd.c:149-187 | Report frames on a configured connection emit each report's events, in order |
| Delivery.SessionDelivered | netstickd.c:83-187 | The configuration, then reports, sent to a new connection, emit exactly the reports' events |
| Delivery.TrackShaped | netstick.c:248-298 | Every snapshot keeps the record's slot counts |
| Delivery.ClientToServer | netstick.c:240-300 | When every transmit succeeds, no `write` gives EINTR/EAGAIN, and every frame fits the encoder its transmit creates, a new server connection fed the client's wire writes exactly the events of each report sent, in order |
| Delivery.EnumeratedAccepted | netstick.c:182-218 | The record the client builds from any device is one the server accepts |
| Jsproxy.OnceAgainstLoop | jsproxy.c:51-61 | One write puts the same bytes on the wire as the retrying loop given the same reply. The frame is sent exactly when the write took it whole, and fails exactly when the reply is fatal |
| Jsproxy.PartialWriteAccepted | jsproxy.c:51-61 | A partial write counts as success, and the rest of the frame is lost |
| Jsproxy.TransmitOnce | jsproxy.c:27-62 | The wire gets what one write takes of the frame cut at the payload-sized encoder's capacity 2n+2, and the result is false only for 0 bytes or a fatal error |
| Jsproxy.JsRunTracks | jsproxy.c:247-289 | No reply stops the older client: the report follows every event, with one transmit per EV_SYN |
| Jsproxy.JsRunWire | jsproxy.c:247-289 | The wire is each snapshot's cut frame as far as its single write took it |
| Jsproxy.OnceFramesWhole | jsproxy.c:51-61 | When every write takes its whole cut frame, the older client's wire equals the frames the newer client hands to `write` |
| Jsproxy.JsRunAppend | jsproxy.c:247-289 | Running a + b is running a, then b |
| Jsproxy.JsHandleEvent | jsproxy.c:260-288 | One event of the older loop |
| Jsproxy.JsHandleBatch | jsproxy.c:258-289 | One read's events |
| Jsproxy.JsEventLoop | jsproxy.c:247-289 | All reads, whatever the transmits return |
| Jsproxy.JsSessionIgnoresFailures | jsproxy.c:234-289 | A failed transmit stops nothing: there is one transmit for the record and one per EV_SYN, sending the same reports the newer client would |
| Jsproxy.JsSendConfig | jsproxy.c:234 | Sends the configuration once, and its result is dropped |
| Jsproxy.JsServe | jsproxy.c:234-289 | The configuration, then the event loop |
| Jsproxy.JsClientRun | jsproxy.c:140-290 | The older client from the enumeration on |

## Left out

- Sockets, epoll, bind/listen/accept, keepalive, fcntl, fork, `main`, command-line parsing and all `printf` logging are OS I/O. The server keeps only its slot table. The handlers it calls are recorded in a ghost trace, and the results of `onConnect` and `onReadData` are parameters.
- uinput device setup (`joystick_create_context`, `joystick_add_*`, `joystick_create`) is ioctls on a device the model cannot see.
- Netstickd.CreateDevice: gives a device only when every count lies between 0 and its array's length. In the source a negative count still gets a device. `joystick_add_*` return early for that class (joystick.c:82, 93, 118), and the report loops run zero times for it (netstickd.c:122-135). So each report emits the other classes and then EV_SYN (netstickd.c:137). The model gives no device, so such a connection emits nothing for its reports. A count above its array's length makes the source read past the record's arrays, which is undefined behaviour.
  - Unchecked counts still set `configSet`, as in the source.
- `joystick_destroy_context` and all malloc/free lifetimes are left out. Arrays obtained from malloc are modelled as zeroed.
- joystick.c:200 defines `joystick_get_report_size` on the context, while joystick.h:78 declares it on a configuration. The model follows the definition.
- The `emit` writes to uinput are appends to an event log. Their result is ignored, as in the source. The emitted code is truncated to 16 bits, as in `input_event.code`.
- The null dereference at netstickd.c:55 happens when the log line reads the device's fd. It is not modelled. Only the logical guard of lines 57-59 is.
- Netstickd.Handle: a report is read from the decoder's raw buffer at offset 4, as the source does, so no `dataSize ≥ reportSize` precondition is needed. A short report reads footer or stale bytes, and `Netstickd.ReportIgnoresDataSize` states that dataSize plays no part. The same holds for the unused `rawReportSize` at jsproxy.c:394.
- evdev ioctls, `open` and the blocking `read` of input events are left out. The capability bitmaps, the axis information and the batches of events read are inputs.
  - A `read` returning −1 with EAGAIN makes `numEvents` huge (netstick.c:270), which is undefined behaviour. It is left out.
  - Every event code is assumed to lie below KEY_MAX (`CodeInMap`), since the index map has no entry beyond that.
- Netstick.ApplyEvent: a slot that lies outside the report would be an out-of-bounds write in the source. The model leaves the report unchanged instead; `Netstick.ClientMapsFit` shows the enumeration never produces such a slot.
- `abs_axis_info_t` declares `flat` before `fuzz` (netstick.c:32-38, jsproxy.c:73-79). The kernel fills these fields in another order, and the model takes the axis information in the client's declared layout.
- Netstick.Capabilities: that no abs id at or past ABS_CNT and no rel id at or past REL_CNT is set is an assumption about the kernel. The bitmap `bit` is zero-initialised (netstick.c:177), and `EVIOCGBIT` fills only as many bits as the kernel has codes for that class; `Netstick.ClientMapsFit` and `Delivery.EnumeratedAccepted` rest on it.
- The enumeration's inner loop over ids is split into one method per event class.
- The client's `connect()` failure (netstick.c:221-238) and jsproxy's `socket()` failure (jsproxy.c:215-218) are I/O and are not modelled.
- Netstick.WriteLoop: `write` is an oracle, a sequence of replies.
  - A reply counts at most the bytes still pending.
  - `Stalled` means the replies ran out before the loop ended.
- Netstick.WriteLoopOutcome: about the corrected loop `WriteLoop`. With EINTR/EAGAIN replies the source's loop can report success after repeating or skipping bytes (the second finding below); `Netstick.WriteAllAsWritten` states what it then does.
- Netstick.WriteLoopAccepted: about the corrected loop `WriteLoop`. In the source each EINTR/EAGAIN moves the position back one byte (netstick.c:86-87), so there the position is not the sum of the counts.
- Netstick.ClientStep, Netstick.ClientSession: when the pointer of the write loop as written walks before the frame (undefined behaviour in C), the model stops the client. It does not record the bytes that transmit put on the socket before that point.
- Netstick.ClientRunDelivers: stated only for replies without EINTR/EAGAIN. With them the loop as written repeats or skips bytes (the second finding below); `Netstick.WriteAllAsWritten` states what then reaches the socket.
- Netstick.DeliversSyn, Netstick.SynSent: stated only for replies without EINTR/EAGAIN, for the same reason.
- Netstick.SessionFrames: stated only for replies without EINTR/EAGAIN, for the same reason.
- Delivery.ClientToServer: stated only for replies without EINTR/EAGAIN, and only when every frame fits the encoder its transmit creates. A frame that does not fit is cut (the first finding below; `Netstick.SentFramesWhole` is the exact condition).
- Joystick.JoystickContext.UpdateButton: requires a non-negative index. The source tests only `>= buttonCount` (joystick.c:166), so a negative index is an out-of-bounds write there.
- Joystick.JoystickContext.UpdateAbsAxis: requires a non-negative index. The source tests only `>= absAxisCount` (joystick.c:174), so a negative index is an out-of-bounds read and write there.
- Joystick.JoystickContext.UpdateRelAxis: requires a non-negative index. The source tests only `>= relAxisCount` (joystick.c:192), so a negative index is an out-of-bounds write there.
- In jsproxy, the replies are a function from the transmit number to the reply.
- The port of `jsproxy_server` (9001) and its `main` are configuration and are left out.
- sliptest.c is left out; only its round-trip intent is modelled, as `Slip.DecodeRoundTrip`.

## Findings

| source | as written | input that shows it | evidently intended | confidence | as-written member | corrected member |
|---|---|---|---|---|---|---|
| netstick.c:53 | The encoder is created with the payload length, so its capacity is 2n+2. But the 6 header and footer bytes are fed to it as well, and the encoder's results are not checked | A payload under 6 bytes, e.g. the report of a device with no axes and at most five buttons: the frame is always cut before its closing END, so the server never sees the message. jsproxy.c:31 does the same | An encoder sized for the whole envelope, 2(n+6)+2 | not executed | Netstick.ShortPayloadCut | Netstick.EnvelopeSizedEncoder |
| netstick.c:86-87 | On −1 with EINTR or EAGAIN, `toWrite -= nWritten; raw += nWritten` moves the pointer one byte back | Replies 2 bytes, EAGAIN, 3 bytes on the frame [END, 5, 7, END]: the socket receives END, 5, 5, 7, END | Retry the same bytes without moving the pointer | not executed | Netstick.RetryRepeatsByte | Netstick.WriteAll |
