# RoomMapper core in Dafny

RoomMapper is STM32 firmware that drives a Slamtec RPLIDAR over a UART and
draws the scan as a point map on a 480 x 320 ILI9488 touch display. This
project models and verifies four parts of its core:

- **The RPLIDAR driver** (`Core/Src/rplidar.c`, records in `Core/Inc/rplidar.h`).
  - Request frames and their additive checksum.
  - The packed response records.
  - The byte-at-a-time response parser that runs from the UART receive-to-idle DMA event.
- **The sample queue of the map** (`Core/Src/map.c`).
  - A 1024-slot ring of measurements, filled by the single-measurement callback.
  - The drain of that ring into an 8192-slot ring of screen points.
- **The screen state machine** (`Core/Src/menu.c`).
- **The diagnostics touch router** (`Core/Src/diag.c`), with its per-button debounce.

Files and modules:

| file | module | what it holds |
|---|---|---|
| `wire.dfy` | `Wire` | fixed-width integers; little-endian and big-endian byte layouts |
| `records.dfy` | `Records` | the packed records and the 7-byte response descriptor, each with a decoder (what a cast of the buffer reads) and an encoder, proved inverse |
| `requests.dfy` | `Requests` | the checksum and the request frames |
| `framing.dfy` | `Framing` | the parser as a pure fold `Feed` of a one-byte `Step` over the received bytes, and the response dispatcher |
| `driver.dfy` | `Driver` | the parser statics and the DMA ring as the class `Lidar`; its methods are proved equal to `Framing.Feed` |
| `sample_map.dfy` | `SampleMap` | the statics of map.c as the class `MapState`, with the pure drain `PlotAll` it is proved against |
| `ui.dfy` | `Ui` | menu.c and diag.c; they call each other, so they share one module |

Effects outside the model become parameters or recorded calls:

- The UART transmit is a function parameter. It takes the frame and says whether the HAL returned `HAL_OK`.
- The DMA engine writes the ring and reports `head`.
- `HAL_GetTick` is a parameter `now`.
- The touch position is a parameter.
- The callbacks, the pixels drawn, the show routines and the accepted button presses are logged in order.

## Model

| member | source | states |
|---|---|---|
| Wire.Le16 | Core/Inc/rplidar.h:28 | a packed `uint16_t` keeps its low byte in the first byte and its high byte in the second |
| Wire.Le16Bytes | Core/Inc/rplidar.h:28 | writing a 16-bit word as two bytes, low first, and reading them back gives the word |
| Wire.Le32BytesRoundTrip | Core/Src/rplidar.c:278 | four bytes read as a little-endian word and written back are the same four bytes |
| Wire.Le32RoundTrip | Core/Src/rplidar.c:278 | a 32-bit word written low byte first reads back as the same word |
| Wire.Be32Shifts | Core/Src/rplidar.c:132-135 | the high-byte-first layout of a word is `(w >> 24) & 0xFF`, `(w >> 16) & 0xFF`, `(w >> 8) & 0xFF`, `w & 0xFF` |
| Wire.Be32RoundTrip | Core/Src/rplidar.c:132-135 | the high-byte-first layout read back to front recovers the word, so no bit of the type id is lost |
| Wire.PackNibbles | Core/Inc/rplidar.h:17-18 | two 4-bit fields in one byte: the first declared is the low nibble, the second the high nibble |
| Records.DecodeInfo | Core/Inc/rplidar.h:15-23 | a 20-byte device-info response always yields a 16-byte serial number |
| Records.ModelNibbles | Core/Inc/rplidar.h:17-18 | `model_major` is the low nibble of byte 0 and `model_sub` the high nibble; 0x41 reads as major 1, sub-model 4 |
| Records.InfoRoundTrip | Core/Inc/rplidar.h:15-23 | every device-info value with a 16-byte serial survives encoding then decoding |
| Records.InfoBytesRoundTrip | Core/Inc/rplidar.h:15-23 | every 20-byte buffer survives decoding then encoding: each bit belongs to exactly one field |
| Records.HealthRoundTrip | Core/Inc/rplidar.h:25-29 | status and little-endian error code survive encoding then decoding |
| Records.HealthBytesRoundTrip | Core/Inc/rplidar.h:25-29 | every 3-byte health buffer survives decoding then encoding |
| Records.RateRoundTrip | Core/Inc/rplidar.h:31-35 | both sample periods survive encoding then decoding |
| Records.RateBytesRoundTrip | Core/Inc/rplidar.h:31-35 | every 4-byte sample-rate buffer survives decoding then encoding |
| Records.MeasurementRoundTrip | Core/Inc/rplidar.h:44-51 | start (2 bits), quality (6), check (1), angle (15) and distance (16) survive encoding then decoding |
| Records.MeasurementBytesRoundTrip | Core/Inc/rplidar.h:44-51 | every 5-byte measurement buffer survives decoding then encoding |
| Records.MeasurementFromFields | Core/Inc/rplidar.h:44-51 | a measurement whose packed byte 0 and words at bytes 1-2 and 3-4 equal a buffer's encodes to that buffer |
| Records.WordsRoundTrip | Core/Inc/rplidar.h:61 | a run of 16-bit distances survives encoding then decoding |
| Records.WordsBytesRoundTrip | Core/Inc/rplidar.h:61 | an even-length byte run survives decoding then encoding |
| Records.EncodeWordsAt | Core/Inc/rplidar.h:61 | word k of an encoded run occupies bytes 2k (low) and 2k+1 (high) |
| Records.DecodeWordsAt | Core/Inc/rplidar.h:61 | decoded word k is the little-endian word at bytes 2k and 2k+1 |
| Records.DecodeDense | Core/Inc/rplidar.h:53-62 | an 84-byte express capsule always yields exactly 40 distances |
| Records.DenseRoundTrip | Core/Inc/rplidar.h:53-62 | every capsule value with 40 distances survives encoding then decoding |
| Records.DenseBytesRoundTrip | Core/Inc/rplidar.h:53-62 | every 84-byte capsule buffer survives decoding then encoding |
| Records.DenseFromFields | Core/Inc/rplidar.h:53-62 | a capsule whose nibble bytes, angle word and distances equal a buffer's encodes to that buffer |
| Records.DenseDistanceAt | Core/Inc/rplidar.h:61 | distance k of a capsule is the little-endian word at bytes 4+2k and 5+2k |
| Records.DescriptorRoundTrip | Core/Src/rplidar.c:326-332 | sync bytes, 30-bit length, 2-bit mode and type survive encoding then decoding |
| Records.DescriptorBytesRoundTrip | Core/Src/rplidar.c:326-332 | every 7-byte descriptor buffer survives decoding then encoding |
| Records.DescriptorFieldBytes | Core/Src/rplidar.c:326-332 | the mode is the top two bits of byte 5 and the length's low byte is byte 2 |
| Requests.Checksum | Core/Src/rplidar.c:361-368 | the 8-bit accumulator, wrapping at every addition, ends at the plain sum of the bytes modulo 256 (0 for no bytes) |
| Requests.TotalAppend | Core/Src/rplidar.c:364-367 | the sum of a concatenation is the sum of its parts |
| Requests.ChecksumAppend | Core/Src/rplidar.c:364-367 | the checksum of a concatenation is the 8-bit sum of the parts' checksums |
| Requests.ComputeChecksum | Core/Src/rplidar.c:361-368 | the loop returns the checksum of the first `size` bytes of the buffer |
| Requests.Memcpy | Core/Src/rplidar.c:136 | the payload is copied to the given offset and every other byte of the packet is untouched |
| Requests.RequestFrame | Core/Src/rplidar.c:101-102 | a payload request is the payload plus four bytes, and its last byte is the checksum of all before it |
| Requests.RequestFrameRoundTrip | Core/Src/rplidar.c:101-102 | parsing a payload request gives back its opcode and payload, and only that frame parses to them |
| Requests.SendRequest | Core/Src/rplidar.c:355-359 | a simple request hands the HAL exactly `A5 cmd` and reports the transmit result |
| Requests.StartScanExpress | Core/Src/rplidar.c:99-104 | the express-scan request handed to the HAL is the payload frame of opcode 0x82 with five zero bytes; the transmit result is reported |
| Requests.ExpressScanBytes | Core/Src/rplidar.c:101-102 | that frame is `A5 82 05 00 00 00 00 00 2C`: the checksum 0x2C replaces the initial 0x22 |
| Requests.ConfigurationRequestBytes | Core/Src/rplidar.c:129-137 | the corrected configuration request is `A5 84 (n+4)`, the type id high byte first, the payload, then the checksum of all of these |
| Requests.ConfigurationRequest | Core/Src/rplidar.c:129-137 | the corrected configuration request is 8 bytes longer than the payload; its length byte is n+4, the type id (high byte first) follows, then the payload, then the checksum |
| Requests.ConfigurationPacketAsWritten | Core/Src/rplidar.c:129-137 | the configuration packet as written: 8 bytes longer than the payload, length byte n+1, the type id high byte first, the payload, then the checksum of all before it |
| Requests.ConfigurationLengthMismatch | Core/Src/rplidar.c:131 | as written, the length byte is three less than the bytes that follow it, so no frame sent is a valid payload frame |
| Requests.RequestConfiguration | Core/Src/rplidar.c:121-139 | a payload over 16 bytes sends nothing and fails; otherwise the corrected configuration request is handed to the HAL (length byte n+4; the frame as written is `Requests.ConfigurationPacketAsWritten`) and the transmit result returned |
| Framing.ParseRspType | Core/Src/rplidar.c:303-322 | the six known type bytes map to their response types and every other byte maps to UNKNOWN |
| Framing.TypeCodeRoundTrip | Core/Src/rplidar.c:303-322 | each known response type is recovered from its type byte |
| Framing.Dispatch | Core/Src/rplidar.c:248-301 | dispatch succeeds exactly for a payload of the record size of its type, or a configuration payload of at least 4 bytes; UNKNOWN never succeeds; the callback matches the type |
| Framing.DispatchSound | Core/Src/rplidar.c:248-301 | a successful dispatch's record encodes back to exactly the payload |
| Framing.DispatchRoundTrip | Core/Src/rplidar.c:248-301 | every callback is produced by dispatching its own encoding; a configuration type id is read low byte first |
| Framing.ShortConfigurationAsWritten | Core/Src/rplidar.c:276-281 | as written, a 1- to 3-byte configuration response passes a payload size of at least 65533; the corrected dispatch rejects it |
| Framing.ConfigurationSizeAsWritten | Core/Src/rplidar.c:279 | the payload size passed as written is `size - 4` in 16 bits: four less than the response size, or 65536 more than that when the response is shorter than 4 bytes |
| Framing.DescriptorDecisionAsWritten | Core/Src/rplidar.c:324-353 | as written: wrong sync pair gives ERROR with length and type unchanged; else the length is byte 2 only, the type is mapped, and mode 0/1/other gives SINGLE/MULTI/ERROR |
| Framing.ParseDescriptorAsWritten | Core/Src/rplidar.c:324-353 | as written, the descriptor never leads back to the descriptor phase, and an armed response takes byte 2 alone as its length and byte 6 mapped as its type |
| Framing.ParseDescriptor | Core/Src/rplidar.c:324-353 | the descriptor never leads back to the descriptor phase, and an armed response always fits the 128-byte buffer |
| Framing.DescriptorDecision | Core/Src/rplidar.c:336-352 | SINGLE exactly for right sync, mode 0 and a length in 1..128; MULTI the same with mode 1; an armed response has the declared length and mapped type |
| Framing.LengthHazardsAsWritten | Core/Src/rplidar.c:341 | as written, declared lengths 129, 0 and 261 arm responses of 129, 0 and 5 bytes (with 0, the 129th payload byte overruns the buffer and no frame completes normally); the checked version sends each to ERROR |
| Framing.Step | Core/Src/rplidar.c:192-245 | one byte keeps the parser invariant (partial buffers shorter than their arrays, armed length within 1..128) and adds at most one callback |
| Framing.Feed | Core/Src/rplidar.c:190-246 | any byte sequence keeps the parser invariant and only appends to the callback log |
| Framing.FeedAppend | Core/Src/rplidar.c:190-195 | chunking invariance: parsing `a` then `b` is parsing `a + b` |
| Framing.FeedSnoc | Core/Src/rplidar.c:192-245 | parsing one more byte is one more step |
| Framing.ErrorAbsorbing | Core/Src/rplidar.c:242-243 | in ERROR every byte is dropped and nothing changes, callbacks included |
| Framing.ErrorDropsRest | Core/Src/rplidar.c:242-243 | once a prefix has led to ERROR, the rest of the input changes nothing |
| Framing.CollectDescriptorPrefix | Core/Src/rplidar.c:196-200 | the first six descriptor bytes are only collected |
| Framing.CollectDescriptor | Core/Src/rplidar.c:196-206 | the seventh byte decodes the descriptor, empties the descriptor buffer and takes the state, length and type it decides |
| Framing.CollectPayloadPrefix | Core/Src/rplidar.c:209-215 | payload bytes before the last are only collected |
| Framing.CollectPayload | Core/Src/rplidar.c:209-237 | the last payload byte dispatches once on exactly those bytes; success goes to DESCRIPTOR from SINGLE and stays in MULTI, failure goes to ERROR |
| Framing.ArmDescriptor | Core/Src/rplidar.c:196-206 | a well-formed descriptor arms a response of its length and type in the mode it names |
| Framing.FeedFrame | Core/Src/rplidar.c:196-237 | a well-formed descriptor and a payload of its length give exactly one dispatch of that payload |
| Framing.MultiFrame | Core/Src/rplidar.c:226-229 | one frame in multi mode adds its callback and stays in multi mode |
| Framing.MultiStream | Core/Src/rplidar.c:209-237 | any number of dispatchable frames in multi mode give one callback each, in order, with no descriptor between them |
| Framing.DeviceInfoScenario | test/main.c:15-32 | the INFO descriptor and a payload starting 0xF0 give one device-info callback with `model_sub` 15 and `model_major` 0 |
| Framing.MeasurementScenario | Core/Src/rplidar.c:196-237 | a multi-mode scan descriptor and one 5-byte sample give one measurement callback (quality 60, angle 1200, distance 8150) and stay in multi mode |
| Driver.RingSpan | Core/Src/rplidar.c:176-185 | the span one RX event parses has `head - tail` bytes, or `2048 - tail + head` when the head is not ahead |
| Driver.RingSpanArrivals | Core/Src/rplidar.c:171-188 | if the DMA wrote bytes `s` from the tail onward, wrapping at 2048, the RX event parses exactly `s` in arrival order |
| Driver.RingFeed | Core/Src/rplidar.c:176-185 | parsing `[tail, 2048)` then `[0, head)` is parsing the whole span |
| Driver.Lidar.constructor | Core/Src/rplidar.c:62-65 | the statics start as the initial parser with an empty log and tail 0 |
| Driver.Lidar.ParseDescriptor | Core/Src/rplidar.c:324-353 | the method decides what the corrected `Framing.ParseDescriptor` decides, on the collected bytes: it adds a length check (1 to 128) the source lacks; the decision as written is `Framing.ParseDescriptorAsWritten` |
| Driver.Lidar.ParseResponse | Core/Src/rplidar.c:248-301 | the method succeeds exactly when the corrected `Framing.Dispatch` does and logs exactly its callback; it adds a check (CONF payload of at least 4 bytes) the source lacks, and `Framing.ShortConfigurationAsWritten` shows the as-written size |
| Driver.Lidar.ParseByte | Core/Src/rplidar.c:194-239 | the statics after one byte are `Framing.Step` of the statics before it |
| Driver.Lidar.ParseRx | Core/Src/rplidar.c:190-246 | the statics after `_ParseRX` are `Framing.Feed` of the statics before it with the span's bytes, including the early return in ERROR |
| Driver.Lidar.RxEvent | Core/Src/rplidar.c:171-188 | for this UART, the statics become `Feed` of the ring span and the tail becomes the head; for another UART nothing changes |
| Driver.DeviceInfoTest | test/main.c:9-33 | replaying the test program on the driver class runs the device-info callback, which reads `model_sub` as 15 |
| SampleMap.SlotNext | Core/Src/map.c:69 | advancing the read index by one slot, modulo 1024, after k slots is advancing it k+1 slots |
| SampleMap.PointSlotNext | Core/Src/map.c:73 | the same for the point index modulo 8192 |
| SampleMap.EnqueueWindow | Core/Src/map.c:127-130 | writing the slot just past a window of fewer than 1024 samples appends to the window and keeps the samples already there |
| SampleMap.DequeueWindow | Core/Src/map.c:68-70 | reading the oldest sample leaves the rest of the window starting one slot on (FIFO) |
| SampleMap.PlotAllSnoc | Core/Src/map.c:61-74 | draining one more sample is one more loop iteration |
| SampleMap.PlotOneStep | Core/Src/map.c:62-72 | one drain step stores the converted point in the current slot and in no other, moves to the next slot, and draws the point last, after erasing the slot's old point exactly when it is not at (0, 0) |
| SampleMap.PlotAll | Core/Src/map.c:60-75 | the drain of a run of samples keeps the point ring at 8192 slots with its index in range; what it draws and where is stated by PlotAllSnoc, PlotAllAdvances, PlotAllPlaces and PlotAllKeeps |
| SampleMap.PlotAllAdvances | Core/Src/map.c:62-73 | draining n samples moves the point index by n modulo 8192 and draws between n and 2n pixels, appending to those drawn before |
| SampleMap.PlotAllPlaces | Core/Src/map.c:68-73 | when at most 8192 samples are drained, the k-th lands in point slot `idx + k` |
| SampleMap.PlotAllKeeps | Core/Src/map.c:60-75 | a point slot none of the drained samples lands in keeps its point |
| SampleMap.DistinctSlots | Core/Src/map.c:73 | different offsets below 8192 from one start name different point slots |
| SampleMap.MapState.constructor | Core/Src/map.c:31-39 | empty, consistent rings, all-zero slots, threshold 20 |
| SampleMap.MapState.OnSingleMeasurement | Core/Src/map.c:122-133 | accepted exactly with room, a non-zero distance and quality above the threshold; an accepted sample goes to the write slot and joins the pending samples; anything else changes nothing |
| SampleMap.MapState.DrawSamples | Core/Src/map.c:60-75 | drains every pending sample in FIFO order into successive point slots, ends with count 0, moves the read index past them and keeps the ring consistent |
| SampleMap.MapState.DrawNext | Core/Src/map.c:61-73 | one iteration draws the oldest sample into the current point slot after erasing a non-origin old point |
| SampleMap.MapState.DrainNext | Core/Src/map.c:61-73 | the i-th loop iteration of a drain of the pending samples moves the read index one slot on, lowers the count by one, and leaves the screen as the drain of the first i+1 samples |
| SampleMap.MapState.Reset | Core/Src/map.c:77-88 | as written: all slots zeroed, point index, write index and count 0, read index kept; the ring is consistent afterwards exactly when the read index was 0 |
| SampleMap.MapState.ResetRing | Core/Src/map.c:77-88 | corrected reset: empty and consistent whatever the state before |
| SampleMap.MapState.SetQuality | Core/Src/map.c:117-120 | only the threshold changes |
| SampleMap.StaleSampleAfterReset | Core/Src/map.c:77-88 | after one sample drawn, a reset and one new sample, the next drain would draw a zeroed slot instead of the new sample |
| SampleMap.FreshSampleAfterResetRing | Core/Src/map.c:77-88 | with the corrected reset, the next drain draws the new sample |
| Ui.MainTarget | Core/Src/menu.c:102-113 | a main-screen touch always leaves the main screen |
| Ui.MainTargetRegion | Core/Src/menu.c:18-21 | DIAG exactly inside [5, 72) x [265, 310), MAP everywhere else |
| Ui.Switched | Core/Src/menu.c:29-33 | setting a screen selects it and marks it not shown |
| Ui.Update | Core/Src/menu.c:57-84 | an update keeps the screen, leaves it initialised, and shows it exactly when it was not initialised |
| Ui.ShowOncePerSetScreen | Core/Src/menu.c:57-84 | after a screen change, any one or more updates run the show routine exactly once |
| Ui.InitializedShowsNothing | Core/Src/menu.c:62-81 | updates of an initialised screen never show it again |
| Ui.DiagHitFirstMatch | Core/Src/diag.c:87-127 | a touch goes to a button exactly when its rectangle holds it and no button tested earlier does; to none exactly when no rectangle holds it |
| Ui.DiagHit | Core/Src/diag.c:87-127 | a touch is given to a button only inside that button's rectangle, and to no button exactly when no rectangle holds it |
| Ui.SharedColumns | Core/Src/diag.c:30-43 | x = 189 lies in HEALTH and DEVICE and goes to HEALTH; x = 288 lies in DEVICE and RATE and goes to DEVICE |
| Ui.CloseRegion | Core/Src/diag.c:25-28 | CLOSE is hit exactly inside [430, 454) x [20, 44) |
| Ui.ElapsedWraps | Core/Src/diag.c:91 | the `uint32_t` difference is the elapsed time, or the elapsed time across the tick's wrap |
| Ui.DiagPressSpec | Core/Src/diag.c:85-139 | a press is accepted exactly on a button last pressed at least 1000 ticks ago (mod 2^32); only that button's timestamp becomes `now`; otherwise nothing changes |
| Ui.DiagPress | Core/Src/diag.c:85-139 | an accepted press is on the button the touch hits, last pressed at least 1000 ticks ago, and stamps only that button with `now`; a refused press changes no timestamp |
| Ui.NoPressBeforeTick1000 | Core/Src/diag.c:90-94 | from start-up no press is accepted before tick 1000 |
| Ui.DebounceHolds | Core/Src/diag.c:91-95 | after an accepted press the same button ignores presses for the next 999 ticks, across a wrap too |
| Ui.TouchPanel.GotATouch | Core/Src/XPT2046.c:143-147 | the latch is reported and cleared |
| Ui.Diag.constructor | Core/Src/diag.c:90 | every timestamp starts at 0 and no press has been acted on |
| Ui.Diag.Touch | Core/Src/diag.c:83-139 | timestamps move as `DiagPress` says, an accepted press is recorded, and an accepted CLOSE sets the screen to MAIN through `MENU_SetScreen` |
| Ui.Menu.constructor | Core/Src/menu.c:26-27 | the main screen, not yet shown |
| Ui.Menu.SetScreen | Core/Src/menu.c:29-33 | the screen changes as `Switched` says |
| Ui.Menu.UpdateScreen | Core/Src/menu.c:57-84 | the state changes as `Update` says, the show routine is logged exactly then; the map screen drains every pending sample as `PlotAll` places them, advances the read index by the count, keeps the write index, the threshold and the ring's consistency; other screens leave the ring untouched |
| Ui.Menu.HandleTouch | Core/Src/menu.c:35-55 | the latch is always consumed; only a latched touch with a position reaches the current screen's handler (main: `MainTarget`; map: the position is logged; diag: `DiagPress`), only the map screen logs a map touch, and nothing changes otherwise |
| Ui.Menu.MainTouch | Core/Src/menu.c:102-113 | the screen changes to `MainTarget` of the touch |

## Left out

- Concurrency is not modelled. Every call is an atomic step: the RX event against the foreground, and the single-measurement callback against the map's drain.
- The HAL is not modelled: UART transmit and receive, DMA set-up (`RPLIDAR_Init`), `HAL_GetTick`. Transmit is a function parameter, the ring is written by the caller, and the tick is a parameter.
- The blocking requests with a timeout declared in `Core/Inc/rplidar.h` (lines 69-71) are not modelled, nor `RPLIDAR_StopScan` and `RPLIDAR_Reset`. `Core/Src/rplidar.c` has no implementation of them.
- The one-line wrappers `RPLIDAR_StartScan`, `RPLIDAR_Stop`, `RPLIDAR_RequestDeviceInfo` and `RPLIDAR_RequestHealth` are `SendRequest` with a fixed opcode.
- Requests.SendRequest, Requests.StartScanExpress and Requests.RequestConfiguration return the bytes in the packet when `HAL_UART_Transmit_IT` is called, not the bytes that reach the wire. In the source each packet is a local array, and the interrupt-driven transmit may still be reading it after the function has returned, so every byte after the first may come from a reused stack frame. The model has no stack and no interrupts, so this buffer lifetime is not captured.
- The header declares `RPLIDAR_OnConfiguration` with one record pointer, but rplidar.c defines and calls it with (type, payload, size). The model follows rplidar.c.
- The weak `RPLIDAR_On...` callbacks are recorded in the parser's log, not run. Only `RPLIDAR_OnSingleMeasurement` of map.c has a body, and it is modelled as `MapState.OnSingleMeasurement`.
- The measurement `check` bit is not validated; the code does not check it. A 5-byte scan response is delivered whatever its check bit.
- For a device-info first byte of 0x41, the code reads `model_major` 1 and `model_sub` 4, because GCC puts the first-declared bit-field in the low nibble (`Records.ModelNibbles`). The model follows the code, not the reverse reading (major 4, sub-model 1).
- The express-scan initialiser puts 0x22 in the last byte, but the code overwrites it with the additive checksum 0x2C (`Requests.ExpressScanBytes`).
- The configuration request writes the type id high byte first, while a configuration response's type id is read low byte first. Both are modelled as the code has them.
- `_ConvertSampleToPoint` (floating point and trigonometry) is a function parameter of the drain. In the source the conversion is stateful: the scale mode stays AUTO, because `MAP_SetScaleMode` (Core/Src/map.c:90-115) never stores its argument, so each conversion may raise `map_scale_distance_max` and `map_scale_factor` and redraw the scale (Core/Src/map.c:141-147). Each point thus depends on the samples before it. The point values in `SampleMap.MapState.DrawSamples`' ensures assume one fixed scale for the whole drain.
- Scale handling is not modelled: `MAP_SetScaleMode`, the scale statics, `MAP_Init`, `MAP_DrawMenu` and the grid and scale drawing.
- `MAP_Reset`'s call to `MAP_DrawMenu` is not modelled.
- `MAP_Touch` and `MAP_Show` are declared in `Core/Inc/map.h` but defined in no source file. A map-screen touch is only recorded.
- The bodies of the show routines are drawing only: `_MainShow`, `MAP_Show`, `DIAG_Show`. A show is recorded as a call.
- The buzzer and the `_TestHealth`, `_TestDevice` and `_TestRate` routines are not modelled. They are drawing plus the blocking requests above. An accepted press is recorded with its button.
- `XPT2046_GetTouchPosition` (SPI polling and float calibration) is a parameter giving the position, or nothing when the reading fails.
- Ui.Menu.HandleTouch ignores its position parameter when no touch is latched, because the code never reads the position then.

## Findings

| source | as written | input that shows it | evidently intended | confidence | as-written member | corrected member |
|---|---|---|---|---|---|---|
| Core/Src/rplidar.c:63, 212-215, 341 | the 30-bit descriptor length is stored in the 8-bit `rpl_resp_len` and never checked against the 128-byte response buffer | descriptor `A5 5A 81 00 00 00 81` arms a 129-byte response, one byte past `rpl_resp_buf`; `A5 5A 00 01 00 00 81` (length 256) arms length 0: the 16-bit index is compared only after it is incremented, so the 129th payload byte already overruns the buffer and no frame completes normally; `A5 5A 05 01 00 40 81` (length 261) arms 5 bytes | a declared length of 0 or above 128 is a framing error | high, not executed | Framing.ParseDescriptorAsWritten, Framing.LengthHazardsAsWritten | Framing.ParseDescriptor, Framing.DescriptorDecision |
| Core/Src/rplidar.c:276-281 | a configuration response is dispatched whatever its size, with `size - 4` as the payload size | a CONF descriptor with length 2: the callback gets payload size 65534 and a type id read partly from stale buffer bytes | a configuration response shorter than its 4-byte type id fails dispatch | high, not executed | Framing.ConfigurationSizeAsWritten, Framing.ShortConfigurationAsWritten | Framing.Dispatch, Framing.DispatchSound |
| Core/Src/rplidar.c:131 | the length byte of the configuration request is `payload_size + 1` | any type id with an empty payload: the length byte is 1, but 4 type-id bytes follow | the length byte counts the 4 type-id bytes and the payload, `payload_size + 4` | medium (sensor protocol documents are not part of this model), not executed | Requests.ConfigurationPacketAsWritten, Requests.ConfigurationLengthMismatch | Requests.RequestConfiguration, Requests.ConfigurationRequestBytes |
| Core/Src/map.c:77-88 | `MAP_Reset` zeroes the rings and the write index and count but not `map_sample_read_idx` | one sample drawn (read index 1), a reset, one new sample: it is written to slot 0, and the next drain draws the zeroed slot 1 | the reset empties the ring consistently, read index 0 | medium (`MAP_Reset` has no caller in this repository), not executed | SampleMap.MapState.Reset, SampleMap.StaleSampleAfterReset | SampleMap.MapState.ResetRing, SampleMap.FreshSampleAfterResetRing |
