# The measurement pipeline of the wasm-profiling benchmarks, in Dafny

The benchmarks measure WebAssembly runtimes on STM32 boards. This project models how those measurements are
made on the device and rebuilt on the host, for the WAMR variant, and proves what the numbers mean.

* **Heap trace.** The wrapped `malloc`, `realloc` and `free` (`Device`) send packed 13-byte records
  (`HeapRecord`) between two text markers, each byte in an ITM packet (`Itm`; packet format of appendix D4 of the
  ARMv7-M Architecture Reference Manual, DDI 0403E). The host strips the packets, cuts the trace out by lines and
  a regular expression (`Framing`), decodes and replays it (`Replay`) and prints the peak (`GetHeap`).
  `Allocator` is the device's heap as far as its contract goes. Main result: `GetHeap.EndToEnd`, and the same
  over every run of the wrappers in `Device.Tracer`.
* **Stack watermark.** `Watermark`: painting, scanning, and what the scan says after any run.
* **Console.** `Console`: the line editor over the circular buffer in every reachable state, and the reads that
  drain it; `Echo`: what a terminal shows; `GatherWrite`: WASI `fd_write`.
* **Clock.** `Clock`: the printed delay in 32-bit arithmetic.

Methods and classes stand for the code that works by changing state; each is proved against a function on
values, and the theorems are about those functions.

Results that say when the code does *not* do what one would hope, each with its exact condition and with data that
shows it:

* A record can forge the end marker, but only at offset 1 or 2, and then the host gets a truncated trace. This is
  an if-and-only-if (`HeapRecord.FramingExact`); addresses in RAM exclude it (`HeapRecord.ForgedRecordExists`). The
  host then always raises, and never prints a wrong peak (`GetHeap.RunOutcome`).
* A realloc of a block from before the start marker raises a missing key (`Replay.RaisesIff`,
  `Replay.ReallocOfOlderBlock`).
* A complete older trace in front of the current one is what the host reports (`Framing.StaleTraceWins`,
  `GetHeap.UnreadEmptyTraceWins`).
* A realloc onto another live block makes the running total exceed the live bytes by exactly the size it
  overwrites (`Replay.TotalIsSumIffNoLeak`, `Replay.ClobberingRealloc`).
* The circular buffer does not work as one. The length test uses C's truncating remainder, so a line that
  reaches the wrap is never delivered, and all later reads return nothing (`Console.LineDeliveredIff`,
  `Console.WrappedIsDead`, `Console.FullLineIsLost`, `Console.SecondLineIsLost`); the console hands out at most
  126 bytes in its lifetime (`Console.LifetimeBound`). A 127th byte in a line that does not start at index 0 makes
  the buffer look empty and desynchronises the echo (`Echo.EchoRun`, `Echo.LongSecondLineBreaksEcho`).
* `^W` looks at the stale cell behind the cursor, so it does nothing when that cell holds whitespace
  (`Console.KeyRefines`, `Console.WordKeyStopsAtStaleBlank`).
* `fd_write` repeats the front of a buffer that contains a NUL: its output and count are right if and only if there
  is none (`GatherWrite.GatherExactIff`, `GatherWrite.NulRepeatsTheFront`). It never returns if and only if a
  non-empty buffer starts with one (`GatherWrite.StuckIff`).
* A lost packet header in front of a data byte 2 or 3 damages the stream; in front of a 1 the damage moves on to
  the next byte (`Itm.SingleLossExact`, `Itm.LostHeaderDamages`).
* A stack write below eight painted words that nothing touches is not seen. The report is the stack's depth if and
  only if there is no such gap (`Watermark.WatermarkOfWrites`, `Watermark.GapHidesDeepWrite`).
* With fewer than eight words to scan, the stack use wraps to nearly 2^32 (`Watermark.ShortScanWraps`).
* The printed delay is within a tick of the truth if and only if the time seen by the ticks, in units of
  1/CLOCKS_PER_SEC milliseconds, fits 32 bits, whether or not the millisecond counter wraps in between
  (`Clock.DelayAccurateIff`, `Clock.TwelveHoursOverflow`).

The painted region runs down to the end of .bss, and the heap grows up from there. The watermark theorems therefore
allow any writes at all, as long as the eight words below the stack's depth are left alone.

`dafny verify dfyconfig.toml` checks the whole project.

## Model

| member | source | states |
|---|---|---|
| GetHeap.EndToEnd | wamr/stm32/run-benches.py:175-237 | for every legal allocator run on RAM addresses, any junk in unused union bytes, any bytes in front that hold no complete trace, anything behind, and any loss of repairable packet headers, the printed peak is the run's largest number of live bytes |
| GetHeap.StreamPeak | wamr/stm32/run-benches.py:175-237 | the same at the level of the data stream, for any run in which no record forges the end marker |
| GetHeap.GetHeaps | wamr/stm32/run-benches.py:67-86 | one call per benchmark on the same stream, each starting where the one before left off |
| GetHeap.BackToBack | wamr/stm32/run-benches.py:67-86 | for any list of runs on one stream, the n-th call returns the n-th run's high-water mark |
| GetHeap.BackToBackOnTheWire | wamr/stm32/run-benches.py:67-86 | the same from the packets, under any repairable loss |
| GetHeap.UnreadEmptyTraceWins | wamr/stm32/run-benches.py:176-190 | two unread markers with nothing between them are reported as a peak of 0, whatever follows |
| GetHeap.DataPeak | wamr/stm32/run-benches.py:191-237 | decoding and replaying a legal run's payload raises nothing and gives its high-water mark |
| GetHeap.GetHeap | wamr/stm32/run-benches.py:175-237 | the loops, the expression, the decoding and the replay compute the specified outcome of the stream, errors and waiting included, and leave what follows the end marker unread |
| GetHeap.WaitsIff | wamr/stm32/run-benches.py:176-190 | on any stream, it waits for ever exactly while there is no start marker with an end marker behind it, and the expression never fails to match |
| GetHeap.CutShortIff | wamr/stm32/run-benches.py:191-193 | on any payload, it fails for a short last record exactly when the length is no multiple of 13, whatever the records say |
| GetHeap.WholeRecords | wamr/stm32/run-benches.py:194-237 | on any whole number of records, it raises exactly the first failure of the trace, or else returns the maximum of the totals over all prefixes |
| GetHeap.PayloadOutcome | wamr/stm32/run-benches.py:175-237 | at the level of the stream: any payload with no marker byte where a tag belongs, of any length, and no forged marker has the outcome of its bytes |
| GetHeap.ForgedPayloadCutShort | wamr/stm32/run-benches.py:183-193 | a forged end marker leaves one or two bytes over, so it always raises |
| GetHeap.RunOutcome | wamr/stm32/run-benches.py:175-237 | any encoded run, legal or not, is cut short if and only if a record forges the end marker, and else has the outcome of its records |
| GetHeap.TruncatedRun | wamr/stm32/run-benches.py:191-193 | a run whose last record is incomplete always raises |
| GetHeap.LineWith | wamr/stm32/run-benches.py:177-182 | the first loop keeps exactly the first line that ends with the marker and leaves the rest of the stream |
| GetHeap.LinesThrough | wamr/stm32/run-benches.py:183-187 | the second loop keeps every line through the first that ends with the marker, and leaves the rest |
| GetHeap.DecodePackets | wamr/stm32/run-benches.py:191-193 | the stride-13 loop decodes the whole payload, or fails when the last record is cut short |
| Device.Tracer.PostMain | wamr/stm32/src/main.c:301-305 | the start marker goes out behind whatever was sent before; log and live map are empty |
| Device.Tracer.TraceBuffer | wamr/stm32/l4/init.c:126-141 | every byte leaves as one packet, in order, behind what was sent before |
| Device.Tracer.WrapMalloc | wamr/stm32/src/main.c:355-368 | the pointer is passed through, one record is sent, and the wire still carries exactly the logged legal run |
| Device.Tracer.WrapRealloc | wamr/stm32/src/main.c:370-384 | the same for realloc, where a failed call leaves its block live |
| Device.Tracer.WrapFree | wamr/stm32/src/main.c:386-397 | the same for free |
| Device.Tracer.Done | wamr/stm32/src/main.c:313 | after the end marker, what the host computes from the wire is the run's high-water mark |
| Allocator.StepFollows | wamr/stm32/run-benches.py:197-236 | one legal call never raises, keeps the host's map equal to the live map and the total equal to the live bytes, and updates the peak |
| Allocator.MapFollowsAtEveryStep | wamr/stm32/run-benches.py:197-236 | after every prefix of a legal run the host's map is the live map and its total the live bytes |
| Allocator.PeakIsHighWater | wamr/stm32/run-benches.py:194-237 | over whole legal runs: no exception, the final map is the live map, the peak is the maximum of live bytes |
| Allocator.HighWaterIsMaximum | wamr/stm32/run-benches.py:236-237 | the high-water mark bounds the live bytes after every prefix of the run and is attained |
| Replay.ReplayAll | wamr/stm32/run-benches.py:194-237 | the replay loop with its `continue` branches computes the specified fold, exceptions included |
| Replay.RaisesIff | wamr/stm32/run-benches.py:198-235 | any trace fails exactly at its first malloc onto a block, realloc of no block or unknown tag, each with its own error; where blocks are is told by the last record about an address, and so is the final map |
| Replay.TotalTells | wamr/stm32/run-benches.py:203-233 | the total of any trace is the sum of what each record adds and takes away, as the records in front of it tell |
| Replay.ReallocOfOlderBlock | wamr/stm32/run-benches.py:215-217 | a realloc of an address that was never traced raises the missing key |
| Replay.RunAppend | wamr/stm32/run-benches.py:197-236 | replaying a concatenation is replaying the second part from the first part's final state |
| Replay.StrikeOut | wamr/stm32/run-benches.py:198-230 | failed calls, frees of null and frees of unknown addresses can be removed from any trace without changing its outcome |
| Replay.Accounting | wamr/stm32/run-benches.py:207-233 | on every trace the total exceeds the sum of the map by exactly the sizes of live blocks that reallocs overwrote |
| Replay.TotalIsSumIffNoLeak | wamr/stm32/run-benches.py:207-233 | the total is the sum of the map if and only if nothing was overwritten |
| Replay.ClobberingRealloc | wamr/stm32/run-benches.py:208-222 | two blocks and a realloc of one onto the other: 24 bytes in the total, 16 live |
| Replay.PeakIsMaximum | wamr/stm32/run-benches.py:236-237 | the peak is the maximum of the totals over all prefixes, although `continue` skips its update |
| Replay.AddressesDoNotMatter | wamr/stm32/run-benches.py:194-237 | any injective renaming of addresses that fixes null gives the same total, peak and exception on any trace, well-formed or not |
| HeapRecord.WordRoundTrip | wamr/stm32/run-benches.py:142-159 | a 32-bit word survives its four little-endian bytes |
| HeapRecord.BytesRoundTrip | wamr/stm32/run-benches.py:142-159 | four bytes survive their word |
| HeapRecord.WordLayout | wamr/stm32/run-benches.py:142-159 | the low byte comes first |
| HeapRecord.RecordLayout | wamr/stm32/src/main.c:325-353 | tag 0, 1 or 2, then the pointers and the size in the order of the packed structs |
| HeapRecord.RecordRoundTrip | wamr/stm32/src/main.c:331-353 | decoding an encoded record gives it back whatever the unused union bytes held |
| HeapRecord.RecordIsEncoding | wamr/stm32/run-benches.py:160-173 | 13 bytes that decode to a known record are an encoding of that record |
| HeapRecord.TraceRoundTrip | wamr/stm32/run-benches.py:191-193 | decoding at stride 13 gives back every sequence of records |
| HeapRecord.DecodesIffEncoded | wamr/stm32/run-benches.py:191-193 | decoding fails exactly when the length is no multiple of 13, and a payload without unknown tags is the encoding of what it decodes to |
| HeapRecord.RamPointersDoNotForge | wamr/stm32/l4/device.ld:4 | a record whose first pointer is null or in RAM cannot contain the end marker |
| HeapRecord.FramingExact | wamr/stm32/run-benches.py:176-190 | for any records, the host extracts exactly their bytes if and only if none of them spells the end marker at offset 1 or 2 |
| HeapRecord.ForgedRecordExists | wamr/stm32/run-benches.py:183-190 | a realloc record outside RAM that does spell it |
| Framing.MarkerText | wamr/stm32/src/main.c:305-313 | the two markers, as text |
| Framing.ScanFindsFirst | wamr/stm32/run-benches.py:177-187 | reading line by line until a line ends with the marker stops at the first occurrence of the marker anywhere in the stream, and waits exactly when there is none |
| Framing.RegexIs | wamr/stm32/run-benches.py:190 | the match is the last start marker that an end marker follows, up to the first end marker behind it |
| Framing.ExtractDecidesTrace | wamr/stm32/run-benches.py:176-190 | the loops stop exactly when the stream holds a start marker and behind it an end marker, and then the expression always matches |
| Framing.StaleTraceWins | wamr/stm32/run-benches.py:176-190 | behind a complete older trace nothing influences the result |
| Framing.NoSecondStart | wamr/stm32/run-benches.py:190 | the start marker cannot occur inside the payload or across its ends, because every window of 13 bytes covers a tag |
| Framing.EndOnlyAfterTag | wamr/stm32/run-benches.py:184-190 | the end marker can occur early only at offset 1 or 2 of a record |
| Framing.NoEndAcrossStart | wamr/stm32/run-benches.py:184-190 | the end marker cannot straddle the start marker |
| Framing.ExtractPayload | wamr/stm32/run-benches.py:176-190 | any tagged payload is cut at its first end marker, and the stream is left right behind that |
| Framing.ExtractIffNoForgedEnd | wamr/stm32/run-benches.py:176-190 | the payload is extracted whole if and only if no end marker is forged inside it |
| Itm.SwoReader.RecvAll | wamr/stm32/run-benches.py:44-46 | the inner loop collects exactly the wanted bytes, however the socket splits them |
| Itm.SwoReader.ReadInto | wamr/stm32/run-benches.py:34-49 | whatever pieces the socket delivers, one call consumes exactly one packet and returns its 1, 2 or 4 payload bytes; a byte that is no header is returned itself |
| Itm.SwoReader.ReadLine | wamr/stm32/run-benches.py:27-29 | the buffered reader hands out the decoded stream line by line, losing nothing |
| Itm.PacketsRoundTrip | wamr/stm32/run-benches.py:34-49 | any sequence of packets with 1, 2 or 4 bytes decodes to the concatenated payloads |
| Itm.DecodeRecovers | wamr/stm32/run-benches.py:39-42 | the data stream survives the loss of any set of headers whose byte is not 1, 2 or 3 |
| Itm.SingleLossExact | wamr/stm32/run-benches.py:38-49 | which single header losses are repaired, exactly: skip 1s; the next byte must exist and not be 2 or 3 |
| Itm.LostHeaderDamages | wamr/stm32/run-benches.py:38-49 | data 2, 5 without its first header is read as 1, 5 |
| Watermark.MarkStack | wamr/stm32/src/main.c:272-281 | every word from 256 below the stack pointer down to the second lowest becomes 0xDEADBEEF, and no other word changes |
| Watermark.CountStack | wamr/stm32/src/main.c:282-299 | the scan computes the use by its topmost run of eight markers, in 32-bit arithmetic |
| Watermark.StackUseIsLeastRun | wamr/stm32/src/main.c:282-299 | over at least eight words: 4k for the least k with markers k..k+7, or 4(N-8) without one, never wrapping |
| Watermark.ScanLaw | wamr/stm32/src/main.c:282-299 | on the memory's own indices: four bytes for every word above the topmost eight words of 0xDEADBEEF, the lowest word never counted; without any, all but the nine lowest |
| Watermark.ShortScanWraps | wamr/stm32/src/main.c:298 | over fewer words the subtraction always wraps |
| Watermark.StackUseIsMonotone | wamr/stm32/src/main.c:282-299 | fewer markers never give a smaller result |
| Watermark.WatermarkBound | wamr/stm32/src/main.c:272-299 | after any writes above and below them, the heap's included, the result is at most four times a depth whose next eight words stay marked |
| Watermark.WatermarkExact | wamr/stm32/src/main.c:272-299 | it equals that if and only if the word at that depth is no marker and no eight markers stand above |
| Watermark.WatermarkError | wamr/stm32/src/main.c:272-299 | in that case, at the greatest depth of the stack writes, the report is at least the stack really used and at most 1020 bytes more |
| Watermark.RunIffUntouched | wamr/stm32/src/main.c:272-299 | without stray markers, eight markers in a row are exactly eight painted words, 255 or more below the stack pointer, that nothing wrote |
| Watermark.WatermarkOfWrites | wamr/stm32/src/main.c:272-299 | the result is four times the larger of the stack's greatest depth and 255 words below the stack pointer, if and only if the writes above leave no eight painted words in a row untouched |
| Watermark.ShallowStackReports | wamr/stm32/src/main.c:277-298 | without deep writes exactly 1020 bytes more than the stack pointer's depth are reported |
| Watermark.GapHidesDeepWrite | wamr/stm32/src/main.c:286-297 | one write 1000 words down, none between: 1420 bytes are reported, of 4000 |
| Console.BufLenSigns | wamr/stm32/l4/init.c:35 | the truncating remainder is the plain difference: zero exactly for equal indices, negative exactly in a wrapped buffer, full only from index 0 |
| Console.Key | wamr/stm32/l4/init.c:187-229 | every key keeps both indices in 0..126, the start index and the spare cell |
| Console.Enter | wamr/stm32/l4/init.c:178-186 | so does the return key |
| Console.EditLine | wamr/stm32/l4/init.c:175-230 | so does the whole loop, on any keys |
| Console.KeyRefines | wamr/stm32/l4/init.c:187-229 | in every state, wrapped or not, each key does to the circular contents what a pure editor does: append, drop last, clear, drop through the last whitespace unless the stale cell is whitespace; the loops of the last two do nothing in a wrapped buffer |
| Console.EnterRefines | wamr/stm32/l4/init.c:178-186 | return appends a newline and clears one stale cell |
| Console.EditRefines | wamr/stm32/l4/init.c:175-230 | for every keystroke sequence the buffer holds the purely edited line, then the newline |
| Console.EraseKeysOnlyDrop | wamr/stm32/l4/init.c:188-214 | no erasing key moves past the start of the line or overwrites a cell |
| Console.KeyLaw | wamr/stm32/l4/init.c:187-229 | every key on the indices and cells themselves, by its byte value, wrapped or not |
| Console.EnterLaw | wamr/stm32/l4/init.c:178-186 | return stores byte 10 and behind it byte 0 |
| Console.EchoBytes | wamr/stm32/l4/init.c:156-229 | the bytes each key sends back |
| Console.SpaceBytes | wamr/stm32/l4/init.c:202-206 | the whitespace bytes are exactly 9 to 13 and 32 |
| Console.EraseKeyLaw | wamr/stm32/l4/init.c:188-198 | bytes 8 and 127 take back the last byte typed |
| Console.LineKeyLaw | wamr/stm32/l4/init.c:209-214 | byte 0x15 takes back the line |
| Console.WordKeyLaw | wamr/stm32/l4/init.c:200-206 | byte 0x17 takes back a word and the one whitespace byte in front of it, for any line, word and whitespace byte that fit |
| Console.ReturnKeyLaw | wamr/stm32/l4/init.c:178-186 | a line of plain bytes and byte 13 is delivered as it was typed, with byte 10 |
| Console.LineDeliveredIff | wamr/stm32/l4/init.c:268-287 | a read right after the line returns it whole if and only if it ends before the wrap, else nothing |
| Console.FifoDelivery | wamr/stm32/l4/init.c:268-287 | partial reads deliver a waiting line in order, each as much as asked for or left, without consuming a keystroke |
| Console.WrappedIsDead | wamr/stm32/l4/init.c:171-174 | in a wrapped buffer every later read returns nothing and changes nothing |
| Console.LifetimeBound | wamr/stm32/l4/init.c:268-287 | over any session the start index only grows, so at most 126 bytes are ever delivered |
| Console.SessionRefines | wamr/stm32/l4/init.c:167-287 | for any number of lines, what the reads return together: each edited line, up to the first that reaches the wrap, without those of 127 bytes |
| Console.FullLineIsLost | wamr/stm32/l4/init.c:178-186 | 126 letters and return on a fresh board: the read returns nothing and the buffer is empty |
| Console.SecondLineIsLost | wamr/stm32/l4/init.c:278-286 | lines of 60 and 70 letters on a fresh board: only the first ever arrives |
| Console.WordKeyStopsAtStaleBlank | wamr/stm32/l4/init.c:202-206 | after a letter, a blank and an erase, `^W` erases nothing |
| Console.Board.StepBack | wamr/stm32/l4/init.c:156-162 | the index steps back and the erasing bytes go out |
| Console.Board.DropWord | wamr/stm32/l4/init.c:202-206 | the loop terminates in the specified state |
| Console.Board.DropLine | wamr/stm32/l4/init.c:211-214 | the loop terminates in the specified state |
| Console.Board.PressKey | wamr/stm32/l4/init.c:187-229 | one key, as specified |
| Console.Board.GetBufferedLine | wamr/stm32/l4/init.c:167-231 | a waiting line is left alone; otherwise keys are consumed through the return key, as specified |
| Console.Board.CopyOut | wamr/stm32/l4/init.c:278-286 | the copying loop moves exactly the specified bytes |
| Console.Board.ReadInto | wamr/stm32/l4/init.c:268-287 | a bad descriptor changes nothing; otherwise the specified bytes, state and remaining keys |
| Echo.EchoKey | wamr/stm32/l4/init.c:187-229 | one key keeps the screen showing exactly the line, if and only if it is not a 127th byte in a line that starts behind index 0 |
| Echo.EchoRun | wamr/stm32/l4/init.c:156-229 | over any run of echoable keys, the screen shows exactly the line before every keystroke and after the last, if and only if no key overflows the buffer |
| Echo.LongSecondLineBreaksEcho | wamr/stm32/l4/init.c:219-228 | after a delivered line of one letter, the 127th letter of the next breaks the agreement and the 126th does not |
| Echo.ShortRunsNeverOverflow | wamr/stm32/l4/init.c:219-228 | fewer keys than free cells are such a run |
| Echo.EchoEnter | wamr/stm32/l4/init.c:178-186 | return leaves a blank screen line, which agrees with the buffer once it is drained |
| GatherWrite.Host.Write | wamr/stm32/l4/init.c:236-261 | what is before the first NUL goes out, with a carriage return after every newline, and is counted |
| GatherWrite.Host.WriteFully | wamr/stm32/src/main.c:83-91 | the retry loop's output and count, or that it never ends |
| GatherWrite.Host.SspFdWrite | wamr/stm32/src/main.c:69-100 | the vectors go out in order and their counts add up modulo 2^32 |
| GatherWrite.Host.FdWrite | wamr/stm32/src/main.c:102-147 | all or nothing: any failed check leaves output, count cell and allocations as they were; success stores the count; the temporary array is freed on every return; it never returns if and only if it is accepted and a vector starts with a NUL |
| GatherWrite.GatherExactIff | wamr/stm32/src/main.c:81-98 | output and count are those of the concatenated buffers if and only if no buffer contains a NUL |
| GatherWrite.EmitOneClosed | wamr/stm32/src/main.c:85-90 | a buffer's bytes before its first NUL go out as often as it takes to reach its length, and the count is what was written |
| GatherWrite.EmitClosed | wamr/stm32/src/main.c:82-98 | the same for all buffers in order, with the counts summed |
| GatherWrite.CountExceedsIff | wamr/stm32/src/main.c:86-90 | the count exceeds the length exactly when the length is no multiple of the bytes before the NUL |
| GatherWrite.StuckOutput | wamr/stm32/src/main.c:86-89 | a call that never ends has sent exactly the buffers in front of the one that starts with a NUL |
| GatherWrite.CrlfLaw | wamr/stm32/l4/init.c:252-256 | byte 13 goes out behind every byte 10, and every other byte as it is |
| GatherWrite.StuckIff | wamr/stm32/src/main.c:86-89 | the retry loop never ends if and only if a non-empty buffer starts with a NUL |
| GatherWrite.NulRepeatsTheFront | wamr/stm32/src/main.c:86-89 | a letter and a NUL come out as the letter twice |
| GatherWrite.EmitNoNul | wamr/stm32/l4/init.c:250-259 | no NUL ever reaches the console, not even from a call that gets stuck |
| Clock.Timer.SysTickHandler | wamr/stm32/l4/init.c:291-294 | the counter is the true time modulo 2^32 |
| Clock.Timer.Ticks | wamr/stm32/l4/init.c:296-303 | the whole ticks in the true time modulo 2^32 |
| Clock.TickLength | wamr/stm32/l4/init.c:298 | the divisor is the length of a tick |
| Clock.DelayOfSeen | wamr/stm32/src/benchmarks.c:71-72 | over any number of counter wraps, what is printed in terms of the whole ticks between two true times |
| Clock.DelayAccurateIff | wamr/stm32/src/benchmarks.c:71-72 | for any two true times, wraps included, the printed delay is within one tick of the truth if and only if the time seen, in units of 1/CLOCKS_PER_SEC ms, fits 32 bits |
| Clock.ConditionInTicks | wamr/stm32/src/benchmarks.c:72 | without a wrap that condition is that ticks times 1000 fits |
| Clock.DelaysAdd | wamr/stm32/src/benchmarks.c:71-83 | under that condition delays of consecutive intervals add up exactly and grow with the end time, wraps included |
| Clock.TwelveHoursOverflow | wamr/stm32/src/benchmarks.c:71-72 | 4294968 ticks of 10 ms are printed as 7 ms |
| Clock.WrapStaysAccurate | wamr/stm32/src/benchmarks.c:71-72 | two seconds across a counter wrap are printed as 2006 ms |

## Left out

- The wasm3 and wasmi copies of the three files: near duplicates; `__wrap_calloc` of wasm3 sends an ordinary Malloc record.
- Clock, GPIO, USART and ITM register setup: hardware calls. USART and ITM output are byte sequences, USART input is a given sequence.
- Calls that wait for ever: a result of the method (`None`, 0, `done` false, `Spins`), not a non-terminating call.
- The real allocator: only its contract on returned addresses. `realloc(p, 0)` returning null is excluded, because its effect is up to the C library.
- Blocks allocated before the start marker: the run starts from an empty heap.
- Itm.SwoReader.ReadLine: stands for Python's buffered reader, of which only the hand-out of lines is modelled; its read-ahead into an 8192-byte buffer is one packet at a time.
- GetHeap.GetHeaps: the separate processes that make the calls; each is taken to read on where the one before stopped.
- Framing.RegexIs: the regular expression is given by its result, not by an engine that backtracks.
- Watermark.WatermarkBound: the traffic on stack and heap is a sequence of word writes on values; partial words are not modelled.
- GatherWrite.Host.FdWrite: the runtime's address check is taken to be that the buffer lies in the application's memory, with a non-null native address; the count cell is kept apart from that memory.
- GatherWrite.Host.Write: the read of one byte behind the buffer, which the loop condition makes before it compares lengths and which has no effect on the output.
- Signed overflow of the byte count in `wasmtime_ssp_fd_write`: modelled as wrapping modulo 2^32.
- Echo.EchoRun: printable ASCII and the four editing keys; other control characters have no one-line meaning.
- `main`, building, flashing, serial parsing, CSV output, `run_bench` and the benchmark wrappers: plumbing around other programs.
- `fd_seek`, `fd_fdstat_get`, `fd_close`, `proc_exit`: single branches.
