# USGS seismometer decoder: framing, decoding and logging

A Dafny model of the core of `decode.c`, the decoder for the bitstream of a
USGS-style seismometer digitiser. The digitiser sends two-byte frames. A byte
whose bit 0 is set is a *marker byte* (`df[0]`). A byte whose bit 0 is clear is
a *data byte* (`df[1]`). The decoder:

- synchronises on the stream;
- turns each frame into an 11-bit amplitude and one of eight gain steps;
- prints one record `<stamp>,<data>,<gain>` per frame.

`<stamp>` is `0`, except on every hundredth frame, where it is a UTC timestamp.

Modules, following the structure of `main` in `decode.c`:

- `Framing`: bytes (`bv8`), the marker-bit test, and the `Frame` record.
- `Synchronizer`: the inner `while (!ready)` loop, as a two-state machine
  (`Seeking`, `Armed(marker)`).
  - The input is a finite byte sequence, and running out of input is `None`.
  - The independent reference is the notion of a *boundary*: a clear byte that
    directly follows a marker byte. The synchroniser always returns the pair
    at the first boundary.
  - `Frames` is the outer loop restarting the search unarmed after each frame.
- `Decoder`: the two assignments that compute `data` and `gain`. `Encode` is
  the inverse, and the round trip is proved both ways.
- `Output`: the printed line, `%d` rendering, and a parser that reads a line
  back.
- `Session`: the outer loop with `framecount` and `TSINT` (99).
  - The timestamp is opaque. The parameter `clock(k)` is the text printed when
    the k-th frame is stamped.
- `Diagnostics`: `bitify`, the bit string of a byte used by the raw-frame
  diagnostic.
- `EndOfInput`: what the source actually does when the input runs out, next to
  the clean model. See "Findings".

The gain field `(d & 0x0e) >> 1` is 3 bits wide, so `42 + 6 * g` takes only
the eight values 42 to 84 in steps of 6; 90 (g = 8) never occurs.
`Decoder.Decode` proves `gain != 90`.

## Model

| member | source | states |
|---|---|---|
| Framing.MarkerIsOdd | decode.c:411 | The marker test `b & 0x01` holds exactly when the byte, read as a number, is odd. |
| Synchronizer.Scan | decode.c:409-421 | A search that completes a frame has consumed at least one byte. |
| Synchronizer.ScanShape | decode.c:409-421 | A completed search returns, as the data byte, the last byte it consumed, and that byte is clear. The marker byte is the byte read just before it. If only the data byte was read, the marker is the one held on entry. From a valid state the frame is valid. |
| Synchronizer.Sync | decode.c:407-421 | A search started unarmed returns two adjacent input bytes `s[j-1]`, `s[j]` (marker byte, then clear byte) and resumes right after `s[j]`. The frame is valid and took at least two bytes. |
| Synchronizer.ScanFirstBoundary | decode.c:409-421 | From any state whose held marker has its marker bit set (every state the loop can reach), the search returns the pair at the first boundary of the held marker followed by the input, and the bytes after it. |
| Synchronizer.ScanNoBoundary | decode.c:409-421 | From any state whose held marker has its marker bit set (every state the loop can reach), when the held marker followed by the input has no boundary, the input runs out without a frame. |
| Synchronizer.SyncAtFirstBoundary | decode.c:407-421 | An unarmed search returns the two bytes around the first boundary of the input and the rest after it. |
| Synchronizer.SyncNoneIffNoBoundary | decode.c:407-421 | An unarmed search finds no frame if and only if the input has no boundary. |
| Synchronizer.SyncFindsFirstBoundary | decode.c:407-421 | The data byte of a frame that was found sits at the first boundary of the input. |
| Synchronizer.MarkerRunResyncs | decode.c:411-414 | After a run of marker bytes and one clear byte, the frame's marker byte is the last byte of the run. The search resumes right after the clear byte. |
| Synchronizer.ClearBytesDiscarded | decode.c:415-420 | Clear bytes read while unarmed are discarded: prefixing any number of them does not change the result. |
| Synchronizer.ArmedTakesFirstClear | decode.c:411-419 | Once armed, the data byte is the first clear byte read. The marker byte is the held marker if that clear byte comes first, and otherwise the last marker byte before it. |
| Synchronizer.ArmedAtEndOfInput | decode.c:409-421 | Armed, with only marker bytes left, the input runs out without a frame. |
| Synchronizer.SyncSkipsUnarmedPrefix | decode.c:407-421 | A prefix with no boundary that ends unarmed has no effect on what the search finds in the input that follows. |
| Synchronizer.Frames | decode.c:404-421 | The outer loop's frames are all valid, and an input of n bytes yields at most n / 2 of them. |
| Synchronizer.SyncExtends | decode.c:409-421 | A frame found in `s` is found the same way in `s + t`, and `t` is left after it. |
| Synchronizer.FramesSplitAtClearByte | decode.c:404-408 | The search restarts unarmed after each frame. So the frames of `s + t` are those of `s` followed by those of `t` when `s` ends on a clear byte. |
| Synchronizer.FramesAreInputPairs | decode.c:404-421 | Every frame of the input is the pair of bytes around some boundary of the input. |
| Synchronizer.FramesCoverBoundaries | decode.c:404-421 | The other direction: every boundary of the input gives a frame, namely the pair of bytes around it. No well-formed pair is dropped. |
| Decoder.Amplitude | decode.c:438 | The amplitude expression, evaluated in 32-bit `int`, is `(marker / 2) * 16 + data / 16`: the upper seven bits of the marker byte above the upper nibble of the data byte. |
| Decoder.GainField | decode.c:439 | `(df[1] & 0x0e) >> 1` is `(data / 2) mod 8`. |
| Decoder.Decode | decode.c:438-439 | The amplitude is `(marker / 2) * 16 + data / 16`, within [0, 2047]. The gain is `42 + 6 * ((data / 2) mod 8)`: one of 42, 48, …, 84, and never 90. |
| Decoder.Encode | decode.c:438-439 | The frame the digitiser sends for a valid reading has its marker bit set on the first byte and clear on the second. |
| Decoder.DecodeEncode | decode.c:438-439 | Every valid reading is decoded back from its encoding. |
| Decoder.EncodeDecode | decode.c:438-439 | Every valid frame is re-encoded from its reading: decoding loses nothing. |
| Decoder.DecodeInjective | decode.c:438-439 | Distinct valid frames give distinct readings. |
| Decoder.DecodeExample | decode.c:438-439 | The frame 0x03, 0x20 gives amplitude 18 at gain 42. |
| Output.Decimal | decode.c:442 | `%d` of a non-negative number is a non-empty string of decimal digits with no leading zero. |
| Output.DecimalRoundTrip | decode.c:442 | Reading the `%d` text back gives the number. |
| Output.LineRoundTrip | decode.c:424-442 | Every printed line `<stamp>,<data>,<gain>\n` reads back as the record it was printed from. |
| Output.LineExample | decode.c:429-442 | An unstamped record of the frame 0x03, 0x20 prints as `0,18,42`. |
| Diagnostics.Bitify | decode.c:273-281 | The result is 8 characters, each `0` or `1`. Character i is `1` exactly when bit 7 - i of v is set. Read back as a binary number, the string gives v. |
| Diagnostics.BitsOfParse | decode.c:273-281 | The other direction: any 8-character string of `0` and `1` is the bit string of the byte it reads as. |
| Session.Tick | decode.c:424-427 | The post-incremented test against TSINT keeps the frame counter within [0, 99]. |
| Session.Emit | decode.c:404-443 | One record per reading, and the counter stays within [0, 99]. |
| Session.EmitStampAt | decode.c:424-429 | The record at index i is stamped exactly when the counter, started at `count`, has run through a multiple of 100 frames. Otherwise its first field is `0`. |
| Session.EmitSampleAt | decode.c:438-442 | The record at index i carries reading i. |
| Session.EmitFinalCount | decode.c:424-427 | The final counter is the start value plus the number of frames, modulo 100. |
| Session.RunRecords | decode.c:404-443 | There is one record per frame. Record i holds the decoded frame i and is stamped with `clock(i + 1)` exactly on frames 100, 200, …. Every other record has `0`. |
| Session.FinalCounter | decode.c:424-427 | In the clean model, where the session ends with the input, the frame counter ends as the number of frames modulo 100 and stays within [0, 99]. |
| Session.RecordFromInputPair | decode.c:404-442 | Every record is the decoding of a marker byte and the clear byte right after it in the input. |
| Session.RunLength | decode.c:404-443 | An input of n bytes prints at most n / 2 records, and the empty input prints none. |
| Session.RunExample | decode.c:404-443 | The input 0x03, 0x20 prints the single record `0,18,42`. |
| EndOfInput.ScanAsWritten | decode.c:409-421 | The search as written never tests `eof`. Past the end it reads the byte 0, so either a phantom frame with data byte 0x00 completes, or the search never returns. |
| EndOfInput.SeekingPastEndIsStuck | decode.c:415-420 | Seeking, the byte 0 that `readbyte` returns past the end leaves the state unchanged. |
| EndOfInput.ScanAsWrittenAgrees | decode.c:409-421 | Where the clean search finds a frame, the search as written finds the same frame. Where the clean search runs out, the search as written completes a phantom frame if and only if the bytes end on a marker byte, and otherwise never returns. |
| EndOfInput.SourceFramesClosedForm | decode.c:404-421 | The program as written stops if and only if the input is non-empty and ends on a marker byte. It then adds the frame (last byte, 0x00) after the real frames. |
| EndOfInput.EmitAppend | decode.c:404-443 | The records of a concatenation of readings are the records of the first part, followed by those of the second, counted on from where the first left the counter. |
| EndOfInput.RunAsWrittenVsRun | decode.c:404-443 | The records the program prints are the clean model's records, plus one phantom record exactly when it stops. That record is the decoding of (last byte, 0x00). |
| EndOfInput.AsWrittenFinalCounter | decode.c:446-447 | The program reaches the "Data frames processed" report only after the phantom frame. So the count it reports is the number of real frames plus one, modulo 100. |
| EndOfInput.PhantomFrameExample | decode.c:117-122 | On the input 0x03 alone, the clean model prints nothing. The program prints `0,16,42` and then stops. |
| EndOfInput.CleanEndNeverStops | decode.c:404-421 | On every input that is empty or whose last byte is clear, such as one that ends right after a complete frame, the program prints the clean model's records and never stops. |
| EndOfInput.CleanEndExample | decode.c:404-443 | On the input 0x03, 0x20, the program prints `0,18,42` and never stops. |

## Left out

- `readbyte` (decode.c:110-153): the file, socket and serial transports are not modelled. The input is a finite byte sequence. On a serial port, read errors are retried forever, because the error counter increment is commented out; this is not modelled.
- Reads after end of input: after `fclose`, `readbyte` calls `fread` again on the closed stream, which C leaves undefined. `EndOfInput` assumes every such read yields 0 with `eof` still set.
- `setoptions`, `initialize`, `opensocket`, `inittty`: command-line handling and device setup are configuration and I/O. The socket port is fixed at 1146 whatever `-p` says.
- `getutc` (decode.c:313-339): it reads the system clock, so it is the `clock` parameter. Its failure path returns NULL to `printf("%s")`; this is not modelled.
- Raw-frame diagnostic (decode.c:432-435): only `bitify` is modelled. The stderr `fprintf` with the hex bytes is I/O and does not affect the records.
- Informational lines on stdout are not part of the record model: the banner, "Starting scan...", "readbyte: end of file" and "Normal termination".
- ttyv1.c and timefunc.c are not part of this model.

## Findings

| source | as written | input that shows it | evidently intended | confidence | as-written member | corrected member |
|---|---|---|---|---|---|---|
| decode.c:409-421 | The framing loop never tests `eof`. At end of input `readbyte` returns 0 (decode.c:117-122). If the loop is armed, that 0 completes a frame whose data byte was never received, and its record is printed. | the single byte 0x03: prints `0,16,42` (EndOfInput.PhantomFrameExample) | stop at end of input and print only frames made of received bytes | not executed | EndOfInput.RunAsWrittenVsRun | Session.RecordFromInputPair |
| decode.c:404-421 | If the loop is seeking when the input ends, each 0 returned past the end is a clear byte and is discarded. The state never changes, the inner loop never exits, and the program never reaches its normal termination. | the empty input, or 0x03, 0x20 (EndOfInput.CleanEndNeverStops, EndOfInput.CleanEndExample) | finish after the last complete frame | not executed | EndOfInput.SourceFramesClosedForm | Synchronizer.SyncNoneIffNoBoundary |
