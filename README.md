# Capture scripts: string extraction, decoder fallback and capture hook

This project models the pieces of logic in the gRPC capture scripts:

- **The printable-string extraction heuristic.** It appears twice: inline in `decode_protobuf` with threshold 5, and as `GrpcCapture._extract_strings` with `min_length` defaulting to 10. It scans a byte string left to right and keeps every maximal run of bytes in `[32, 127)` whose length reaches the threshold.
  - `Extraction.PrintableRuns` specifies the result declaratively, as the texts of the maximal printable runs (`Extraction.Spans`).
  - `Extraction.Scan` describes the byte loop's state after each prefix. `Extraction.ScanComputesRuns` proves that flushing the final state gives `PrintableRuns`.
  - Both copies of the loop are `for` loops: `CaptureSession.DecodeProtobuf` and `GrpcCaptureAddon.GrpcCapture.ExtractStrings`. Each is proved to return `PrintableRuns`.
- **The decoder's fallback decision** (`CaptureSession`). The disassembler's outcome is an input: not found, or an exit status with its standard output. The decoder writes either a `.decoded.txt` sidecar with the tool's output or a `.strings.txt` sidecar with the extracted strings joined by newlines, never both.
- **The proxy addon** (`GrpcCaptureAddon`). `GrpcCapture` is a class with the `captureCount` field.
  - `Request` decides whether a request is logged.
  - `Response` counts responses on the three session endpoints and returns, as `Effect` values, the files it writes under the stem `capture_<timestamp>_<count>`: the raw body (`.bin`), a metadata record (`.json`), and the extracted strings (`.txt`) when there are any.
- **Newline join and split** (`Lines`). `"\n".join` and `str.split("\n")` are modelled so that the sidecar text files can be read back.

## Notes

- `min_length` may be any integer. At 0 or less, the empty run flushed at the end of input is kept, so empty input yields `[""]` (`Extraction.EmptyInput`). At the thresholds the scripts use, 5 and 10, empty input yields nothing.
- The hook writes the `.txt` file only when the list of extracted strings is non-empty (scripts/grpc_capture.py:69; `GrpcCaptureAddon.CaptureContents`).

## Model

| member | source | states |
|---|---|---|
| `Extraction.Text` | scripts/capture_session.py:86 | the accumulated string has one character per byte |
| `Extraction.TextAt` | scripts/capture_session.py:86 | each character's code point is the byte it came from (`chr`) |
| `Extraction.Chr` | scripts/capture_session.py:86 | `chr(byte)`: the character whose code point is the byte |
| `Extraction.RunEnd` | scripts/capture_session.py:84-90 | a run starting at `s` ends at the end of input or at a non-printable byte, never before `s` |
| `Extraction.RunEndPrintable` | scripts/capture_session.py:85-86 | every byte a run covers is printable |
| `Extraction.RunEndAt` | scripts/capture_session.py:84-90 | a run ends exactly at the first non-printable byte after its start |
| `Extraction.SpanIsRun` | scripts/capture_session.py:84-93 | every extracted span is a maximal printable run of length at least the threshold |
| `Extraction.SpansOrdered` | scripts/capture_session.py:84-93 | extracted spans come in input order and do not overlap |
| `Extraction.SpansComplete` | scripts/capture_session.py:84-93 | every maximal printable run of length at least the threshold is extracted (no run is missed) |
| `Extraction.Spans` | scripts/capture_session.py:82-93 | the runs from a run start onward that reach the threshold, in input order; `SpanIsRun`, `SpansOrdered` and `SpansComplete` state what it lists |
| `Extraction.Texts` | scripts/capture_session.py:89 | one string per extracted span, in the same order |
| `Extraction.TextsAt` | scripts/capture_session.py:89 | the k-th string is the text of the k-th span |
| `Extraction.PrintableRuns` | scripts/capture_session.py:82-93 | the specification of the heuristic: the texts of `Spans` from the start of input; `ExactlyMaximalRuns` characterises it |
| `Extraction.Step` | scripts/capture_session.py:85-90 | one loop turn: a printable byte extends `current`; any other byte appends `current` to `strings` if it reaches the threshold, then clears it |
| `Extraction.Scan` | scripts/capture_session.py:84-90 | the loop's `strings` and `current` after the first `n` bytes, as `n` turns of `Step` |
| `Extraction.Flush` | scripts/capture_session.py:92-93 | the final flush: the open run is appended when it reaches the threshold |
| `Extraction.ScanPrintable` | scripts/capture_session.py:85-86 | a printable byte appends its character to the open run and keeps the invariant |
| `Extraction.ScanKeep` | scripts/capture_session.py:87-90 | a non-printable byte closes a run that reaches the threshold: it is appended to `strings` as the next span, and `current` starts empty after the byte |
| `Extraction.ScanDrop` | scripts/capture_session.py:87-90 | a non-printable byte closes a run shorter than the threshold, which is dropped: `strings` is unchanged and `current` starts empty |
| `Extraction.ScanStep` | scripts/capture_session.py:85-90 | one loop turn keeps the loop invariant: the open run's text, the closed spans before it, and their strings |
| `Extraction.ScanInvariant` | scripts/capture_session.py:84-90 | the invariant holds after every prefix of the input |
| `Extraction.ScanComputesRuns` | scripts/capture_session.py:82-93 | the loop followed by the final flush yields exactly the specified runs |
| `Extraction.ExactlyMaximalRuns` | scripts/capture_session.py:82-93 | the result is the texts of a span list that is strictly increasing and contains a span exactly when it is a maximal printable run of length at least the threshold |
| `Extraction.RunsArePrintable` | scripts/capture_session.py:85-92 | every extracted string has length at least the threshold and only characters in `[32, 127)` |
| `Extraction.NoNewline` | scripts/capture_session.py:85 | no extracted string contains a newline |
| `Extraction.NothingExtracted` | scripts/capture_session.py:88-93 | the result is empty exactly when every maximal printable run is shorter than the threshold |
| `Extraction.EmptyInput` | scripts/capture_session.py:82-93 | empty input yields nothing for a positive threshold, and one empty string for a threshold of 0 or less |
| `Extraction.AllPrintable` | scripts/capture_session.py:84-93 | an all-printable input yields itself when it reaches the threshold and nothing otherwise |
| `Extraction.ThresholdMonotone` | scripts/grpc_capture.py:85-90 | raising the threshold only drops runs: every run kept at 10 is also kept at 5 |
| `Extraction.TextIs` | scripts/capture_session.py:86 | a run's text is the string whose code points are its bytes |
| `ExtractionExamples.HelloWorld` | scripts/capture_session.py:82-93 | `\x00hello\x00world!!\x00` with threshold 5 yields `["hello", "world!!"]` |
| `ExtractionExamples.ExampleSpans` | scripts/capture_session.py:84-93 | the example's runs of length at least 5 are bytes 1-5 and 7-13 |
| `Lines.Split` | scripts/capture_session.py:96 | splitting a text at newlines gives at least one piece, and no piece contains a newline |
| `Lines.Join` | scripts/capture_session.py:96 | `"\n".join(strings)`: the strings with one newline between neighbours; `SplitJoin` and `JoinSplit` relate it to `Split` |
| `Lines.SplitJoin` | scripts/capture_session.py:96 | splitting a newline-join recovers a non-empty list of newline-free strings |
| `Lines.SplitJoinEmpty` | scripts/capture_session.py:96 | the empty list joins to `""`, which splits into one empty piece |
| `Lines.JoinSplit` | scripts/capture_session.py:96 | joining the pieces of a split recovers the text |
| `CaptureSession.DecodeOutput` | scripts/capture_session.py:63-96 | the sidecar the decoder writes, named after the input path: the tool's output on exit status 0, otherwise the extracted strings joined by newlines |
| `CaptureSession.DecodeProtobuf` | scripts/capture_session.py:63-96 | returns the tool's output if it exited with status 0; otherwise runs the inline loop, which returns the specified runs joined by newlines |
| `CaptureSession.DecodedIffToolSucceeded` | scripts/capture_session.py:68-74 | the `.decoded.txt` sidecar is written exactly when the tool ran and exited with 0, and it holds the tool's output unchanged |
| `CaptureSession.FallbackHoldsRuns` | scripts/capture_session.py:73-96 | when the tool is missing or fails, the `.strings.txt` sidecar is written; its lines are the extracted strings, and it is empty when none were found |
| `GrpcCaptureAddon.RequestFilterIsCascade` | scripts/grpc_capture.py:28 | `"StreamCascade" in path or "Cascade" in path` holds exactly when `"Cascade" in path` |
| `GrpcCaptureAddon.Contains` | scripts/grpc_capture.py:28 | Python's `sub in s` on strings: `sub` occurs at some index of `s` |
| `GrpcCaptureAddon.IsSessionPath` | scripts/grpc_capture.py:36 | the path contains one of "StreamCascadeReactiveUpdates", "GetCascade" and "HandleAsync" |
| `GrpcCaptureAddon.CapturedPathsLogged` | scripts/grpc_capture.py:36 | a captured path contains "Cascade" (so its request was logged) unless it contains "HandleAsync" |
| `GrpcCaptureAddon.Decimal` | scripts/grpc_capture.py:44 | the counter's decimal text is never empty |
| `GrpcCaptureAddon.DecimalRoundTrip` | scripts/grpc_capture.py:44 | the decimal text is all digits with no leading zero and reads back as the counter |
| `GrpcCaptureAddon.DecimalInjective` | scripts/grpc_capture.py:44 | different counts have different decimal texts |
| `GrpcCaptureAddon.Stem` | scripts/grpc_capture.py:44 | `capture_<timestamp>_<count>`, with the count in decimal; `StemInjective` states that it determines both parts |
| `GrpcCaptureAddon.BinName` | scripts/grpc_capture.py:44 | the raw body's file name: the stem followed by `.bin` |
| `GrpcCaptureAddon.JsonName` | scripts/grpc_capture.py:61 | the metadata's file name: the stem followed by `.json` |
| `GrpcCaptureAddon.TextName` | scripts/grpc_capture.py:70 | the strings file's name: the stem followed by `.txt` |
| `GrpcCaptureAddon.StemInjective` | scripts/grpc_capture.py:44 | the stem `capture_<timestamp>_<count>` determines both the timestamp and the count |
| `GrpcCaptureAddon.StemOfName` | scripts/grpc_capture.py:44-70 | a file name determines its stem and its suffix |
| `GrpcCaptureAddon.HeaderOr` | scripts/grpc_capture.py:56 | `headers.get("content-type", "unknown")`: the header's value when present, otherwise the default |
| `GrpcCaptureAddon.CaptureEffects` | scripts/grpc_capture.py:42-71 | the files one captured response writes, in order; `FilesIffBody`, `CaptureContents`, `CaptureNames` and `CapturesDoNotCollide` state their properties |
| `GrpcCaptureAddon.FilesIffBody` | scripts/grpc_capture.py:42 | a capture writes files exactly when the body is present and non-empty |
| `GrpcCaptureAddon.CaptureContents` | scripts/grpc_capture.py:40-71 | a capture writes the body unchanged under the `.bin` name, then under the `.json` name the metadata record: the ISO time, the request path and method, the status, the content-type header as given or `unknown` when it is missing, `size_bytes` equal to the body length, and the `.bin` name; it writes a `.txt` file exactly when strings were found, and that file's lines are those strings |
| `GrpcCaptureAddon.CaptureNames` | scripts/grpc_capture.py:44-70 | the files of one capture are the stem plus `.bin`, `.json`, `.txt` in that order, with different names |
| `GrpcCaptureAddon.CapturesDoNotCollide` | scripts/grpc_capture.py:37-70 | captures with different counts never write the same file name, whatever the timestamps |
| `GrpcCaptureAddon.GrpcCapture.constructor` | scripts/grpc_capture.py:22-23 | the counter starts at 0 |
| `GrpcCaptureAddon.GrpcCapture.Request` | scripts/grpc_capture.py:26-29 | a request is logged exactly when its path contains "Cascade" |
| `GrpcCaptureAddon.GrpcCapture.Response` | scripts/grpc_capture.py:31-74 | on a session endpoint the counter rises by exactly 1 (even with an empty body), and the files written are those of a capture under the new count; on any other path, the counter is unchanged and nothing is written |
| `GrpcCaptureAddon.GrpcCapture.ExtractStrings` | scripts/grpc_capture.py:76-92 | the loop returns exactly the maximal printable runs of length at least `min_length` (default 10), in input order |
| `Agreement.BothLoopsAgree` | scripts/grpc_capture.py:76-92 | `_extract_strings(data, 5)` gives the same strings the decoder's fallback writes for the same bytes |

## Left out

- Running the proxy and the disassembler as processes, and the interrupt handling around them. The disassembler's outcome is the `ToolOutcome` input, and its standard output is given already decoded as text.
- Reading the captured file in `decode_protobuf`, and a failure to read it. The bytes are a parameter.
- File system effects: creating the capture directory, `write_bytes`, `write_text`, and `list_captures`. Writes are returned as `Output` and `Effect` values.
- `Path.with_suffix`: an `Output` records the input path and which sidecar it is, not the derived file name.
- The clock: `strftime("%Y%m%d_%H%M%S")` and `isoformat()` are passed in as strings. Their formats are not modelled, and the file-name lemmas hold for any timestamp strings.
- JSON serialisation of the metadata: the model keeps the `Meta` record.
- Log and console messages (`ctx.log`, `print`) and their texts. `Request` returns whether it logs, not the message.
- The `try/except` around extraction in the response hook. The extraction is total on bytes, and write failures are file-system behaviour.
- The proxy's flow object: a `Flow` carries the path, method, status, content-type header (absent or present) and body (absent or present). The case-insensitive header lookup is the proxy's and is not modelled.
- The addon registration, the command-line dispatch in `main`, and scripts/inspect_vscdb.py, which is database access and printing only.
