/**
  The decoder of scripts/capture_session.py: try the external protobuf
  disassembler on a captured file and, if it is missing or fails, fall back
  to extracting printable strings of length at least 5.

  Running the tool and reading the file are effects outside the model: the
  tool's outcome and the file's bytes are parameters, and the one sidecar
  file the decoder writes is returned as an `Output` value.
 */
module CaptureSession {
  import opened Extraction
  import Lines

  /** What running the disassembler came to: not on the executable search path, or exited with a status after printing `stdout`. */
  datatype ToolOutcome = NotFound | Exited(code: int, stdout: string)

  /** The two sidecar files the decoder can write next to the input. */
  datatype Sidecar =
    | DecodedText   // the input path with suffix ".decoded.txt"
    | StringsText   // the input path with suffix ".strings.txt"

  /** One file written: the input path it is named after, which sidecar it is, and its text. */
  datatype Output = Output(source: string, kind: Sidecar, text: string)

  /** The threshold the decoder's fallback uses. */
  const MinLength: int := 5

  /** The file the decoder writes for a given tool outcome and file contents. */
  function DecodeOutput(filepath: string, outcome: ToolOutcome, data: seq<byte>): (w: Output)
    ensures w.source == filepath
  {
    if outcome.Exited? && outcome.code == 0 then
      Output(filepath, DecodedText, outcome.stdout)
    else
      Output(filepath, StringsText, Lines.Join(PrintableRuns(data, MinLength)))
  }

  /** `decode_protobuf`: the early return on a successful tool run, then the inline extraction loop. */
  method DecodeProtobuf(filepath: string, outcome: ToolOutcome, data: seq<byte>) returns (w: Output)
    ensures w == DecodeOutput(filepath, outcome, data)
  {
    if outcome.Exited? && outcome.code == 0 {
      return Output(filepath, DecodedText, outcome.stdout);
    }

    var strings: seq<string> := [];
    var current: string := "";
    for n := 0 to |data|
      invariant strings == Scan(data, MinLength, n).strings
      invariant current == Scan(data, MinLength, n).current
    {
      var b := data[n];
      if 32 <= b < 127 {
        current := current + [Chr(b)];
      } else {
        if |current| >= MinLength {
          strings := strings + [current];
        }
        current := "";
      }
    }

    ScanComputesRuns(data, MinLength);
    if |current| >= MinLength {
      strings := strings + [current];
    }
    return Output(filepath, StringsText, Lines.Join(strings));
  }

  /** The tool's output is used exactly when it ran and exited with status 0, and then it is written unchanged. */
  lemma DecodedIffToolSucceeded(filepath: string, outcome: ToolOutcome, data: seq<byte>)
    ensures DecodeOutput(filepath, outcome, data).kind == DecodedText <==> outcome.Exited? && outcome.code == 0
    ensures DecodeOutput(filepath, outcome, data).kind == DecodedText ==> DecodeOutput(filepath, outcome, data).text == outcome.stdout
  {
  }

  /**
    The fallback file holds the extracted strings: splitting its text at
    newlines recovers them, and it is empty when nothing was extracted.
   */
  lemma FallbackHoldsRuns(filepath: string, outcome: ToolOutcome, data: seq<byte>)
    requires outcome.NotFound? || outcome.code != 0
    ensures DecodeOutput(filepath, outcome, data).kind == StringsText
    ensures PrintableRuns(data, MinLength) != [] ==>
      Lines.Split(DecodeOutput(filepath, outcome, data).text) == PrintableRuns(data, MinLength)
    ensures PrintableRuns(data, MinLength) == [] ==> DecodeOutput(filepath, outcome, data).text == ""
  {
    var runs := PrintableRuns(data, MinLength);
    if runs != [] {
      NoNewline(data, MinLength);
      Lines.SplitJoin(runs);
    }
  }
}
