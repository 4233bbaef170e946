/**
  The two copies of the extraction loop, side by side: the capture hook's
  `_extract_strings(data, 5)` and the decoder's inline fallback loop produce
  the same strings, so the decoder's ".strings.txt" file is the hook's
  strings joined by newlines.
 */
module Agreement {
  import Extraction
  import Lines
  import CaptureSession
  import GrpcCaptureAddon

  method BothLoopsAgree(hook: GrpcCaptureAddon.GrpcCapture, filepath: string, data: seq<Extraction.byte>)
    returns (hookStrings: seq<string>, fallback: CaptureSession.Output)
    ensures fallback.kind == CaptureSession.StringsText
    ensures fallback.text == Lines.Join(hookStrings)
  {
    hookStrings := hook.ExtractStrings(data, CaptureSession.MinLength);
    fallback := CaptureSession.DecodeProtobuf(filepath, CaptureSession.NotFound, data);
  }
}
