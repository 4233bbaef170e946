/**
  The proxy addon of scripts/grpc_capture.py: it logs requests whose path
  mentions "Cascade" and, for responses on the session endpoints, counts
  them and saves the body, a metadata record and the printable strings
  found in the body, all under one file stem.

  The proxy's flow object is a `Flow` value; the two clock reads
  (`strftime("%Y%m%d_%H%M%S")` and `isoformat()`) are string parameters of
  `Response`; the files it writes are returned as `Effect` values in the
  order it writes them.
 */
module GrpcCaptureAddon {
  import opened Extraction
  import Lines

  datatype Option<T> = None | Some(value: T)

  /** The parts of a proxied exchange the addon looks at; `body` is `None` when the proxy has no content for the response. */
  datatype Flow = Flow(
    path: string,
    httpMethod: string,
    status: int,
    contentType: Option<string>,
    body: Option<seq<byte>>)

  /** The metadata record saved beside each captured body. */
  datatype Meta = Meta(
    timestamp: string,
    path: string,
    httpMethod: string,
    status: int,
    contentType: string,
    sizeBytes: nat,
    filename: string)

  /** One file written to the capture directory. */
  datatype Effect =
    | WriteBytes(name: string, bytes: seq<byte>)
    | WriteJson(name: string, meta: Meta)
    | WriteText(name: string, text: string)

  function Name(e: Effect): string {
    match e
    case WriteBytes(n, _) => n
    case WriteJson(n, _) => n
    case WriteText(n, _) => n
  }

  // ---------------------------------------------------------------------------
  // Path filters

  /** `sub` occurs in `s` beginning at index `i`. */
  predicate OccursAt(s: string, sub: string, i: int) {
    0 <= i && i + |sub| <= |s| && s[i..i + |sub|] == sub
  }

  /** Python's `sub in s` on strings. */
  predicate Contains(s: string, sub: string) {
    exists i :: 0 <= i <= |s| - |sub| && OccursAt(s, sub, i)
  }

  lemma ContainsTransitive(s: string, a: string, b: string)
    requires Contains(s, a) && Contains(a, b)
    ensures Contains(s, b)
  {
    var i :| 0 <= i <= |s| - |a| && OccursAt(s, a, i);
    var j :| 0 <= j <= |a| - |b| && OccursAt(a, b, j);
    forall k | 0 <= k < |b| ensures s[i + j + k] == b[k] {
      assert b[k] == a[j + k] == s[i + j + k];
    }
    assert s[i + j..i + j + |b|] == b;
    assert OccursAt(s, b, i + j);
  }

  /** The endpoints whose responses are captured. */
  const SessionEndpoints: seq<string> := ["StreamCascadeReactiveUpdates", "GetCascade", "HandleAsync"]

  /** `any(ep in path for ep in SessionEndpoints)`. */
  predicate IsSessionPath(path: string) {
    exists k :: 0 <= k < |SessionEndpoints| && Contains(path, SessionEndpoints[k])
  }

  /** The request filter's first alternative is subsumed by the second: a request is logged exactly when its path contains "Cascade". */
  lemma RequestFilterIsCascade(path: string)
    ensures (Contains(path, "StreamCascade") || Contains(path, "Cascade")) <==> Contains(path, "Cascade")
  {
    if Contains(path, "StreamCascade") {
      assert OccursAt("StreamCascade", "Cascade", 6);
      ContainsTransitive(path, "StreamCascade", "Cascade");
    }
  }

  /**
    Every captured response's request was logged, except possibly those
    captured only because their path contains "HandleAsync".
   */
  lemma CapturedPathsLogged(path: string)
    ensures IsSessionPath(path) ==> Contains(path, "Cascade") || Contains(path, "HandleAsync")
  {
    if IsSessionPath(path) {
      var k :| 0 <= k < |SessionEndpoints| && Contains(path, SessionEndpoints[k]);
      if k == 0 {
        assert OccursAt(SessionEndpoints[k], "StreamCascade", 0);
        assert OccursAt("StreamCascade", "Cascade", 6);
        ContainsTransitive(SessionEndpoints[k], "StreamCascade", "Cascade");
        ContainsTransitive(path, SessionEndpoints[k], "Cascade");
      } else if k == 1 {
        assert OccursAt("GetCascade", "Cascade", 3);
        ContainsTransitive(path, SessionEndpoints[k], "Cascade");
      }
    }
  }

  // ---------------------------------------------------------------------------
  // File names

  predicate IsDigit(c: char) {
    '0' as int <= c as int <= '9' as int
  }

  /** Python's `str(n)` of a non-negative integer: its decimal digits, without leading zeros. */
  function Decimal(n: nat): (s: string)
    ensures |s| >= 1
  {
    if n < 10 then [('0' as int + n) as char]
    else Decimal(n / 10) + [('0' as int + n % 10) as char]
  }

  /** The value of a string of decimal digits. */
  function DecimalValue(s: string): nat
    requires forall i :: 0 <= i < |s| ==> IsDigit(s[i])
  {
    if s == [] then 0
    else
      assert IsDigit(s[|s| - 1]);
      DecimalValue(s[..|s| - 1]) * 10 + (s[|s| - 1] as int - '0' as int)
  }

  /** `str(n)` is made of digits, has no leading zero, and reads back as `n`. */
  lemma {:induction false} DecimalRoundTrip(n: nat)
    ensures forall i :: 0 <= i < |Decimal(n)| ==> IsDigit(Decimal(n)[i])
    ensures |Decimal(n)| > 1 ==> Decimal(n)[0] != '0'
    ensures DecimalValue(Decimal(n)) == n
  {
    if n >= 10 {
      DecimalRoundTrip(n / 10);
      var s := Decimal(n);
      assert s[..|s| - 1] == Decimal(n / 10);
    }
  }

  lemma DecimalInjective(m: nat, n: nat)
    requires Decimal(m) == Decimal(n)
    ensures m == n
  {
    DecimalRoundTrip(m);
    DecimalRoundTrip(n);
  }

  /** `f"capture_{timestamp}_{self.capture_count}"`, the stem shared by the files of one capture. */
  function Stem(stamp: string, count: nat): string {
    "capture_" + stamp + "_" + Decimal(count)
  }

  /**
    In `p + d` with `d` all digits, an underscore that ends a prefix `q` lies
    before `d`.
   */
  lemma SeparatorBeforeDigits(p: string, d: string, q: string, e: string)
    requires forall i :: 0 <= i < |d| ==> IsDigit(d[i])
    requires |q| >= 1 && q[|q| - 1] == '_'
    requires p + d == q + e
    ensures |q| <= |p|
  {
    var x := p + d;
    forall i | |p| <= i < |x| ensures IsDigit(x[i]) {
      assert x[i] == d[i - |p|];
    }
    assert x[|q| - 1] == '_';
  }

  /**
    Different captures get different stems: the count is the part after the
    last underscore (a decimal has none), so the stem determines both the
    timestamp and the count.
   */
  lemma StemInjective(s1: string, c1: nat, s2: string, c2: nat)
    requires Stem(s1, c1) == Stem(s2, c2)
    ensures s1 == s2 && c1 == c2
  {
    var p1, p2 := "capture_" + s1 + "_", "capture_" + s2 + "_";
    var d1, d2 := Decimal(c1), Decimal(c2);
    var x := p1 + d1;
    DecimalRoundTrip(c1);
    DecimalRoundTrip(c2);
    SeparatorBeforeDigits(p1, d1, p2, d2);
    SeparatorBeforeDigits(p2, d2, p1, d1);
    assert p1 == x[..|p1|] == p2;
    assert d1 == x[|p1|..] == d2;
    DecimalInjective(c1, c2);
    assert s1 == p1[8..|p1| - 1];
  }

  /** The suffixes of the three files of a capture. */
  const Suffixes: seq<string> := [".bin", ".json", ".txt"]

  function BinName(stamp: string, count: nat): string { Stem(stamp, count) + Suffixes[0] }
  function JsonName(stamp: string, count: nat): string { Stem(stamp, count) + Suffixes[1] }
  function TextName(stamp: string, count: nat): string { Stem(stamp, count) + Suffixes[2] }

  /** Each suffix has its one '.' in front, so in `x + a` with `a` a suffix, the last '.' is at `|x|`. */
  lemma LastDot(x: string, a: string, y: string, b: string)
    requires a in Suffixes && b in Suffixes
    requires x + a == y + b
    ensures |y| <= |x|
  {
    var n := x + a;
    assert forall i :: 1 <= i < |a| ==> a[i] != '.';
    forall i | |x| < i < |n| ensures n[i] != '.' {
      assert n[i] == a[i - |x|];
    }
    assert n[|y|] == b[0] == '.';
  }

  /** A file name determines its capture's stem. */
  lemma StemOfName(x: string, a: string, y: string, b: string)
    requires a in Suffixes && b in Suffixes
    requires x + a == y + b
    ensures x == y && a == b
  {
    LastDot(x, a, y, b);
    LastDot(y, b, x, a);
    var n := x + a;
    assert x == n[..|x|] == y;
    assert a == n[|x|..] == b;
  }

  // ---------------------------------------------------------------------------
  // One capture

  /** `flow.response.headers.get("content-type", "unknown")`. */
  function HeaderOr(header: Option<string>, default: string): string {
    if header.Some? then header.value else default
  }

  /**
    The files written for one captured response, given the two clock
    readings and the counter after its increment: nothing for an absent or
    empty body; otherwise the raw body, its metadata, and the extracted
    strings when there are any.
   */
  function CaptureEffects(flow: Flow, stamp: string, isoTime: string, count: nat): seq<Effect> {
    if flow.body.None? || |flow.body.value| == 0 then []
    else
      var body := flow.body.value;
      var meta := Meta(isoTime, flow.path, flow.httpMethod, flow.status,
                       HeaderOr(flow.contentType, "unknown"), |body|, BinName(stamp, count));
      var runs := PrintableRuns(body, DefaultMinLength);
      [WriteBytes(BinName(stamp, count), body), WriteJson(JsonName(stamp, count), meta)]
      + (if runs != [] then [WriteText(TextName(stamp, count), Lines.Join(runs))] else [])
  }

  /** The threshold `_extract_strings` uses when called without one. */
  const DefaultMinLength: int := 10

  /** A capture writes files exactly when the response has a non-empty body. */
  lemma FilesIffBody(flow: Flow, stamp: string, isoTime: string, count: nat)
    ensures CaptureEffects(flow, stamp, isoTime, count) == [] <==> flow.body.None? || flow.body.value == []
  {
  }

  /**
    What a capture with a body writes: the body unchanged under the ".bin"
    name, then metadata holding the ISO time, the request's path and method,
    the status, the content-type header (or "unknown"), the body's size and
    the ".bin" name, then a
    ".txt" file exactly when strings were found, whose lines are those
    strings.
   */
  lemma CaptureContents(flow: Flow, stamp: string, isoTime: string, count: nat)
    requires flow.body.Some? && flow.body.value != []
    ensures var fx := CaptureEffects(flow, stamp, isoTime, count);
      var runs := PrintableRuns(flow.body.value, DefaultMinLength);
      && (|fx| == 3 <==> runs != [])
      && |fx| >= 2
      && fx[0].WriteBytes? && fx[0].bytes == flow.body.value
      && fx[1].WriteJson? && fx[1].name == JsonName(stamp, count)
      && fx[1].meta == Meta(isoTime, flow.path, flow.httpMethod, flow.status,
                            HeaderOr(flow.contentType, "unknown"), |flow.body.value|, fx[0].name)
      && (flow.contentType.Some? ==> fx[1].meta.contentType == flow.contentType.value)
      && (flow.contentType.None? ==> fx[1].meta.contentType == "unknown")
      && (|fx| == 3 ==> fx[2].WriteText? && Lines.Split(fx[2].text) == runs)
  {
    var runs := PrintableRuns(flow.body.value, DefaultMinLength);
    if runs != [] {
      NoNewline(flow.body.value, DefaultMinLength);
      Lines.SplitJoin(runs);
    }
  }

  /** The files of one capture have different names, each the capture's stem followed by one of the suffixes. */
  lemma CaptureNames(flow: Flow, stamp: string, isoTime: string, count: nat)
    ensures var fx := CaptureEffects(flow, stamp, isoTime, count);
      && (forall k :: 0 <= k < |fx| ==> Name(fx[k]) == Stem(stamp, count) + Suffixes[k])
      && (forall j, k :: 0 <= j < k < |fx| ==> Name(fx[j]) != Name(fx[k]))
  {
    var fx := CaptureEffects(flow, stamp, isoTime, count);
    forall j, k | 0 <= j < k < |fx| ensures Name(fx[j]) != Name(fx[k]) {
      if Name(fx[j]) == Name(fx[k]) {
        StemOfName(Stem(stamp, count), Suffixes[j], Stem(stamp, count), Suffixes[k]);
      }
    }
  }

  /**
    Two captures with different counts never write to the same file, whatever
    the clock says.
   */
  lemma CapturesDoNotCollide(f1: Flow, s1: string, i1: string, c1: nat, f2: Flow, s2: string, i2: string, c2: nat)
    requires c1 != c2
    ensures forall j, k :: 0 <= j < |CaptureEffects(f1, s1, i1, c1)| && 0 <= k < |CaptureEffects(f2, s2, i2, c2)| ==>
      Name(CaptureEffects(f1, s1, i1, c1)[j]) != Name(CaptureEffects(f2, s2, i2, c2)[k])
  {
    var fx1, fx2 := CaptureEffects(f1, s1, i1, c1), CaptureEffects(f2, s2, i2, c2);
    CaptureNames(f1, s1, i1, c1);
    CaptureNames(f2, s2, i2, c2);
    forall j, k | 0 <= j < |fx1| && 0 <= k < |fx2| ensures Name(fx1[j]) != Name(fx2[k]) {
      if Name(fx1[j]) == Name(fx2[k]) {
        StemOfName(Stem(s1, c1), Suffixes[j], Stem(s2, c2), Suffixes[k]);
        StemInjective(s1, c1, s2, c2);
      }
    }
  }

  // ---------------------------------------------------------------------------
  // The addon

  /** The addon object; its one piece of state counts captured responses. */
  class GrpcCapture {
    var captureCount: nat

    constructor ()
      ensures captureCount == 0
    {
      captureCount := 0;
    }

    /** The request hook: whether the request is logged. */
    method Request(flow: Flow) returns (logged: bool)
      ensures logged <==> Contains(flow.path, "Cascade")
    {
      logged := Contains(flow.path, "StreamCascade") || Contains(flow.path, "Cascade");
      RequestFilterIsCascade(flow.path);
    }

    /**
      The response hook: on a session endpoint, count the response and write
      its files under the new count; on any other path, do nothing.
     */
    method Response(flow: Flow, stamp: string, isoTime: string) returns (effects: seq<Effect>)
      modifies this
      ensures captureCount == old(captureCount) + (if IsSessionPath(flow.path) then 1 else 0)
      ensures effects == if IsSessionPath(flow.path) then CaptureEffects(flow, stamp, isoTime, captureCount) else []
    {
      effects := [];
      var path := flow.path;
      if IsSessionPath(path) {
        captureCount := captureCount + 1;
        var body := flow.body;
        if body.Some? && |body.value| > 0 {
          var filename := BinName(stamp, captureCount);
          effects := effects + [WriteBytes(filename, body.value)];
          var meta := Meta(isoTime, path, flow.httpMethod, flow.status,
                           HeaderOr(flow.contentType, "unknown"), |body.value|, filename);
          effects := effects + [WriteJson(JsonName(stamp, captureCount), meta)];
          var strings := ExtractStrings(body.value);
          if |strings| > 0 {
            effects := effects + [WriteText(TextName(stamp, captureCount), Lines.Join(strings))];
          }
        }
      }
    }

    /** `_extract_strings`: the maximal printable runs of `data` of length at least `minLength`, in input order. */
    method ExtractStrings(data: seq<byte>, minLength: int := DefaultMinLength) returns (strings: seq<string>)
      ensures strings == PrintableRuns(data, minLength)
    {
      strings := [];
      var current: string := "";
      for n := 0 to |data|
        invariant strings == Scan(data, minLength, n).strings
        invariant current == Scan(data, minLength, n).current
      {
        var b := data[n];
        if 32 <= b < 127 {
          current := current + [Chr(b)];
        } else {
          if |current| >= minLength {
            strings := strings + [current];
          }
          current := "";
        }
      }

      ScanComputesRuns(data, minLength);
      if |current| >= minLength {
        strings := strings + [current];
      }
    }
  }
}
