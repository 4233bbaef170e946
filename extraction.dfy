/**
  The printable-string extraction heuristic used both by the decoder's
  fallback and by the capture hook: scan a byte string and keep every maximal
  run of printable ASCII bytes whose length reaches a threshold.

  This module holds
  - the declarative specification of that heuristic, `PrintableRuns`: the
    texts of the maximal printable runs of length at least `t`, in input
    order (`Spans` lists those runs, and `ExactlyMaximalRuns` proves that it
    lists exactly them);
  - `Scan`, the state the left-to-right byte loop is in after reading a
    prefix, and the proof (`ScanComputesRuns`) that flushing that state at
    the end of input gives `PrintableRuns`.
  The two loops that compute the heuristic live beside their callers, in
  CaptureSession and GrpcCaptureAddon.
 */
module Extraction {

  newtype byte = b: int | 0 <= b < 256

  /** A byte the heuristic keeps: space (32) up to and including '~' (126); 127 and everything below 32 are not. */
  predicate IsPrintable(b: byte) {
    32 <= b < 127
  }

  predicate IsPrintableChar(c: char) {
    32 <= c as int < 127
  }

  /** The character a byte stands for (Python's `chr`). */
  function Chr(b: byte): (c: char)
    ensures c as int == b as int
  {
    (b as int) as char
  }

  /** The string made of the characters of `bytes`, one per byte. */
  function Text(bytes: seq<byte>): (s: string)
    ensures |s| == |bytes|
  {
    if bytes == [] then "" else [Chr(bytes[0])] + Text(bytes[1..])
  }

  lemma {:induction false} TextAt(bytes: seq<byte>, i: nat)
    requires i < |bytes|
    ensures Text(bytes)[i] as int == bytes[i] as int
  {
    if i > 0 {
      TextAt(bytes[1..], i - 1);
    }
  }

  /** Appending a byte appends its character. */
  lemma {:induction false} TextAppend(bytes: seq<byte>, b: byte)
    ensures Text(bytes + [b]) == Text(bytes) + [Chr(b)]
  {
    if bytes != [] {
      assert (bytes + [b])[1..] == bytes[1..] + [b];
      TextAppend(bytes[1..], b);
    }
  }

  /** The text of `bytes` is `s` when their code points agree one by one. */
  lemma TextIs(bytes: seq<byte>, s: string)
    requires |bytes| == |s|
    requires forall i :: 0 <= i < |s| ==> s[i] as int == bytes[i] as int
    ensures Text(bytes) == s
  {
    forall i | 0 <= i < |s| ensures Text(bytes)[i] == s[i] {
      TextAt(bytes, i);
    }
  }

  // ---------------------------------------------------------------------------
  // Runs

  /** `data[lo..hi]` is printable throughout and cannot be extended on either side. */
  ghost predicate IsMaximalRun(data: seq<byte>, lo: int, hi: int) {
    && 0 <= lo <= hi <= |data|
    && (forall i :: lo <= i < hi ==> IsPrintable(data[i]))
    && (lo == 0 || !IsPrintable(data[lo - 1]))
    && (hi == |data| || !IsPrintable(data[hi]))
  }

  /** A position where a run may begin: the start of input or just past a non-printable byte. */
  predicate IsRunStart(data: seq<byte>, s: nat) {
    s <= |data| && (s == 0 || !IsPrintable(data[s - 1]))
  }

  /** The end of the printable run beginning at `s`: the first non-printable position at or after `s`, or the end of input. */
  function RunEnd(data: seq<byte>, s: nat): (e: nat)
    requires s <= |data|
    ensures s <= e <= |data|
    ensures e == |data| || !IsPrintable(data[e])
    decreases |data| - s
  {
    if s == |data| || !IsPrintable(data[s]) then s else RunEnd(data, s + 1)
  }

  /** Every byte the run beginning at `s` covers is printable. */
  lemma {:induction false} RunEndPrintable(data: seq<byte>, s: nat)
    requires s <= |data|
    ensures forall i :: s <= i < RunEnd(data, s) ==> IsPrintable(data[i])
    decreases |data| - s
  {
    if s < |data| && IsPrintable(data[s]) {
      RunEndPrintable(data, s + 1);
    }
  }

  /** The run beginning at `s` ends exactly at the first non-printable byte. */
  lemma RunEndAt(data: seq<byte>, s: nat, e: nat)
    requires s <= e <= |data|
    requires forall i :: s <= i < e ==> IsPrintable(data[i])
    requires e == |data| || !IsPrintable(data[e])
    ensures RunEnd(data, s) == e
  {
    RunEndPrintable(data, s);
  }

  // ---------------------------------------------------------------------------
  // The specification: spans of the maximal printable runs

  /** The half-open byte range `[lo, hi)` of one extracted run. */
  datatype Span = Span(lo: nat, hi: nat)

  /** The runs beginning at or after the run start `s` whose length is at least `t`, in input order. */
  function Spans(data: seq<byte>, t: int, s: nat): seq<Span>
    requires IsRunStart(data, s)
    decreases |data| - s
  {
    var e := RunEnd(data, s);
    var here := if e - s >= t then [Span(s, e)] else [];
    if e == |data| then here else here + Spans(data, t, e + 1)
  }

  /** Each span is a maximal run of length at least `t` that begins at or after `s`. */
  lemma {:induction false} SpanIsRun(data: seq<byte>, t: int, s: nat, k: nat)
    requires IsRunStart(data, s) && k < |Spans(data, t, s)|
    ensures s <= Spans(data, t, s)[k].lo
    ensures IsMaximalRun(data, Spans(data, t, s)[k].lo, Spans(data, t, s)[k].hi)
    ensures Spans(data, t, s)[k].hi - Spans(data, t, s)[k].lo >= t
    decreases |data| - s
  {
    var e := RunEnd(data, s);
    var here := if e - s >= t then [Span(s, e)] else [];
    if k < |here| {
      RunEndPrintable(data, s);
    } else {
      SpanIsRun(data, t, e + 1, k - |here|);
      assert Spans(data, t, s)[k] == Spans(data, t, e + 1)[k - |here|];
    }
  }

  /** Spans come in input order, each ending before the next begins. */
  lemma {:induction false} SpansOrdered(data: seq<byte>, t: int, s: nat, j: nat, k: nat)
    requires IsRunStart(data, s) && j < k < |Spans(data, t, s)|
    ensures Spans(data, t, s)[j].hi < Spans(data, t, s)[k].lo
    decreases |data| - s
  {
    var e := RunEnd(data, s);
    var here := if e - s >= t then [Span(s, e)] else [];
    var rest := Spans(data, t, e + 1);
    assert Spans(data, t, s) == here + rest;
    if j < |here| {
      SpanIsRun(data, t, e + 1, k - 1);
    } else {
      SpansOrdered(data, t, e + 1, j - |here|, k - |here|);
    }
  }

  /** Every maximal run of length at least `t` that begins at or after the run start `s` is one of `Spans(data, t, s)`. */
  lemma {:induction false} SpansComplete(data: seq<byte>, t: int, s: nat, lo: nat, hi: nat)
    requires IsRunStart(data, s) && s <= lo
    requires IsMaximalRun(data, lo, hi) && hi - lo >= t
    ensures Span(lo, hi) in Spans(data, t, s)
    decreases |data| - s
  {
    var e := RunEnd(data, s);
    var here := if e - s >= t then [Span(s, e)] else [];
    if lo == s {
      RunEndAt(data, s, hi);
      assert here == [Span(lo, hi)];
    } else {
      assert !IsPrintable(data[lo - 1]);
      RunEndPrintable(data, s);
      assert e <= lo - 1;
      SpansComplete(data, t, e + 1, lo, hi);
      assert Spans(data, t, s) == here + Spans(data, t, e + 1);
    }
  }

  ghost predicate WithinData(data: seq<byte>, sp: seq<Span>) {
    forall k :: 0 <= k < |sp| ==> sp[k].lo <= sp[k].hi <= |data|
  }

  lemma SpansWithinData(data: seq<byte>, t: int)
    ensures WithinData(data, Spans(data, t, 0))
  {
    forall k | 0 <= k < |Spans(data, t, 0)| ensures Spans(data, t, 0)[k].lo <= Spans(data, t, 0)[k].hi <= |data| {
      SpanIsRun(data, t, 0, k);
    }
  }

  /** The text of each span, in the same order. */
  function Texts(data: seq<byte>, sp: seq<Span>): (r: seq<string>)
    requires WithinData(data, sp)
    ensures |r| == |sp|
  {
    if sp == [] then [] else [Text(data[sp[0].lo..sp[0].hi])] + Texts(data, sp[1..])
  }

  lemma {:induction false} TextsAt(data: seq<byte>, sp: seq<Span>, k: nat)
    requires WithinData(data, sp) && k < |sp|
    ensures Texts(data, sp)[k] == Text(data[sp[k].lo..sp[k].hi])
  {
    if k > 0 {
      TextsAt(data, sp[1..], k - 1);
    }
  }

  /** Appending one span appends its text. */
  lemma {:induction false} TextsAppend(data: seq<byte>, sp: seq<Span>, x: Span)
    requires WithinData(data, sp) && x.lo <= x.hi <= |data|
    ensures WithinData(data, sp + [x])
    ensures Texts(data, sp + [x]) == Texts(data, sp) + [Text(data[x.lo..x.hi])]
    decreases |sp|
  {
    if sp != [] {
      assert (sp + [x])[1..] == sp[1..] + [x];
      TextsAppend(data, sp[1..], x);
    }
  }

  /** What the heuristic returns for `data` and threshold `t`: the texts of the maximal printable runs of length at least `t`, in input order. */
  function PrintableRuns(data: seq<byte>, t: int): seq<string>
  {
    SpansWithinData(data, t);
    Texts(data, Spans(data, t, 0))
  }

  // ---------------------------------------------------------------------------
  // The byte loop

  /**
    Where the byte loop stands after reading a prefix: the kept strings, the
    open run `current`, and (for the proof only) the position `start` where
    the open run began and the spans `done` of the runs kept so far.
   */
  datatype ScanState = ScanState(strings: seq<string>, current: string, start: nat, done: seq<Span>)

  /** One turn of the loop on byte `b` at position `n`: extend the open run, or close it (keeping it if long enough) and open an empty one. */
  function Step(st: ScanState, b: byte, n: nat, t: int): ScanState {
    if IsPrintable(b) then st.(current := st.current + [Chr(b)])
    else if |st.current| >= t then ScanState(st.strings + [st.current], "", n + 1, st.done + [Span(st.start, n)])
    else ScanState(st.strings, "", n + 1, st.done)
  }

  /** The loop's state after reading `data[..n]` with threshold `t`. */
  ghost function Scan(data: seq<byte>, t: int, n: nat): ScanState
    requires n <= |data|
  {
    if n == 0 then ScanState([], "", 0, []) else Step(Scan(data, t, n - 1), data[n - 1], n - 1, t)
  }

  /** The loop's final step: keep the open run if it is long enough. */
  function Flush(strings: seq<string>, current: string, t: int): seq<string> {
    if |current| >= t then strings + [current] else strings
  }

  /**
    The loop invariant behind `Scan`: after `data[..n]`, `current` is the text
    of the open run `data[start..n]`, `done` are the spans before `start`, and
    `strings` are their texts.
   */
  ghost predicate Scanned(data: seq<byte>, t: int, n: nat, st: ScanState) {
    && st.start <= n <= |data|
    && IsRunStart(data, st.start)
    && n <= RunEnd(data, st.start)
    && st.current == Text(data[st.start..n])
    && WithinData(data, st.done)
    && st.done + Spans(data, t, st.start) == Spans(data, t, 0)
    && st.strings == Texts(data, st.done)
  }

  /** A printable byte extends the open run. */
  lemma ScanPrintable(data: seq<byte>, t: int, n: nat, st: ScanState)
    requires Scanned(data, t, n, st)
    requires n < |data| && IsPrintable(data[n])
    ensures Scanned(data, t, n + 1, Step(st, data[n], n, t))
  {
    assert data[st.start..n + 1] == data[st.start..n] + [data[n]];
    TextAppend(data[st.start..n], data[n]);
  }

  /** A non-printable byte closes the open run `data[st.start..n]`, which starts the spans from `st.start` if it is long enough. */
  lemma RunClosedAt(data: seq<byte>, t: int, n: nat, st: ScanState)
    requires Scanned(data, t, n, st)
    requires n < |data| && !IsPrintable(data[n])
    ensures RunEnd(data, st.start) == n
    ensures Spans(data, t, st.start) == (if n - st.start >= t then [Span(st.start, n)] else []) + Spans(data, t, n + 1)
  {
    RunEndPrintable(data, st.start);
  }

  /** A non-printable byte closes a run long enough to keep. */
  lemma ScanKeep(data: seq<byte>, t: int, n: nat, st: ScanState)
    requires Scanned(data, t, n, st)
    requires n < |data| && !IsPrintable(data[n]) && |st.current| >= t
    ensures Scanned(data, t, n + 1, ScanState(st.strings + [st.current], "", n + 1, st.done + [Span(st.start, n)]))
  {
    var x := Span(st.start, n);
    RunClosedAt(data, t, n, st);
    TextsAppend(data, st.done, x);
    assert (st.done + [x]) + Spans(data, t, n + 1) == st.done + ([x] + Spans(data, t, n + 1));
  }

  /** A non-printable byte closes a run too short to keep. */
  lemma ScanDrop(data: seq<byte>, t: int, n: nat, st: ScanState)
    requires Scanned(data, t, n, st)
    requires n < |data| && !IsPrintable(data[n]) && |st.current| < t
    ensures Scanned(data, t, n + 1, ScanState(st.strings, "", n + 1, st.done))
  {
    RunClosedAt(data, t, n, st);
  }

  /** One turn of the loop keeps the invariant. */
  lemma ScanStep(data: seq<byte>, t: int, n: nat)
    requires n < |data| && Scanned(data, t, n, Scan(data, t, n))
    ensures Scanned(data, t, n + 1, Scan(data, t, n + 1))
  {
    var st := Scan(data, t, n);
    assert Scan(data, t, n + 1) == Step(st, data[n], n, t);
    if IsPrintable(data[n]) {
      ScanPrintable(data, t, n, st);
    } else if |st.current| >= t {
      ScanKeep(data, t, n, st);
    } else {
      ScanDrop(data, t, n, st);
    }
  }

  lemma {:induction false} ScanInvariant(data: seq<byte>, t: int, n: nat)
    requires n <= |data|
    ensures Scanned(data, t, n, Scan(data, t, n))
  {
    if n > 0 {
      ScanInvariant(data, t, n - 1);
      ScanStep(data, t, n - 1);
    }
  }

  /** Scanning the whole input and flushing the open run gives exactly the maximal printable runs of length at least `t`. */
  lemma ScanComputesRuns(data: seq<byte>, t: int)
    ensures Flush(Scan(data, t, |data|).strings, Scan(data, t, |data|).current, t) == PrintableRuns(data, t)
  {
    var st := Scan(data, t, |data|);
    ScanInvariant(data, t, |data|);
    var here := if |data| - st.start >= t then [Span(st.start, |data|)] else [];
    assert Spans(data, t, st.start) == here;
    if |st.current| >= t {
      TextsAppend(data, st.done, Span(st.start, |data|));
    } else {
      assert st.done + here == st.done;
    }
  }

  // ---------------------------------------------------------------------------
  // Properties of the heuristic

  /**
    The heuristic's result, exactly: the texts of `Spans(data, t, 0)`, which
    are in strictly increasing input order and are precisely the maximal
    printable runs of length at least `t`.
   */
  lemma ExactlyMaximalRuns(data: seq<byte>, t: int)
    ensures WithinData(data, Spans(data, t, 0))
    ensures PrintableRuns(data, t) == Texts(data, Spans(data, t, 0))
    ensures forall j, k :: 0 <= j < k < |Spans(data, t, 0)| ==> Spans(data, t, 0)[j].hi < Spans(data, t, 0)[k].lo
    ensures forall lo: nat, hi: nat :: Span(lo, hi) in Spans(data, t, 0) <==> IsMaximalRun(data, lo, hi) && hi - lo >= t
  {
    var sp := Spans(data, t, 0);
    SpansWithinData(data, t);
    forall j, k | 0 <= j < k < |sp| ensures sp[j].hi < sp[k].lo {
      SpansOrdered(data, t, 0, j, k);
    }
    forall lo: nat, hi: nat ensures Span(lo, hi) in sp <==> IsMaximalRun(data, lo, hi) && hi - lo >= t {
      if Span(lo, hi) in sp {
        var k :| 0 <= k < |sp| && sp[k] == Span(lo, hi);
        SpanIsRun(data, t, 0, k);
      }
      if IsMaximalRun(data, lo, hi) && hi - lo >= t {
        SpansComplete(data, t, 0, lo, hi);
      }
    }
  }

  /** Every extracted string is at least `t` long and made only of printable characters. */
  lemma RunsArePrintable(data: seq<byte>, t: int)
    ensures forall k :: 0 <= k < |PrintableRuns(data, t)| ==> |PrintableRuns(data, t)[k]| >= t
    ensures forall k, i :: 0 <= k < |PrintableRuns(data, t)| && 0 <= i < |PrintableRuns(data, t)[k]| ==>
      IsPrintableChar(PrintableRuns(data, t)[k][i])
  {
    var sp := Spans(data, t, 0);
    SpansWithinData(data, t);
    var r := PrintableRuns(data, t);
    forall k | 0 <= k < |r|
      ensures |r[k]| >= t
      ensures forall i :: 0 <= i < |r[k]| ==> IsPrintableChar(r[k][i])
    {
      SpanIsRun(data, t, 0, k);
      TextsAt(data, sp, k);
      forall i | 0 <= i < |r[k]| ensures IsPrintableChar(r[k][i]) {
        TextAt(data[sp[k].lo..sp[k].hi], i);
      }
    }
  }

  /** No extracted string holds a newline (byte 10 is not printable). */
  lemma NoNewline(data: seq<byte>, t: int)
    ensures forall k :: 0 <= k < |PrintableRuns(data, t)| ==> '\n' !in PrintableRuns(data, t)[k]
  {
    RunsArePrintable(data, t);
    var r := PrintableRuns(data, t);
    assert forall k, i :: 0 <= k < |r| && 0 <= i < |r[k]| ==> r[k][i] != '\n';
  }

  /** The heuristic finds nothing exactly when no maximal printable run reaches the threshold. */
  lemma NothingExtracted(data: seq<byte>, t: int)
    ensures PrintableRuns(data, t) == [] <==> forall lo: nat, hi: nat :: IsMaximalRun(data, lo, hi) ==> hi - lo < t
  {
    ExactlyMaximalRuns(data, t);
    if PrintableRuns(data, t) != [] {
      var s := Spans(data, t, 0)[0];
      assert s in Spans(data, t, 0);
    }
  }

  /**
    Empty input: one empty run if the threshold admits length 0, otherwise
    nothing (the flushed empty run is kept when `0 >= t`).
   */
  lemma EmptyInput(t: int)
    ensures PrintableRuns([], t) == if t <= 0 then [""] else []
  {
    assert RunEnd([], 0) == 0;
    if t <= 0 {
      assert Spans([], t, 0) == [Span(0, 0)];
    }
  }

  /** Input made entirely of printable bytes yields itself if long enough, and nothing otherwise. */
  lemma AllPrintable(data: seq<byte>, t: int)
    requires forall i :: 0 <= i < |data| ==> IsPrintable(data[i])
    ensures PrintableRuns(data, t) == if |data| >= t then [Text(data)] else []
  {
    RunEndAt(data, 0, |data|);
    assert data[0..|data|] == data;
  }

  /** Raising the threshold only drops runs: every run kept at `t2` is also kept at any lower `t1`. */
  lemma ThresholdMonotone(data: seq<byte>, t1: int, t2: int)
    requires t1 <= t2
    ensures forall x :: x in Spans(data, t2, 0) ==> x in Spans(data, t1, 0)
    ensures forall k :: 0 <= k < |PrintableRuns(data, t2)| ==> PrintableRuns(data, t2)[k] in PrintableRuns(data, t1)
  {
    ExactlyMaximalRuns(data, t1);
    ExactlyMaximalRuns(data, t2);
    var sp1, sp2 := Spans(data, t1, 0), Spans(data, t2, 0);
    forall x | x in sp2 ensures x in sp1 {
      assert Span(x.lo, x.hi) == x;
    }
    forall k | 0 <= k < |sp2| ensures PrintableRuns(data, t2)[k] in PrintableRuns(data, t1) {
      assert sp2[k] in sp1;
      var j :| 0 <= j < |sp1| && sp1[j] == sp2[k];
      TextsAt(data, sp1, j);
      TextsAt(data, sp2, k);
      assert PrintableRuns(data, t1)[j] == PrintableRuns(data, t2)[k];
    }
  }
}
