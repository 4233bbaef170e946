/**
  A worked example of the extraction heuristic: the bytes
  `\x00hello\x00world!!\x00` with threshold 5 give "hello" and "world!!".
 */
module ExtractionExamples {
  import opened Extraction

  /** `b"\x00hello\x00world!!\x00"`. */
  const Example: seq<byte> := [0, 104, 101, 108, 108, 111, 0, 119, 111, 114, 108, 100, 33, 33, 0]

  lemma ExampleSpans()
    ensures Spans(Example, 5, 0) == [Span(1, 6), Span(7, 14)]
  {
    SpansFrom7();
    SpansFrom1();
    RunEndAt(Example, 0, 0);
    assert Spans(Example, 5, 0) == Spans(Example, 5, 1);
  }

  lemma SpansFrom7()
    ensures Spans(Example, 5, 7) == [Span(7, 14)]
  {
    RunEndAt(Example, 7, 14);
    RunEndAt(Example, 15, 15);
    assert Spans(Example, 5, 15) == [];
  }

  lemma SpansFrom1()
    ensures Spans(Example, 5, 1) == [Span(1, 6)] + Spans(Example, 5, 7)
  {
    RunEndAt(Example, 1, 6);
  }

  lemma HelloText()
    ensures Text(Example[1..6]) == "hello"
  {
    TextIs(Example[1..6], "hello");
  }

  lemma WorldText()
    ensures Text(Example[7..14]) == "world!!"
  {
    TextIs(Example[7..14], "world!!");
  }

  /** The two runs are extracted in order, and the leading and trailing zero bytes contribute nothing. */
  lemma HelloWorld()
    ensures PrintableRuns(Example, 5) == ["hello", "world!!"]
  {
    ExampleSpans();
    HelloText();
    WorldText();
    var sp := [Span(1, 6), Span(7, 14)];
    assert sp[1..] == [Span(7, 14)];
  }
}
