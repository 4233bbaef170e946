/**
  Python's `"\n".join(strings)` and its inverse `text.split("\n")`, as used
  for the extracted-strings sidecar files.
 */
module Lines {

  /** `"\n".join(ss)`: the strings with one newline between neighbours. */
  function Join(ss: seq<string>): string
  {
    if |ss| == 0 then ""
    else if |ss| == 1 then ss[0]
    else ss[0] + "\n" + Join(ss[1..])
  }

  /** `text.split("\n")`: the pieces between newlines; never empty, since `"".split("\n") == [""]`. */
  function Split(text: string): (r: seq<string>)
    ensures |r| >= 1
    ensures forall k :: 0 <= k < |r| ==> '\n' !in r[k]
  {
    if text == [] then [""]
    else if text[0] == '\n' then [""] + Split(text[1..])
    else
      var rest := Split(text[1..]);
      [[text[0]] + rest[0]] + rest[1..]
  }

  lemma {:induction false} SplitWithoutNewline(s: string)
    requires '\n' !in s
    ensures Split(s) == [s]
  {
    if s != [] {
      SplitWithoutNewline(s[1..]);
      assert [s[0]] + s[1..] == s;
    }
  }

  lemma {:induction false} SplitAfterLine(s: string, rest: string)
    requires '\n' !in s
    ensures Split(s + "\n" + rest) == [s] + Split(rest)
  {
    var text := s + "\n" + rest;
    if s == [] {
      assert text[0] == '\n' && text[1..] == rest;
    } else {
      assert text[0] == s[0] && text[1..] == s[1..] + "\n" + rest;
      SplitAfterLine(s[1..], rest);
      assert [s[0]] + s[1..] == s;
    }
  }

  /** Splitting a join recovers the list, provided it is non-empty and no element holds a newline. */
  lemma {:induction false} SplitJoin(ss: seq<string>)
    requires |ss| >= 1
    requires forall k :: 0 <= k < |ss| ==> '\n' !in ss[k]
    ensures Split(Join(ss)) == ss
  {
    if |ss| == 1 {
      SplitWithoutNewline(ss[0]);
    } else {
      SplitAfterLine(ss[0], Join(ss[1..]));
      SplitJoin(ss[1..]);
      assert [ss[0]] + ss[1..] == ss;
    }
  }

  /** The empty list is the one exception: its join splits back into one empty piece. */
  lemma SplitJoinEmpty()
    ensures Join([]) == "" && Split(Join([])) == [""]
  {
  }

  /** Joining the pieces of a split gives back the text. */
  lemma {:induction false} JoinSplit(text: string)
    ensures Join(Split(text)) == text
  {
    if text == [] {
    } else if text[0] == '\n' {
      JoinSplit(text[1..]);
      var rest := Split(text[1..]);
      assert ([""] + rest)[1..] == rest;
      assert text == "" + "\n" + text[1..];
    } else {
      JoinSplit(text[1..]);
      var rest := Split(text[1..]);
      var r := [[text[0]] + rest[0]] + rest[1..];
      if |rest| == 1 {
        assert text == [text[0]] + text[1..];
      } else {
        assert r[1..] == rest[1..];
        assert Join(rest) == rest[0] + "\n" + Join(rest[1..]);
        assert text == [text[0]] + text[1..];
      }
    }
  }
}
