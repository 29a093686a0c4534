/** `haystack.types`: the record the assembler yields and its text form. */
module Types {
  import opened Strings

  /** One context block: the file it came from and its lines, in order. */
  datatype SearchResult = SearchResult(filename: string, lines: seq<string>)

  /** `SearchResult.__str__`: the filename and a colon on the first line,
      then the lines joined by single newlines, with no trailing newline. */
  function Render(r: SearchResult): (s: string)
    ensures StartsWith(s, r.filename + ":\n")
    ensures r.lines == [] ==> s == r.filename + ":\n"
    ensures r.lines != [] ==> EndsWith(s, r.lines[|r.lines| - 1])
  {
    var body := Join("\n", r.lines);
    assert r.lines != [] ==> EndsWith(body, r.lines[|r.lines| - 1]) by {
      if r.lines != [] {
        JoinEndsWithLast("\n", r.lines);
      }
    }
    r.filename + ":\n" + body
  }

  /** The last part of a join ends the joined text. */
  lemma {:induction false} JoinEndsWithLast(sep: string, parts: seq<string>)
    requires parts != []
    ensures EndsWith(Join(sep, parts), parts[|parts| - 1])
  {
    if |parts| > 1 {
      JoinEndsWithLast(sep, parts[1..]);
      var tail := Join(sep, parts[1..]);
      var w := parts[|parts| - 1];
      assert parts[1..][|parts[1..]| - 1] == w;
      var s := parts[0] + sep + tail;
      assert s[|s| - |w|..] == tail[|tail| - |w|..];
    }
  }

  /** The length of the text form: the filename, the colon and newline, every
      line, and one newline between each two lines. */
  lemma RenderLength(r: SearchResult)
    requires r.lines != []
    ensures |Render(r)| == |r.filename| + 2 + TotalLength(r.lines) + (|r.lines| - 1)
  {
    JoinLength("\n", r.lines);
  }

  /** Splitting the text form at newlines gives back the header line and the
      lines, when neither the filename nor any line holds a newline. */
  lemma RenderRoundTrip(r: SearchResult)
    requires r.lines != []
    requires '\n' !in r.filename
    requires forall i :: 0 <= i < |r.lines| ==> '\n' !in r.lines[i]
    ensures Split(Render(r), '\n') == [r.filename + ":"] + r.lines
  {
    var head := r.filename + ":";
    assert '\n' !in head;
    assert Render(r) == head + ['\n'] + Join(['\n'], r.lines);
    SplitAfterHead(head, '\n', Join(['\n'], r.lines));
    SplitJoin(r.lines, '\n');
  }
}
