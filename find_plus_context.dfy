/** `haystack.find_plus_context`: the loop that groups the lines printed by
    `rg -C N term` into `SearchResult` records. The lines are taken as the
    process's text-mode standard output yields them, trailing newline
    included; launching the process is not part of this model. */
module FindPlusContext {
  import opened Strings
  import opened Types

  datatype Option<T> = None | Some(value: T)

  /** The loop's two variables: the lines buffered since the last record,
      and the filename of the block, with "" for unset (the code tests it
      for truthiness, so `None` and "" behave alike). */
  datatype State = State(buffer: seq<string>, currentFile: string)

  const Initial := State([], "")

  /** A line of ripgrep's group separator, `--`. */
  predicate IsSeparator(line: string) {
    StartsWith(line, "--")
  }

  /** The candidate filename of a line: its text before the first colon,
      or "" when it has no colon. */
  function Label(line: string): string {
    var parts := SplitOnce(line, ':');
    if |parts| >= 2 then parts[0] else ""
  }

  /** The test `buffer and current_file` that guards every yield. */
  predicate CanFlush(st: State) {
    |st.buffer| > 0 && st.currentFile != ""
  }

  datatype Transition = Transition(next: State, emitted: Option<SearchResult>)

  /** One iteration of the loop body, on one input line. */
  function Step(st: State, line: string): Transition {
    if IsSeparator(line) then
      if CanFlush(st) then Transition(Initial, Some(SearchResult(st.currentFile, st.buffer)))
      else Transition(st, None)
    else
      var parts := SplitOnce(line, ':');
      var file := if |parts| >= 2 && st.currentFile == "" then parts[0] else st.currentFile;
      Transition(State(st.buffer + [RStrip(line)], file), None)
  }

  function EmittedSeq(t: Transition): seq<SearchResult> {
    if t.emitted.Some? then [t.emitted.value] else []
  }

  /** What the loop has yielded, and its state, after the given lines. */
  datatype Progress = Progress(results: seq<SearchResult>, state: State)

  function Feed(lines: seq<string>): Progress {
    if lines == [] then Progress([], Initial)
    else
      var p := Feed(lines[..|lines| - 1]);
      var t := Step(p.state, lines[|lines| - 1]);
      Progress(p.results + EmittedSeq(t), t.next)
  }

  /** The yield after the loop, at end of input. */
  function Flush(st: State): seq<SearchResult> {
    if CanFlush(st) then [SearchResult(st.currentFile, st.buffer)] else []
  }

  /** Every record the generator yields for the given output lines. */
  function Assembled(lines: seq<string>): seq<SearchResult> {
    var p := Feed(lines);
    p.results + Flush(p.state)
  }

  /** The generator's loop, run to the end of the input: it yields exactly
      the records of `Assembled`, whose properties are the lemmas below. */
  method AssembleBlocks(lines: seq<string>) returns (results: seq<SearchResult>)
    ensures results == Assembled(lines)
  {
    var buffer: seq<string> := [];
    var currentFile := "";
    results := [];
    var i := 0;
    while i < |lines|
      invariant 0 <= i <= |lines|
      invariant Feed(lines[..i]) == Progress(results, State(buffer, currentFile))
    {
      var line := lines[i];
      assert lines[..i + 1][..i] == lines[..i];
      if StartsWith(line, "--") {
        if |buffer| > 0 && currentFile != "" {
          results := results + [SearchResult(currentFile, buffer)];
          buffer := [];
          currentFile := "";
        }
      } else {
        var parts := SplitOnce(line, ':');
        if |parts| >= 2 {
          if currentFile == "" {
            currentFile := parts[0];
          }
        }
        buffer := buffer + [RStrip(line)];
      }
      i := i + 1;
    }
    assert lines[..i] == lines;
    if |buffer| > 0 && currentFile != "" {
      results := results + [SearchResult(currentFile, buffer)];
    }
  }

  // ---------------------------------------------------------------------
  // The filename of a block

  /** The filename that first-filename-wins picks from a run of lines: the
      label of the earliest line whose label is non-empty. */
  function FirstLabel(ls: seq<string>): string {
    if ls == [] then ""
    else if Label(ls[0]) != "" then Label(ls[0])
    else FirstLabel(ls[1..])
  }

  /** Appending a line changes the first label only while there is none. */
  lemma {:induction false} FirstLabelAppend(ls: seq<string>, x: string)
    ensures FirstLabel(ls + [x]) == if FirstLabel(ls) != "" then FirstLabel(ls) else Label(x)
  {
    if ls != [] {
      assert (ls + [x])[0] == ls[0] && (ls + [x])[1..] == ls[1..] + [x];
      FirstLabelAppend(ls[1..], x);
    } else {
      assert [x][1..] == [];
    }
  }

  /** Stripping trailing whitespace keeps a line's label: a colon is not
      whitespace, so the first colon survives. */
  lemma LabelSurvivesRStrip(line: string)
    ensures Label(RStrip(line)) == Label(line)
  {
    var r := RStrip(line);
    var parts := SplitOnce(line, ':');
    if |parts| == 2 {
      var p := parts[0];
      assert line == p + [':'] + parts[1];
      assert line[|p|] == ':' && !IsSpace(line[|p|]);
      assert |p| < |r|;
      assert r[..|p|] == line[..|p|] == p;
      SplitOnceHead(r, ':', p);
    } else {
      assert ':' !in r by {
        forall k | 0 <= k < |r| ensures r[k] != ':' {
          assert r[k] == line[k];
        }
      }
    }
  }

  // ---------------------------------------------------------------------
  // What is true of every state the loop reaches, and of every record

  /** No stored line is a separator, and the filename is the first label of
      the buffered lines (so it is unset whenever the buffer is empty). */
  ghost predicate Valid(st: State) {
    && (forall j :: 0 <= j < |st.buffer| ==> !IsSeparator(st.buffer[j]))
    && st.currentFile == FirstLabel(st.buffer)
  }

  /** A record as the generator yields it: some lines, a filename, the
      filename picked from those lines by first-filename-wins, and no
      separator among the lines. */
  ghost predicate WellFormed(r: SearchResult) {
    && r.lines != []
    && r.filename != ""
    && r.filename == FirstLabel(r.lines)
    && (forall j :: 0 <= j < |r.lines| ==> !IsSeparator(r.lines[j]))
  }

  /** A stripped line that does not start with `--` cannot start with it. */
  lemma RStripKeepsNonSeparator(line: string)
    requires !IsSeparator(line)
    ensures !IsSeparator(RStrip(line))
  {
    var r := RStrip(line);
    if |r| >= 2 {
      assert r[..2] == line[..2];
    }
  }

  /** One step keeps the state valid, and anything it yields is well formed. */
  lemma StepValid(st: State, line: string)
    requires Valid(st)
    ensures Valid(Step(st, line).next)
    ensures Step(st, line).emitted.Some? ==> WellFormed(Step(st, line).emitted.value)
  {
    if !IsSeparator(line) {
      RStripKeepsNonSeparator(line);
      FirstLabelAppend(st.buffer, RStrip(line));
      LabelSurvivesRStrip(line);
    }
  }

  lemma {:induction false} FeedValid(lines: seq<string>)
    ensures Valid(Feed(lines).state)
    ensures forall k :: 0 <= k < |Feed(lines).results| ==> WellFormed(Feed(lines).results[k])
  {
    if lines != [] {
      var p := Feed(lines[..|lines| - 1]);
      FeedValid(lines[..|lines| - 1]);
      StepValid(p.state, lines[|lines| - 1]);
    }
  }

  /** Every record has non-empty lines and a non-empty filename, that
      filename is the label of the earliest labelled line in the record, and
      no record holds a separator line. */
  lemma AssembledWellFormed(lines: seq<string>)
    ensures forall k :: 0 <= k < |Assembled(lines)| ==> WellFormed(Assembled(lines)[k])
  {
    FeedValid(lines);
  }

  // ---------------------------------------------------------------------
  // Line conservation and order

  /** The stored form of every non-separator line, in input order. */
  function Kept(lines: seq<string>): seq<string> {
    if lines == [] then []
    else
      var last := lines[|lines| - 1];
      Kept(lines[..|lines| - 1]) + (if IsSeparator(last) then [] else [RStrip(last)])
  }

  /** The lines of the records, one record after another. */
  function Concat(rs: seq<SearchResult>): seq<string> {
    if rs == [] then [] else Concat(rs[..|rs| - 1]) + rs[|rs| - 1].lines
  }

  lemma ConcatAppend(rs: seq<SearchResult>, rest: seq<SearchResult>)
    requires |rest| <= 1
    ensures Concat(rs + rest) == Concat(rs) + Concat(rest)
  {
    if rest == [] {
      assert rs + rest == rs;
    } else {
      assert (rs + rest)[..|rs|] == rs;
      assert rest[..0] == [];
    }
  }

  predicate IsPrefix(a: seq<string>, b: seq<string>) {
    |a| <= |b| && b[..|a|] == a
  }

  /** The yielded lines and the buffer together are exactly the kept lines. */
  lemma {:induction false} FeedConserves(lines: seq<string>)
    ensures Concat(Feed(lines).results) + Feed(lines).state.buffer == Kept(lines)
  {
    if lines != [] {
      var init := lines[..|lines| - 1];
      var p := Feed(init);
      var t := Step(p.state, lines[|lines| - 1]);
      FeedConserves(init);
      ConcatAppend(p.results, EmittedSeq(t));
      if t.emitted.Some? {
        assert [t.emitted.value][..0] == [];
      }
    }
  }

  /** Concatenating the records' lines gives the stored input lines in
      order, up to the lines of a trailing block without a filename; all of
      them exactly when the final buffer is empty or has a filename. */
  lemma AssembledConserves(lines: seq<string>)
    ensures IsPrefix(Concat(Assembled(lines)), Kept(lines))
    ensures Concat(Assembled(lines)) == Kept(lines)
        <==> (Feed(lines).state.buffer == [] || Feed(lines).state.currentFile != "")
  {
    var p := Feed(lines);
    FeedConserves(lines);
    FeedValid(lines);
    ConcatAppend(p.results, Flush(p.state));
    if CanFlush(p.state) {
      assert [SearchResult(p.state.currentFile, p.state.buffer)][..0] == [];
    }
  }

  // ---------------------------------------------------------------------
  // How many records

  function Separators(lines: seq<string>): nat {
    if lines == [] then 0
    else Separators(lines[..|lines| - 1]) + (if IsSeparator(lines[|lines| - 1]) then 1 else 0)
  }

  lemma {:induction false} FeedCount(lines: seq<string>)
    ensures |Feed(lines).results| <= Separators(lines)
  {
    if lines != [] {
      FeedCount(lines[..|lines| - 1]);
    }
  }

  /** At most one record per separator, and one more at end of input. */
  lemma AssembledCount(lines: seq<string>)
    ensures |Assembled(lines)| <= Separators(lines) + 1
  {
    FeedCount(lines);
  }

  // ---------------------------------------------------------------------
  // One more line

  /** A content line is stored whole, stripped of trailing whitespace, and
      yields nothing; its label becomes the filename only while none is set,
      so once a block has a filename its later lines keep it. */
  lemma FeedContent(lines: seq<string>, x: string)
    requires !IsSeparator(x)
    ensures var p := Feed(lines);
      Feed(lines + [x])
      == Progress(p.results,
                  State(p.state.buffer + [RStrip(x)],
                        if p.state.currentFile == "" then Label(x) else p.state.currentFile))
  {
    assert (lines + [x])[..|lines|] == lines;
  }

  /** A separator yields a record exactly when it finds both a buffer and a
      filename; the record carries the buffer as it was, and the loop starts
      over with an empty buffer and no filename. Otherwise it changes
      nothing: the buffered lines stay for the next block. */
  lemma FeedSeparator(lines: seq<string>, x: string)
    requires IsSeparator(x)
    ensures var p := Feed(lines);
      CanFlush(p.state) ==>
        Feed(lines + [x])
        == Progress(p.results + [SearchResult(p.state.currentFile, p.state.buffer)], Initial)
    ensures !CanFlush(Feed(lines).state) ==> Feed(lines + [x]) == Feed(lines)
  {
    assert (lines + [x])[..|lines|] == lines;
  }

  /** Unlabelled lines before a separator are not dropped: they stay in the
      buffer, ahead of the next block's lines, and that block takes its
      filename from its own first labelled line. */
  lemma CarryOver(lines: seq<string>, sep: string, x: string)
    requires Feed(lines).state.currentFile == ""
    requires IsSeparator(sep) && !IsSeparator(x)
    ensures Feed(lines + [sep] + [x])
         == Progress(Feed(lines).results,
                     State(Feed(lines).state.buffer + [RStrip(x)], Label(x)))
  {
    FeedSeparator(lines, sep);
    FeedContent(lines + [sep], x);
  }

  // ---------------------------------------------------------------------
  // Blocks joined by separators

  /** A context block as `rg` prints it: some lines, none of them a
      separator, at least one of them labelled with a filename. */
  ghost predicate IsBlock(g: seq<string>) {
    && g != []
    && (forall j :: 0 <= j < |g| ==> !IsSeparator(g[j]))
    && FirstLabel(g) != ""
  }

  /** The blocks `gs[0]`, `seps[0]`, `gs[1]`, ..., `gs[|gs| - 1]`: one
      separator line between each two blocks. */
  function Joined(gs: seq<seq<string>>, seps: seq<string>): seq<string>
    requires |gs| == |seps| + 1
  {
    if |gs| == 1 then gs[0]
    else Joined(gs[..|gs| - 1], seps[..|seps| - 1]) + [seps[|seps| - 1]] + gs[|gs| - 1]
  }

  /** For a run of non-separator lines, `Kept` is the stripped form of each
      line, position by position. */
  lemma {:induction false} KeptRun(g: seq<string>)
    requires forall j :: 0 <= j < |g| ==> !IsSeparator(g[j])
    ensures |Kept(g)| == |g|
    ensures forall j :: 0 <= j < |g| ==> Kept(g)[j] == RStrip(g[j])
  {
    if g != [] {
      KeptRun(g[..|g| - 1]);
    }
  }

  /** The record one block should give: its first label and its lines, each
      stripped. */
  function BlockRecords(gs: seq<seq<string>>): (rs: seq<SearchResult>)
    ensures |rs| == |gs|
    ensures forall i :: 0 <= i < |gs| ==> rs[i] == SearchResult(FirstLabel(gs[i]), Kept(gs[i]))
  {
    if gs == [] then []
    else
      var g := gs[|gs| - 1];
      BlockRecords(gs[..|gs| - 1]) + [SearchResult(FirstLabel(g), Kept(g))]
  }

  lemma AppendLast<T>(a: seq<T>, g: seq<T>)
    requires g != []
    ensures a + g == (a + g[..|g| - 1]) + [g[|g| - 1]]
    ensures g[..|g| - 1] + [g[|g| - 1]] == g
  {
  }

  /** From the initial state, a run of non-separator lines yields nothing,
      fills the buffer with the stripped lines and sets the filename to the
      run's first label. */
  lemma {:induction false} FeedRun(lines: seq<string>, g: seq<string>)
    requires Feed(lines).state == Initial
    requires forall j :: 0 <= j < |g| ==> !IsSeparator(g[j])
    ensures Feed(lines + g) == Progress(Feed(lines).results, State(Kept(g), FirstLabel(g)))
  {
    if g == [] {
      assert lines + g == lines;
    } else {
      var init := g[..|g| - 1];
      var x := g[|g| - 1];
      AppendLast(lines, g);
      FeedRun(lines, init);
      FeedContent(lines + init, x);
      FirstLabelAppend(init, x);
    }
  }

  lemma JoinedLast(lines: seq<string>, gs: seq<seq<string>>, seps: seq<string>)
    requires |gs| == |seps| + 1 && |seps| > 0
    ensures lines + Joined(gs, seps)
         == (lines + Joined(gs[..|gs| - 1], seps[..|seps| - 1]) + [seps[|seps| - 1]]) + gs[|gs| - 1]
  {
    var a := Joined(gs[..|gs| - 1], seps[..|seps| - 1]);
    assert Joined(gs, seps) == a + [seps[|seps| - 1]] + gs[|gs| - 1];
    Associate(lines, a + [seps[|seps| - 1]], gs[|gs| - 1]);
    Associate(lines, a, [seps[|seps| - 1]]);
  }

  lemma Associate<T>(a: seq<T>, b: seq<T>, c: seq<T>)
    ensures a + (b + c) == (a + b) + c
  {
  }

  /** A separator after a block of the buffer yields that block's record,
      and the next run of lines fills the buffer afresh. */
  lemma FlushThenRun(lines: seq<string>, done: seq<SearchResult>, last: seq<string>, s: string, g: seq<string>)
    requires Feed(lines) == Progress(done, State(Kept(last), FirstLabel(last)))
    requires IsBlock(last) && IsSeparator(s)
    requires forall j :: 0 <= j < |g| ==> !IsSeparator(g[j])
    ensures Feed((lines + [s]) + g)
         == Progress(done + [SearchResult(FirstLabel(last), Kept(last))], State(Kept(g), FirstLabel(g)))
  {
    assert Kept(last) != [];
    FeedSeparator(lines, s);
    FeedRun(lines + [s], g);
  }

  /** From the initial state, joined blocks yield one record per block but
      the last, which is still in the buffer when input ends. */
  lemma {:induction false} FeedJoined(lines: seq<string>, gs: seq<seq<string>>, seps: seq<string>)
    requires Feed(lines).state == Initial
    requires |gs| == |seps| + 1
    requires forall i :: 0 <= i < |gs| ==> IsBlock(gs[i])
    requires forall i :: 0 <= i < |seps| ==> IsSeparator(seps[i])
    ensures var g := gs[|gs| - 1];
      Feed(lines + Joined(gs, seps))
      == Progress(Feed(lines).results + BlockRecords(gs[..|gs| - 1]), State(Kept(g), FirstLabel(g)))
  {
    var g := gs[|gs| - 1];
    if |gs| == 1 {
      FeedRun(lines, g);
      assert Joined(gs, seps) == g;
      assert BlockRecords(gs[..0]) == [];
      assert Feed(lines).results + [] == Feed(lines).results;
    } else {
      var front := gs[..|gs| - 1];
      var j := lines + Joined(front, seps[..|seps| - 1]);
      var s := seps[|seps| - 1];
      var last := front[|front| - 1];
      var earlier := BlockRecords(front[..|front| - 1]);
      var rec := SearchResult(FirstLabel(last), Kept(last));
      FeedJoined(lines, front, seps[..|seps| - 1]);
      FlushThenRun(j, Feed(lines).results + earlier, last, s, g);
      JoinedLast(lines, gs, seps);
      assert lines + Joined(gs, seps) == (j + [s]) + g;
      assert BlockRecords(front) == earlier + [rec];
      Associate(Feed(lines).results, earlier, [rec]);
    }
  }

  /** Blocks joined by separator lines give one record per block, in order:
      the block's first label as filename and its lines, each stripped of
      trailing whitespace, as lines. */
  lemma AssembledJoined(gs: seq<seq<string>>, seps: seq<string>)
    requires |gs| == |seps| + 1
    requires forall i :: 0 <= i < |gs| ==> IsBlock(gs[i])
    requires forall i :: 0 <= i < |seps| ==> IsSeparator(seps[i])
    ensures |Assembled(Joined(gs, seps))| == |gs|
    ensures forall i :: 0 <= i < |gs| ==>
      Assembled(Joined(gs, seps))[i] == SearchResult(FirstLabel(gs[i]), Kept(gs[i]))
  {
    var g := gs[|gs| - 1];
    var input := Joined(gs, seps);
    var rec := SearchResult(FirstLabel(g), Kept(g));
    assert Feed([]) == Progress([], Initial);
    FeedJoined([], gs, seps);
    assert [] + input == input;
    var st := State(Kept(g), FirstLabel(g));
    var earlier := BlockRecords(gs[..|gs| - 1]);
    assert [] + earlier == earlier;
    assert Feed(input) == Progress(earlier, st);
    assert Kept(g) != [];
    assert Flush(st) == [rec];
    assert Assembled(input) == earlier + [rec];
    assert BlockRecords(gs) == earlier + [rec];
  }

  // ---------------------------------------------------------------------
  // A worked example

  /** The label of `name + ":" + rest` is `name` when `name` has no colon. */
  lemma LabelOf(v: string, name: string, rest: string)
    requires ':' !in name && v == name + ":" + rest
    ensures Label(v) == name
  {
    assert v[..|name|] == name && v[|name|] == ':';
    SplitOnceHead(v, ':', name);
  }

  /** Stripping a line that ends in one newline after a non-space. */
  lemma RStripNewline(v: string, s: string)
    requires v == s + "\n" && s != [] && !IsSpace(s[|s| - 1])
    ensures RStrip(v) == s
  {
    assert v[..|s|] == s;
  }

  /** A lone labelled line makes one record: the line's label and the line,
      stored whole. */
  lemma OneLine(x: string)
    requires !IsSeparator(x) && Label(x) != ""
    ensures Assembled([x]) == [SearchResult(Label(x), [RStrip(x)])]
  {
    assert Feed([]) == Progress([], Initial);
    FeedContent([], x);
    assert [] + [x] == [x];
    var st := State([RStrip(x)], Label(x));
    assert Feed([x]) == Progress([], st);
    assert Flush(st) == [SearchResult(Label(x), [RStrip(x)])];
  }

  /** The line `a.txt:line1` as `rg` prints it, newline included. */
  lemma MatchLine(v: string)
    requires v == "a.txt:line1\n"
    ensures !IsSeparator(v) && Label(v) == "a.txt" && RStrip(v) == "a.txt:line1"
  {
    assert v[..2] == "a.";
    LabelOf(v, "a.txt", "line1\n");
    RStripNewline(v, "a.txt:line1");
  }

  /** The line `a.txt:line2 test`, newline included. */
  lemma SecondLine(v: string)
    requires v == "a.txt:line2 test\n"
    ensures !IsSeparator(v) && Label(v) == "a.txt" && RStrip(v) == "a.txt:line2 test"
  {
    assert v[..2] == "a.";
    LabelOf(v, "a.txt", "line2 test\n");
    RStripNewline(v, "a.txt:line2 test");
  }

  /** The line `b.txt:line3`, newline included. */
  lemma OtherFileLine(v: string)
    requires v == "b.txt:line3\n"
    ensures !IsSeparator(v) && Label(v) == "b.txt" && RStrip(v) == "b.txt:line3"
  {
    assert v[..2] == "b.";
    LabelOf(v, "b.txt", "line3\n");
    RStripNewline(v, "b.txt:line3");
  }

  /** That line is stored whole, `a.txt:` prefix included, and names the
      file of its record. */
  lemma OneMatch(v: string)
    requires v == "a.txt:line1\n"
    ensures Assembled([v]) == [SearchResult("a.txt", ["a.txt:line1"])]
  {
    MatchLine(v);
    OneLine(v);
  }

  /** The separator line `--` as `rg` prints it. */
  lemma SeparatorLine(v: string)
    requires v == "--\n"
    ensures IsSeparator(v)
  {
    assert v[..2] == "--";
  }

  lemma PairBlock(l1: string, l2: string)
    requires !IsSeparator(l1) && !IsSeparator(l2) && Label(l1) != ""
    ensures IsBlock([l1, l2])
    ensures Kept([l1, l2]) == [RStrip(l1), RStrip(l2)] && FirstLabel([l1, l2]) == Label(l1)
  {
    KeptRun([l1, l2]);
  }

  lemma SingleBlock(l: string)
    requires !IsSeparator(l) && Label(l) != ""
    ensures IsBlock([l])
    ensures Kept([l]) == [RStrip(l)] && FirstLabel([l]) == Label(l)
  {
    KeptRun([l]);
  }

  /** A separator at the start of input changes nothing. */
  lemma LeadingSeparator(s: string)
    requires IsSeparator(s)
    ensures Feed([s]) == Progress([], Initial)
  {
    assert Feed([]) == Progress([], Initial);
    FeedSeparator([], s);
    assert [] + [s] == [s];
  }

  lemma FiveLines<T>(a: T, b: T, c: T, d: T, e: T)
    ensures [a] + [b, c] + [d] + [e] == [a, b, c, d, e]
  {
  }

  /** A separator, a block, a separator and a block: the first block's
      record, and the second block still in the buffer. */
  lemma SeparatedPair(s0: string, g1: seq<string>, s3: string, g2: seq<string>)
    requires IsSeparator(s0) && IsSeparator(s3) && IsBlock(g1) && IsBlock(g2)
    ensures Feed([s0] + g1 + [s3] + g2)
         == Progress([SearchResult(FirstLabel(g1), Kept(g1))], State(Kept(g2), FirstLabel(g2)))
  {
    LeadingSeparator(s0);
    FeedRun([s0], g1);
    FlushThenRun([s0] + g1, [], g1, s3, g2);
    assert [] + [SearchResult(FirstLabel(g1), Kept(g1))] == [SearchResult(FirstLabel(g1), Kept(g1))];
  }

  /** The loop over the five lines yields the first block's record at the
      second separator and ends holding the second block. */
  lemma FeedTwoBlocks(s0: string, l1: string, l2: string, s3: string, l4: string)
    requires IsSeparator(s0) && IsSeparator(s3)
    requires !IsSeparator(l1) && !IsSeparator(l2) && !IsSeparator(l4)
    requires Label(l1) != "" && Label(l4) != ""
    ensures Feed([s0, l1, l2, s3, l4])
         == Progress([SearchResult(Label(l1), [RStrip(l1), RStrip(l2)])],
                     State([RStrip(l4)], Label(l4)))
  {
    PairBlock(l1, l2);
    SingleBlock(l4);
    SeparatedPair(s0, [l1, l2], s3, [l4]);
    FiveLines(s0, l1, l2, s3, l4);
  }

  /** Two blocks after a leading separator, the first of two content
      lines: one record per block, each named by the label of its first
      line and holding its lines stripped. */
  lemma TwoBlocksOf(s0: string, l1: string, l2: string, s3: string, l4: string)
    requires IsSeparator(s0) && IsSeparator(s3)
    requires !IsSeparator(l1) && !IsSeparator(l2) && !IsSeparator(l4)
    requires Label(l1) != "" && Label(l4) != ""
    ensures Assembled([s0, l1, l2, s3, l4])
         == [SearchResult(Label(l1), [RStrip(l1), RStrip(l2)]),
             SearchResult(Label(l4), [RStrip(l4)])]
  {
    FeedTwoBlocks(s0, l1, l2, s3, l4);
    var st := State([RStrip(l4)], Label(l4));
    assert Flush(st) == [SearchResult(Label(l4), [RStrip(l4)])];
  }

  /** The output of `rg` for two matches in two files: the first file's
      block of two lines and the second file's block of one, each stored
      whole with its `name:` prefix. */
  lemma TwoBlocks(s0: string, l1: string, l2: string, s3: string, l4: string)
    requires s0 == "--\n" && s3 == "--\n"
    requires l1 == "a.txt:line1\n" && l2 == "a.txt:line2 test\n" && l4 == "b.txt:line3\n"
    ensures Assembled([s0, l1, l2, s3, l4])
         == [SearchResult("a.txt", ["a.txt:line1", "a.txt:line2 test"]),
             SearchResult("b.txt", ["b.txt:line3"])]
  {
    SeparatorLine(s0);
    SeparatorLine(s3);
    MatchLine(l1);
    SecondLine(l2);
    OtherFileLine(l4);
    TwoBlocksOf(s0, l1, l2, s3, l4);
  }
}
