# haystack: the context-block assembler, in Dafny

haystack runs `rg -C N term` and turns the tool's output into
`SearchResult` records: a filename and the lines of one context block. This
project models the two pieces of that program that carry logic:

- the loop in `find_plus_context` that reads the output line by line, keeps a
  buffer of lines and the block's filename, and yields a record at each
  `--` separator and at end of input (module `FindPlusContext`,
  `find_plus_context.dfy`);
- `SearchResult` and its `__str__` text form (module `Types`, `types.dfy`).

The Python string built-ins the loop and the renderer use are in module
`Strings` (`strings.dfy`): `str.isspace`, `rstrip()`, `startswith`,
`split(sep, 1)` and `sep.join`. The module also defines `split(sep)`, which
neither the loop nor the renderer calls: it is there only to state that the
text form of a record splits back into its lines (`Types.RenderRoundTrip`).

How the model is built:

- `FindPlusContext.Step` is one pass of the loop body on one line.
- `Feed` folds `Step` over a prefix of the input.
- `Assembled` adds the yield after the loop.
- `AssembleBlocks` is the loop itself, a `while` loop over a `seq<string>`.
  It keeps the code's two variables, `buffer` and `currentFile`, and appends
  each record to its output sequence. Its loop invariant ties those variables
  to `Feed` of the lines read so far.
- The properties are proved about `Feed` and `Assembled`: the invariant
  `Valid` of every reached state, line conservation, and the record count.

Behaviour the model keeps exactly as the code has it:

- **Unset filename.** It is the empty string. The code tests
  `current_file` for truthiness, so a line such as `:abc` sets it to `""`
  and it stays unset.
- **Stored lines.** Each is the whole input line after `rstrip()`, `name:`
  prefix included. The comment above the split
  (src/haystack/find_plus_context.py:42) speaks of parsing the filename and
  the content, but line 47 appends `line.rstrip()` of the whole line, and
  the content after the colon is never kept apart. So for the output lines
  `a.txt:line1` and `a.txt:line2 test` the record holds
  `["a.txt:line1", "a.txt:line2 test"]` (`OneMatch`, `TwoBlocks`).
- **When the buffer is cleared.** Only when a record is yielded. A separator
  seen while no filename is set leaves the buffered lines where they are,
  so they become the first lines of the next block, whose filename then
  comes from its own first labelled line (`FeedSeparator`, `CarryOver`).
  Such lines are lost only if input ends before any filename appears. A
  `--`-delimited group without a filename therefore gives no record of its
  own; when every group has one, each gives exactly one record
  (`AssembledJoined`).
- **The filename.** It is the label of the earliest line, since the last
  record, whose text before the first colon is non-empty. The model proves
  it equals `FirstLabel` of the record's own lines.
- **Input lines.** They are the strings that text-mode iteration over the
  process output yields, trailing `"\n"` included.

`SearchResult` is an immutable datatype value here. So `__str__` cannot
change `filename` or `lines`, and the `buffer.copy()` handed to each record
cannot be affected by later appends.

## Model

| member | source | states |
|---|---|---|
| `Strings.RStrip` | src/haystack/find_plus_context.py:47 | `line.rstrip()` is a prefix of the line; every removed character is Python whitespace; the result does not end in whitespace |
| `Strings.SplitOnce` | src/haystack/find_plus_context.py:43-44 | `split(":", 1)` has two parts exactly when the line holds a colon; the first part is colon-free; the line is the first part, a colon and the second part |
| `Strings.SplitOnceHead` | src/haystack/find_plus_context.py:43 | `parts[0]` is the text before the first colon: any colon-free prefix followed by a colon equals it |
| `FindPlusContext.AssembleBlocks` | src/haystack/find_plus_context.py:28-53 | the loop, with its two variables, yields exactly `Assembled(lines)`, the fold of one-line steps plus the end-of-input yield, so every lemma below about `Assembled` holds of its output |
| `FindPlusContext.StepValid` | src/haystack/find_plus_context.py:34-47 | one loop pass keeps the state invariant: no stored line is a separator, and the filename is the first label of the buffer. Anything it yields is well formed |
| `FindPlusContext.FeedValid` | src/haystack/find_plus_context.py:32-47 | every state the loop reaches satisfies the invariant, and every record yielded inside the loop is well formed |
| `FindPlusContext.AssembledWellFormed` | src/haystack/find_plus_context.py:34-53 | every record has non-empty lines and a non-empty filename; the filename is the label of its earliest labelled line; no record holds a line starting with `--` |
| `FindPlusContext.FirstLabelAppend` | src/haystack/find_plus_context.py:44-46 | appending a line changes the block's first label only while it has none (first filename wins) |
| `FindPlusContext.LabelSurvivesRStrip` | src/haystack/find_plus_context.py:43-47 | the text before the first colon is the same in the raw line and in the stored `rstrip()` line |
| `FindPlusContext.RStripKeepsNonSeparator` | src/haystack/find_plus_context.py:34-47 | a stored line never starts with `--`, because only non-separator lines are stored |
| `FindPlusContext.FeedConserves` | src/haystack/find_plus_context.py:32-47 | the lines of the records yielded so far, followed by the buffer, are exactly the stripped non-separator lines read so far, in order |
| `FindPlusContext.AssembledConserves` | src/haystack/find_plus_context.py:32-53 | the records' lines in emission order are a prefix of the stripped non-separator input lines; they are all of them exactly when the final buffer is empty or has a filename |
| `FindPlusContext.FeedCount` | src/haystack/find_plus_context.py:34-40 | the loop yields at most one record per separator line |
| `FindPlusContext.AssembledCount` | src/haystack/find_plus_context.py:34-53 | at most separators + 1 records in all |
| `FindPlusContext.FeedContent` | src/haystack/find_plus_context.py:41-47 | a content line yields nothing and is appended to the buffer whole and stripped; its label becomes the filename only if none is set |
| `FindPlusContext.FeedSeparator` | src/haystack/find_plus_context.py:34-40 | a separator yields a record exactly when the buffer is non-empty and the filename set; the record holds the buffer as it was, and buffer and filename are reset. Otherwise nothing changes |
| `FindPlusContext.CarryOver` | src/haystack/find_plus_context.py:34-47 | after a separator seen with no filename set, the buffered lines stay ahead of the next line, which then names the block |
| `FindPlusContext.OneLine` | src/haystack/find_plus_context.py:41-53 | a lone labelled line gives one record: its label and the stored line |
| `FindPlusContext.LabelOf` | src/haystack/find_plus_context.py:43-45 | a line `name:rest` with a colon-free `name` has label `name` |
| `FindPlusContext.RStripNewline` | src/haystack/find_plus_context.py:47 | a line ending in one newline after a non-space is stored without that newline |
| `FindPlusContext.MatchLine` | src/haystack/find_plus_context.py:43-47 | the line `a.txt:line1\n` is not a separator, has label `a.txt` and is stored as `a.txt:line1` |
| `FindPlusContext.OneMatch` | src/haystack/find_plus_context.py:43-53 | the input `a.txt:line1\n` gives the record `("a.txt", ["a.txt:line1"])`, with the `name:` prefix kept |
| `FindPlusContext.KeptRun` | src/haystack/find_plus_context.py:47 | for lines none of which is a separator, the stored lines are the input lines stripped, one for one, in order |
| `FindPlusContext.FeedRun` | src/haystack/find_plus_context.py:41-47 | from the reset state, a run of content lines yields nothing, leaves exactly those lines, stripped, in the buffer, and sets the filename to the run's first label |
| `FindPlusContext.FlushThenRun` | src/haystack/find_plus_context.py:34-47 | a separator after a buffered block with a filename yields that block's record, and the following run of content lines starts a fresh buffer |
| `FindPlusContext.FeedJoined` | src/haystack/find_plus_context.py:32-47 | from the reset state, blocks joined by separator lines yield one record per block but the last, in order, and the last block is left in the buffer with its own first label |
| `FindPlusContext.AssembledJoined` | src/haystack/find_plus_context.py:28-53 | for blocks joined by separator lines, each block a non-empty run of non-separator lines with a labelled line, there is exactly one record per block, in order: record i has block i's first label as filename and block i's lines, stripped, as lines |
| `FindPlusContext.LeadingSeparator` | src/haystack/find_plus_context.py:34-35 | a separator as the first line yields nothing and leaves the state as it was |
| `FindPlusContext.SeparatedPair` | src/haystack/find_plus_context.py:34-47 | separator, block, separator, block: exactly the first block's record is yielded inside the loop, and the second block is in the buffer with its first label |
| `FindPlusContext.FeedTwoBlocks` | src/haystack/find_plus_context.py:32-47 | the loop over separator, two content lines, separator, content line yields one record (the first line's label and the two stripped lines) and ends holding the last line |
| `FindPlusContext.TwoBlocksOf` | src/haystack/find_plus_context.py:32-53 | the same five lines give exactly two records: the first named by the first content line's label, whatever the second line's label, the second named by the last line's label |
| `FindPlusContext.SeparatorLine` | src/haystack/find_plus_context.py:34 | the line `--\n` is a separator |
| `FindPlusContext.SecondLine` | src/haystack/find_plus_context.py:43-47 | the line `a.txt:line2 test\n` is not a separator, has label `a.txt` and is stored as `a.txt:line2 test` |
| `FindPlusContext.OtherFileLine` | src/haystack/find_plus_context.py:43-47 | the line `b.txt:line3\n` is not a separator, has label `b.txt` and is stored as `b.txt:line3` |
| `FindPlusContext.TwoBlocks` | src/haystack/find_plus_context.py:32-53 | the output `--`, `a.txt:line1`, `a.txt:line2 test`, `--`, `b.txt:line3` gives exactly `("a.txt", ["a.txt:line1", "a.txt:line2 test"])` and `("b.txt", ["b.txt:line3"])` |
| `FindPlusContext.IsSeparator` | src/haystack/find_plus_context.py:34 | definition of the `line.startswith("--")` test; its properties are `RStripKeepsNonSeparator` and `FeedSeparator` |
| `FindPlusContext.Label` | src/haystack/find_plus_context.py:43-46 | definition of the candidate filename, the text before the first colon or unset; its properties are `LabelSurvivesRStrip`, `LabelOf` and `FirstLabelAppend` |
| `FindPlusContext.CanFlush` | src/haystack/find_plus_context.py:35 | definition of the test `buffer and current_file`, made again at line 52 before the last yield; its properties are `FeedSeparator` and `AssembledConserves` |
| `FindPlusContext.Step` | src/haystack/find_plus_context.py:34-47 | definition of one loop pass; its properties are `StepValid`, `FeedContent` and `FeedSeparator` |
| `FindPlusContext.Feed` | src/haystack/find_plus_context.py:32-47 | definition of the loop over the lines read so far; its properties are `FeedValid`, `FeedConserves`, `FeedCount`, `FeedRun` and `FeedJoined` |
| `FindPlusContext.Flush` | src/haystack/find_plus_context.py:52-53 | definition of the yield after the loop; its properties are `AssembledWellFormed` and `AssembledConserves` |
| `FindPlusContext.Assembled` | src/haystack/find_plus_context.py:32-53 | definition of every record the generator yields; its properties are `AssembledWellFormed`, `AssembledConserves`, `AssembledCount` and `AssembledJoined`, and `AssembleBlocks` computes it |
| `Types.SearchResult` | src/haystack/types.py:4-7 | definition of the record, a filename and a list of lines; its properties are `Render`, `RenderLength` and `RenderRoundTrip` |
| `Strings.Join` | src/haystack/types.py:10 | definition of `sep.join(parts)`; its properties are `JoinEndsWithLast`, `JoinLength`, `SplitJoin` and `JoinSplit` |
| `Types.Render` | src/haystack/types.py:9-10 | the text form begins with the filename and `":\n"`; with no lines it is exactly that; otherwise it ends with the last line (no trailing newline) |
| `Types.JoinEndsWithLast` | src/haystack/types.py:10 | `"\n".join(lines)` ends with the last line |
| `Types.RenderLength` | src/haystack/types.py:10 | length is \|filename\| + 2 + the sum of line lengths + (number of lines - 1) |
| `Types.RenderRoundTrip` | src/haystack/types.py:10 | with non-empty lines and no newline in the filename or any line, splitting the text form on `"\n"` gives `[filename + ":"] + lines` |
| `Strings.JoinLength` | src/haystack/types.py:10 | `sep.join` inserts exactly one separator between each two parts |
| `Strings.SplitJoin` | src/haystack/types.py:10 | splitting on a character undoes joining with it, when no part contains it |
| `Strings.JoinSplit` | src/haystack/types.py:10 | joining with a character undoes splitting on it, for every string |

## Left out

- Building and launching the `rg` command, and the `process.stdout is None` early return (src/haystack/find_plus_context.py:12-26): process I/O with a foreign tool. The model starts from the lines the process printed.
- The diagnostic `print` calls (src/haystack/find_plus_context.py:14, 49, 55, 70): output only.
- The `UnicodeDecodeError` handler (src/haystack/find_plus_context.py:48-50): the model receives already-decoded strings.
- The `except Exception` branch that kills the process (src/haystack/find_plus_context.py:54-57), and the exit-code check with its `CalledProcessError`, which the enclosing handler only prints (src/haystack/find_plus_context.py:59-71): process plumbing.
- Text-mode newline translation (`\r\n` to `\n`): this happens in the I/O layer before the loop sees a line.
- Laziness of the generator: the model computes the whole list of records. The order and content of the records are the same as the generator's yields.
- src/haystack/run.py (argument parsing, the `which("rg")` assertion, a printing driver): command-line plumbing with no logic.
- The correlation filter and the two-pass search (`double_search`): the test file imports it from `haystack.run`, but no definition of it is part of this model, so its behaviour is not modelled.
- tests/test_api.py and tests/test_cli.py: they need the `rg` binary and data on disk, and they assert nothing about the parser.
