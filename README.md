# Line utilities: counting, numbering and run-length collapsing

This project models the cores of three small command-line utilities written in
Rust, and proves properties of the models in Dafny.

- `wcr` counts the lines, words, bytes and characters of each input. It prints
  one row of right-justified fields per input, and a `total` row when more than
  one input was named.
- `catr` copies each input to standard output, line by line. With `-n` it
  numbers every line; with `-b` it numbers only the lines that are not empty.
  The counter restarts at 1 for every input.
- `uniqr` collapses runs of consecutive records that are equal once trailing
  whitespace is removed. It writes the first record of each run, and with `-c`
  the length of the run in front of it. The exception is a run of records at
  the very start that are blank after `trim_end`: the code writes that run
  with empty text (see "## Findings").

The modules:

- `Text` holds the standard-library routines the utilities call:
  `char::is_whitespace`, `split_whitespace`, `trim_end`, the UTF-8 width of a
  character, decimal formatting and right-justification.
- `Reading` holds the two ways of cutting text into records. `read_line` keeps
  the terminator; `lines()` strips `"\n"` or `"\r\n"`.
- `Streams` holds the outcome of opening an input and the writes to standard
  output and standard error.
- `Sequences` holds small facts about sequences that the proofs use.
- `Wc`, `Cat` and `Uniq` hold the three utilities.

An input is the whole decoded text that reading it would deliver. Opening an
input either gives that text (`Opened`) or fails with the error's message
(`OpenFailed`). Output is the ordered sequence of writes, each with exactly the
characters written. A `println!` write includes its line feed.

The loops of the source stay loops:

- `Wc.Count` is the `count` loop, and `Wc.Run` is the loop over the inputs.
- `Cat.NumberFile` is the inner loop over lines, and `Cat.Run` is the loop over
  the inputs.
- `Uniq.Collapsed` is the `read_line` loop of `run` with its final flush.

Each loop method is proved against a specification function. The properties the
source promises are proved as lemmas about those functions.

## Model

| member | source | states |
|---|---|---|
| Text.IsWhitespace | wcr/src/lib.rs:156 | no contract: the Unicode White_Space characters that `char::is_whitespace` accepts, written out |
| Text.TrimEnd | uniqr/src/lib.rs:81 | `trim_end` never lengthens its argument; `Text.TrimEndShape` states the rest |
| Text.Utf8Width | wcr/src/lib.rs:150-154 | a character takes 1 to 4 bytes in UTF-8, and takes 1 exactly when it is below U+0080 |
| Text.Words | wcr/src/lib.rs:156 | no contract: `split_whitespace`; `Text.WordsAreWords` and `Text.WordsAppend` state its behaviour |
| Text.Decimal | wcr/src/lib.rs:171 | the decimal form is never empty; `Text.DecimalShape` and `Text.DecimalOfValue` state the rest |
| Text.PadLeft | wcr/src/lib.rs:171 | the result is the text's length or `width`, whichever is larger; `Text.PadLeftIsFill` and `Text.PadLeftShape` state the rest |
| Text.Justify | wcr/src/lib.rs:171 | no contract: `{:>w}` of a number; `Text.JustifyShape` states its behaviour |
| Text.TrimEndShape | uniqr/src/lib.rs:81 | `trim_end` keeps a prefix of its argument that does not end in whitespace, and everything it drops is whitespace |
| Text.Utf8Len | wcr/src/lib.rs:150-154 | a text of `n` characters takes between `n` and `4n` bytes in UTF-8 |
| Text.Utf8LenAppend | wcr/src/lib.rs:154 | the byte length of two texts put together is the sum of their byte lengths |
| Text.Utf8LenAscii | wcr/src/lib.rs:154 | for ASCII text the bytes equal the characters |
| Text.WordsAreWords | wcr/src/lib.rs:156 | every piece `split_whitespace` yields is non-empty and holds no whitespace |
| Text.WordsAppend | wcr/src/lib.rs:156 | when the first part ends in whitespace, the words of two texts put together are the words of the first followed by the words of the second |
| Text.TokenLenAppend | wcr/src/lib.rs:156 | a word never runs past whitespace at the end of the first part |
| Text.WordsOfWordAndBlank | wcr/src/lib.rs:156 | a word followed by whitespace splits into exactly that word |
| Text.DecimalShape | wcr/src/lib.rs:171 | the decimal form of `n` is a string of digits, has no leading zero, and reads back as `n` |
| Text.DecimalOfValue | wcr/src/lib.rs:171 | on digit strings with no leading zero, decimal formatting inverts reading the value |
| Text.PadLeftIsFill | wcr/src/lib.rs:171 | right-justifying a text is a run of spaces followed by the whole text |
| Text.PadLeftShape | wcr/src/lib.rs:171 | right-justification never truncates: the text sits whole at the end, with only spaces in front |
| Text.JustifyShape | wcr/src/lib.rs:171 | `{:>w}` of `n` is at least `w` characters long, is spaces and then the digits of `n`, and those digits read back as `n` |
| Reading.Records | wcr/src/lib.rs:149-159 | the records of a text are empty exactly when the text is; `Reading.RecordsPartition`, `Reading.RecordsCount` and `Reading.RecordsOfConcat` state the rest |
| Reading.ReadLine | wcr/src/lib.rs:150 | `read_line` returns a prefix of what is left, and returns nothing exactly at the end of input |
| Reading.ReadLineShape | wcr/src/lib.rs:150 | `read_line` stops at the first line feed: it has no line feed before its end, and it ends with one unless it took all the rest |
| Reading.RecordsPartition | wcr/src/lib.rs:149-159 | the records put together give the text back; each is a record; all but the last end with a line feed |
| Reading.RecordsCount | wcr/src/lib.rs:150-155 | the number of records is the number of line feeds, plus one for a final record that has none |
| Reading.RecordsOfConcat | wcr/src/lib.rs:149-159 | splitting inverts putting together, for any records of which all but the last end with a line feed |
| Reading.RecordsAppend | uniqr/src/lib.rs:75-89 | text cut right after a line feed splits into the records of its two parts |
| Reading.NextRecord | uniqr/src/lib.rs:76 | in a `read_line` loop the next call returns the next record, and what has been read still ends with a line feed unless the input is used up |
| Reading.StripTerminator | catr/src/lib.rs:42 | no contract: what `lines()` keeps of one record; `Reading.StripRecord` and `Reading.LinesOfRecords` state its behaviour |
| Reading.StripRecord | catr/src/lib.rs:42 | what `lines()` keeps of a record is a prefix with no line feed, and what it drops is exactly the record's terminator |
| Reading.Lines | catr/src/lib.rs:42 | `lines()` yields as many lines as `read_line` yields records |
| Reading.LinesOfRecords | catr/src/lib.rs:42 | no line that `lines()` yields holds a line feed, and each is its record with exactly its terminator cut off: `"\r\n"`, `"\n"`, or nothing for a final record without a line feed |
| Reading.PlainRoundTrip | catr/src/lib.rs:55 | printing every line with a line feed gives the text back when it ends with a line feed and holds no `"\r\n"` |
| Wc.Configure | wcr/src/lib.rs:69-86 | with none of the four flags, lines, words and bytes are shown and characters are not; otherwise the flags pass through unchanged; at least one field is always shown |
| Wc.Measure | wcr/src/lib.rs:149-166 | empty input counts all four fields as 0; lines are 0 only for empty input; characters never exceed bytes, and bytes never exceed four times the characters |
| Wc.Count | wcr/src/lib.rs:142-167 | the loop's counters are the number of records, the number of words, the UTF-8 length and the character length of the whole input |
| Wc.CountStep | wcr/src/lib.rs:150-157 | one more record adds one line, that record's words, bytes and characters |
| Wc.FormatFieldShape | wcr/src/lib.rs:169-175 | a hidden field is empty; a shown field is at least eight characters, spaces and then digits that read back as the value |
| Wc.FormatFieldExamples | wcr/src/lib.rs:196-201 | the unit test: `""`, `"       3"` and `"      10"` |
| Wc.CountExample | wcr/src/lib.rs:182-194 | the unit test: the sample sentence gives 1 line, 10 words, 48 bytes and 48 characters |
| Wc.CountSampleRecords | wcr/src/lib.rs:184 | the sample sentence is one record |
| Wc.CountSampleWords | wcr/src/lib.rs:184 | the sample sentence has ten words |
| Wc.CountSampleBytes | wcr/src/lib.rs:184 | the sample sentence has 48 characters and 48 bytes |
| Wc.FormatField | wcr/src/lib.rs:169-175 | no contract: `format_field`; `Wc.FormatFieldShape` and `Wc.FormatFieldExamples` state its behaviour |
| Wc.Row | wcr/src/lib.rs:100-111 | no contract: one `println!` row, the four fields and then a suffix; `Wc.FileRowsAt` states what each input writes |
| Wc.NameSuffix | wcr/src/lib.rs:106-110 | no contract: `""` for `-` and `" name"` otherwise; `Wc.FileRowsAt` states it |
| Wc.FileRows | wcr/src/lib.rs:95-120 | no contract: the writes of the first `n` inputs; `Wc.FileRowsAt` and `Wc.Run` state its behaviour |
| Wc.Total | wcr/src/lib.rs:113-116 | no contract: the `total_*` sums over the inputs that open; `Wc.TotalOfOpenedText` and `Wc.Run` state its behaviour |
| Wc.Run | wcr/src/lib.rs:89-133 | one write per input in argument order, then a `total` row exactly when more than one input was named, holding the field-by-field sums |
| Wc.FileRowsAt | wcr/src/lib.rs:95-111 | input `i` writes exactly one line: its row, with the fields and then `" name"` (nothing for `-`), when it opens; `"name: error"` on standard error when it does not |
| Wc.TotalOfOpenedText | wcr/src/lib.rs:113-116 | the total bytes and characters are those of the texts of the inputs that open, put together; inputs that fail add nothing |
| Cat.ModeOf | catr/src/lib.rs:43-46 | `-n` wins when both flags are set, because it is tested first |
| Cat.NumberedLine | catr/src/lib.rs:44 | no contract: `{:6}` of the number, a tab, the line and a line feed; `Cat.NumberAllLines` and `Cat.NonBlankLines` state it |
| Cat.GetsNumber | catr/src/lib.rs:43-53 | no contract: with `-n` every line takes a number, with `-b` every line that is not empty, otherwise none; `Cat.NonBlankLines` states it |
| Cat.NumberedCount | catr/src/lib.rs:41-53 | no contract: how many of the first `n` lines took a number; `Cat.NumberedCountMonotone` and `Cat.NumberAllCount` state its behaviour |
| Cat.Render | catr/src/lib.rs:43-56 | no contract: the three `println!` branches; `Cat.FileOutputAt`, `Cat.NumberAllLines`, `Cat.NonBlankLines` and `Cat.PlainOutput` state them |
| Cat.FileOutput | catr/src/lib.rs:42-57 | one write per line |
| Cat.NumberFile | catr/src/lib.rs:41-57 | the inner loop writes what `FileOutput` specifies, with the counter starting at 1 |
| Cat.InputOutput | catr/src/lib.rs:38-57 | no contract: the lines of an input that opens, or the `"Failed to open"` line on standard error; `Cat.OutputSnoc` and `Cat.NumberingRestartsPerInput` state its behaviour |
| Cat.Output | catr/src/lib.rs:37-59 | no contract: the outputs of the first `n` inputs one after another; `Cat.OutputSnoc` and `Cat.InputSegment` state its behaviour |
| Cat.Run | catr/src/lib.rs:36-62 | the writes of the inputs one after another, in argument order: the lines of an input that opens, or one line `"Failed to open name: error"` on standard error |
| Cat.OutputSnoc | catr/src/lib.rs:37-39 | each input adds its own output after that of the inputs before it |
| Cat.FileOutputAt | catr/src/lib.rs:42-57 | line `i` writes one chunk, rendered with the number after those of the numbered lines before it |
| Cat.NumberedCountMonotone | catr/src/lib.rs:45 | numbers go up by one for each numbered line: a later line never gets a smaller number, and none is skipped |
| Cat.NumberAllCount | catr/src/lib.rs:43-45 | with `-n` every line is counted |
| Cat.NumberAllLines | catr/src/lib.rs:43-45 | with `-n` line `i` is written as `i + 1` right-aligned in six columns, a tab, the line and a line feed |
| Cat.NonBlankLines | catr/src/lib.rs:46-53 | with `-b` an empty line is a bare line feed and takes no number; any other line, whitespace-only ones included, gets the next number |
| Cat.PlainOutput | catr/src/lib.rs:55 | without flags, standard output is every line followed by a line feed, in order |
| Cat.PlainEchoesText | catr/src/lib.rs:42-55 | without flags, an input that ends with a line feed and holds no `"\r\n"` is copied unchanged |
| Cat.FirstNumberIsOne | catr/src/lib.rs:41 | the first numbered line of an input is numbered 1 |
| Cat.InputSegment | catr/src/lib.rs:37-59 | the output of input `k` sits in the whole output right after that of the inputs before it, whatever those were |
| Cat.NumberingRestartsPerInput | catr/src/lib.rs:41 | an input whose first line is numbered starts again at 1, not where the previous input stopped |
| Uniq.Print | uniqr/src/lib.rs:60-69 | no contract: the `print` closure; `Uniq.PrintShape` states its behaviour |
| Uniq.Joins | uniqr/src/lib.rs:81 | no contract: a record joins the pending group when the two agree after `trim_end`; `Uniq.StepJoins` and `Uniq.StepStarts` state it |
| Uniq.Emitted | uniqr/src/lib.rs:81-90 | no contract: what printing the groups in order writes; `Uniq.EmittedCons`, `Uniq.EmittedPlain` and `Uniq.Collapsed` state its behaviour |
| Uniq.Runs | uniqr/src/lib.rs:81-87 | no contract: the maximal runs, the reference for the loop; `Uniq.RunsDescribe`, `Uniq.RunsExpand` and `Uniq.WrittenNeighboursDiffer` pin it down |
| Uniq.Step | uniqr/src/lib.rs:81-87 | one record adds at most one group and never removes one |
| Uniq.Collapse | uniqr/src/lib.rs:75-89 | reading records never removes a group, and reading any record leaves a group |
| Uniq.Collapsed | uniqr/src/lib.rs:71-90 | the loop and its final flush write the groups that `Collapse` builds from the sentinel `("", 0)`, in order |
| Uniq.CollapsedIntended | uniqr/src/lib.rs:71-90 | the same loop with no pending group before the first record writes the maximal runs `Runs` |
| Uniq.Run | uniqr/src/lib.rs:53-92 | an input that fails to open gives `"name: error"`; an output file that cannot be created gives its error; otherwise the runs of the records, as the corrected loop writes them, go to the output file when one is named, and to standard output when not |
| Uniq.StepStarts | uniqr/src/lib.rs:81-85 | a record that differs after `trim_end` starts a group of one and flushes the pending group |
| Uniq.StepJoins | uniqr/src/lib.rs:81-87 | a record that agrees after `trim_end` adds one to the pending group and flushes nothing |
| Uniq.CollapseCount | uniqr/src/lib.rs:75-90 | every record read is counted in exactly one group |
| Uniq.CountsAddUp | uniqr/src/lib.rs:75-90 | the counts written add up to the number of records read, for the code and for the runs |
| Uniq.CollapseNeighboursDiffer | uniqr/src/lib.rs:81 | reading records keeps neighbouring groups different under `trim_end` |
| Uniq.WrittenNeighboursDiffer | uniqr/src/lib.rs:81 | no two neighbouring groups written are equal after `trim_end` |
| Uniq.RunsDescribe | uniqr/src/lib.rs:81-84 | each run starts at a record and has that record, as read, as its text; each count is at least 1; the counts add up to the records read |
| Uniq.RunsExpand | uniqr/src/lib.rs:81-87 | repeating each group's key as often as its count gives back the key of every record read, in order |
| Uniq.KeysAt | uniqr/src/lib.rs:81 | the key of record `i` is that record after `trim_end` |
| Uniq.CollapseAppend | uniqr/src/lib.rs:75-89 | reading `a` and then `b` is reading `a + b` |
| Uniq.CollapsePrefix | uniqr/src/lib.rs:81-85 | groups before the pending one are never touched again |
| Uniq.LeadingBlankShape | uniqr/src/lib.rs:72-81 | the leading blank records are exactly those that are empty after `trim_end` |
| Uniq.BlankPrefix | uniqr/src/lib.rs:72-81 | leading records that are empty after `trim_end` join the sentinel group, whose text stays `""` |
| Uniq.SentinelCollapse | uniqr/src/lib.rs:72-73 | the code builds one group `("", k)` for the `k` leading blank records, followed by the runs of the rest |
| Uniq.WrittenVersusRuns | uniqr/src/lib.rs:72-90 | the code writes the leading blank group (nothing without `-c`) and then the runs of the other records, which is exactly the runs when there is no leading blank record |
| Uniq.RunsIdempotent | uniqr/src/lib.rs:75-90 | collapsing is idempotent without `-c`: collapsing again what the corrected loop writes gives the same text |
| Uniq.CollapsedIdempotent | uniqr/src/lib.rs:71-90 | the loop as written is idempotent without `-c` too: its output has no leading blank record, so collapsing it again gives the same text |
| Uniq.RunsOutputRecords | uniqr/src/lib.rs:60-69 | without `-c`, what the runs write reads back as the first record of each run |
| Uniq.RunsOfDistinct | uniqr/src/lib.rs:81-85 | records that each differ from the next after `trim_end` are runs of one each |
| Uniq.EmittedPlain | uniqr/src/lib.rs:60-69 | without `-c`, groups of at least one record write their texts one after another |
| Uniq.EmittedCons | uniqr/src/lib.rs:60-69 | writing a group and then more groups is the group's text and then theirs |
| Uniq.EmptyInputWritesNothing | uniqr/src/lib.rs:90 | an empty input writes nothing, because the final flush has a count of 0 |
| Uniq.SingleRecord | uniqr/src/lib.rs:90 | a single record that is not blank is written once, by the final flush, whether or not it ends with a line feed |
| Uniq.PrintShape | uniqr/src/lib.rs:60-69 | a count of 0 writes nothing; with `-c` a group is its count right-justified in four columns, a space and its text; without it, its text alone |
| Uniq.LeadingBlankLineLost | uniqr/src/lib.rs:72-82 | for `"\na\n"` the code writes `"a\n"`, or `"   1 "` and `"   1 a\n"` with `-c`, while the runs write the text back |
| Uniq.TwoRuns | uniqr/src/lib.rs:81-84 | two records that differ after `trim_end` are two runs of one |

## Left out

- Argument parsing with `clap` is left out, in all three utilities. The model
  takes the resolved settings as a `Config`. The exception is the flag-default
  rule of `wcr`, which is `Wc.Configure`.
- `catr`'s parser refuses `-n` together with `-b`. The model accepts both; as in
  the code, `-n` then wins.
- `open`, standard input, `File::open` and `File::create` are left out. The
  model takes each one's outcome as a parameter. The message of an error is
  the `Display` text of the operating-system error.
- Invalid UTF-8 in an input is left out; the model's inputs are already decoded
  text. In the code such a read error stops `catr`'s `run` and makes `wcr`
  skip the input without a message.
- Failed writes are left out. These are the `?` after `write!` in `uniqr`, and
  the panics `println!` raises on a closed standard output.
- Standard output and standard error are one ordered sequence of writes. How a
  terminal interleaves the two streams is left out.
- Counter overflow is left out: every counter is an unbounded `nat`. The
  source's counters are bounded, and the inputs are read record by record, so
  the size of memory does not limit them:
  - `catr`'s line number `num` (catr/src/lib.rs:41) has no type annotation, so
    Rust gives it type `i32`. Past 2^31 - 1 numbered lines in one input, it
    panics in a debug build and wraps to a negative number in a release build.
    The model keeps counting.
  - `wcr`'s counters and totals are `usize`. On a 32-bit target `num_bytes`
    overflows on an input of 4 GiB or more.
  - `uniqr`'s `cnt` is a `u64`.
- Whitespace is the fixed list of Unicode White_Space characters that
  `char::is_whitespace` recognises, written out as a predicate.
- Reuse of the `line` buffer and `line.clear()` is left out. Each call of
  `read_line` returns a fresh string, which is what the code observes after
  the clear.
- Uniq.Run: calls the corrected loop `Uniq.CollapsedIntended`, not the loop
  as written, because of the finding below. The loop as written is
  `Uniq.Collapsed`, and `Uniq.WrittenVersusRuns` says how far the two differ.
- On the numbering counter, the code resets `num` to 1 for every input
  (catr/src/lib.rs:41), so a cumulative counter across inputs does not appear
  in the model. The model follows the code.

## Findings

| source | as written | input that shows it | evidently intended | confidence | as-written member | corrected member |
|---|---|---|---|---|---|---|
| uniqr/src/lib.rs:72-82 | `previos` starts as `""` with `cnt` 0, so leading records that are blank after `trim_end` join a group whose text is `""`. That group prints as nothing without `-c`, and as `"   N "` with no line feed with `-c` | `"\na\n"` writes `"a\n"`; with `-c` it writes `"   1 "` and then `"   1 a\n"` | the first record always starts a group, so `"\na\n"` is written back unchanged | high that the output differs from the runs of the input; not executed | Uniq.LeadingBlankLineLost | Uniq.CollapsedIntended |
