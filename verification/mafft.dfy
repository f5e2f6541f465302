/** The interface to the MAFFT multiple-sequence aligner: melodies are
    written to an input file as numbered records, MAFFT is run outside this
    model, and its standard output is parsed back into the aligned
    sequences and the record numbers in output order. The wrapper's mutable
    fields are an explicit state value; the input file is its `contents`. */
module Mafft {
  import opened Outcomes
  import opened Strings
  import opened Numerals
  import ChantProcessor

  datatype MafftError =
    | NoInput                    // no input file set before adding a record
    | NotRun                     // decoding before MAFFT was run
    | ProcessError(stderr: string)
    | BadIndex(header: string)   // a header whose number `int` rejects

  /** What the MAFFT process left behind. */
  datatype Process = Process(stdout: string, stderr: string)

  datatype State = State(
    input: string,               // the input file name, "" when unset
    guideTree: string,
    options: seq<string>,
    counter: nat,
    contents: string,            // what has been written to the input file
    process: Option<Process>)

  function NewMafft(): (m: State)
    ensures m.options == ["--quiet", "--reorder", "--treeout"]
    ensures m.counter == 0 && m.input == "" && m.process == None
  {
    State("", "", ["--quiet", "--reorder", "--treeout"], 0, "", None)
  }

  /** Sets the input file; MAFFT writes the guide tree next to it. */
  function SetInput(m: State, file: string): (r: State)
    ensures r.input == file && r.guideTree == file + ".tree"
    ensures r.options == m.options && r.counter == m.counter && r.contents == m.contents && r.process == m.process
  {
    m.(input := file, guideTree := file + ".tree")
  }

  /** Adds a flag, and its value when the value is truthy. */
  function AddOption(m: State, flag: string, value: Option<string>): (r: State)
    ensures value.Some? && value.value != "" ==> r.options == m.options + [flag, value.value]
    ensures value.None? || value.value == "" ==> r.options == m.options + [flag]
    ensures r.(options := m.options) == m
  {
    var added := if value.Some? && value.value != "" then [flag, value.value] else [flag];
    m.(options := m.options + added)
  }

  /** The separators MAFFT sees: `---` becomes a word separator `~`, `--` a
      syllable separator `|`, and any other dash is dropped. */
  function Preprocess(v: string): (r: string)
    ensures r == ChantProcessor.InsertSeparators(v)
    ensures r == ChantProcessor.Rewrite(v)
  {
    var words := Replace(v, "---", "~");
    var syllables := Replace(words, "--", "|");
    ChantProcessor.InsertSeparatorsRewritesRuns(v);
    Replace(syllables, "-", "")
  }

  /** One input record: a header line with the record number, then the
      sequence on one line. */
  function Record(k: nat, s: string): string
  {
    "> " + NatToString(k) + "\n" + s + "\n"
  }

  /** Appends a preprocessed melody as the next record. */
  function AddVolpiano(m: State, v: string): (r: Result<State, MafftError>)
    ensures r.Failure? <==> m.input == ""
    ensures r.Success? ==> r.value == m.(contents := m.contents + Record(m.counter, Preprocess(v)), counter := m.counter + 1)
  {
    if m.input == "" then Failure(NoInput)
    else Success(m.(contents := m.contents + Record(m.counter, Preprocess(v)), counter := m.counter + 1))
  }

  /** A text on one line: spaces become `~`. */
  function TextLine(text: string): (r: string)
    ensures ' ' !in r
  {
    ReplaceCharRemoves(text, ' ', "~");
    Replace(text, " ", "~")
  }

  /** Appends a text as the next record. */
  function AddText(m: State, text: string): (r: Result<State, MafftError>)
    ensures r.Failure? <==> m.input == ""
    ensures r.Success? ==> r.value.counter == m.counter + 1
    ensures r.Success? ==> r.value.contents == m.contents + "> sequence " + NatToString(m.counter) + "\n" + TextLine(text) + "\n"
  {
    if m.input == "" then Failure(NoInput)
    else
      Success(m.(contents := m.contents + "> sequence " + NatToString(m.counter) + "\n" + TextLine(text) + "\n",
                 counter := m.counter + 1))
  }

  /** Runs MAFFT; the process result comes from outside. The record
      counter starts again from zero. */
  function Run(m: State, p: Process): (r: State)
    ensures r.counter == 0 && r.process == Some(p)
    ensures r.(counter := m.counter, process := m.process) == m
  {
    m.(counter := 0, process := Some(p))
  }

  // ---------------------------------------------------------------------------
  // output parser

  /** The parser's result: the sequences and the header numbers. */
  type Parsed = (seq<string>, seq<int>)

  /** The pending sequence as a list: nothing when it is empty. */
  function Flush(cur: string): (r: seq<string>)
  {
    if cur == "" then [] else [cur]
  }

  /** The number in a header line, after its first two characters. */
  function HeaderNumber(line: string): Option<int>
  {
    ParseInt(if |line| >= 2 then line[2..] else "")
  }

  predicate IsHeader(line: string)
  {
    line != "" && line[0] == '>'
  }

  /** Reads the lines: a header line adds its number and ends the pending
      sequence; other non-empty lines are appended to the pending sequence;
      an empty line ends the pending sequence. A sequence still pending
      after the last line is not kept. */
  function ParseLines(lines: seq<string>, cur: string): (r: Result<Parsed, MafftError>)
    ensures r.Success? ==> forall k :: 0 <= k < |r.value.0| ==> r.value.0[k] != ""
  {
    if lines == [] then Success(([], []))
    else
      var line := lines[0];
      if cur != "" && line == "" then
        var rest :- ParseLines(lines[1..], "");
        Success(([cur] + rest.0, rest.1))
      else if IsHeader(line) then
        match HeaderNumber(line)
        case None => Failure(BadIndex(line))
        case Some(k) =>
          var rest :- ParseLines(lines[1..], "");
          Success((Flush(cur) + rest.0, [k] + rest.1))
      else if line != "" then ParseLines(lines[1..], cur + line)
      else ParseLines(lines[1..], cur)
  }

  /** Parsing fails exactly when some header's number is not an integer. */
  lemma {:induction false} ParseFailsOnBadHeader(lines: seq<string>, cur: string)
    ensures ParseLines(lines, cur).Failure? <==>
              exists k :: 0 <= k < |lines| && IsHeader(lines[k]) && HeaderNumber(lines[k]).None?
  {
    if lines != [] {
      assert forall k :: 1 <= k < |lines| ==> lines[k] == lines[1..][k - 1];
      var line := lines[0];
      var next := if cur != "" && line == "" then "" else if IsHeader(line) then "" else if line != "" then cur + line else cur;
      ParseFailsOnBadHeader(lines[1..], next);
      if exists k :: 1 <= k < |lines| && IsHeader(lines[k]) && HeaderNumber(lines[k]).None? {
        var k :| 1 <= k < |lines| && IsHeader(lines[k]) && HeaderNumber(lines[k]).None?;
        assert lines[1..][k - 1] == lines[k];
      }
    }
  }

  /** Parses MAFFT's standard output line by line. */
  function Parse(stdout: string): Result<Parsed, MafftError>
  {
    ParseLines(Split(stdout, '\n'), "")
  }

  /** Decoding needs a finished run without error output. */
  function DecodeProcess(m: State): (r: Result<Parsed, MafftError>)
    ensures m.process.None? ==> r == Failure(NotRun)
    ensures m.process.Some? && m.process.value.stderr != "" ==> r == Failure(ProcessError(m.process.value.stderr))
    ensures m.process.Some? && m.process.value.stderr == "" ==> r == Parse(m.process.value.stdout)
  {
    match m.process
    case None => Failure(NotRun)
    case Some(p) =>
      if p.stderr != "" then Failure(ProcessError(p.stderr))
      else Parse(p.stdout)
  }

  // ---------------------------------------------------------------------------
  // writing records and reading them back

  /** The records of `ss`, numbered from `start`. */
  function Records(ss: seq<string>, start: nat): string
  {
    if ss == [] then "" else Record(start, ss[0]) + Records(ss[1..], start + 1)
  }

  /** The lines of those records. */
  function RecordLines(ss: seq<string>, start: nat): seq<string>
  {
    if ss == [] then [] else ["> " + NatToString(start), ss[0]] + RecordLines(ss[1..], start + 1)
  }

  /** The non-empty strings of `ss`, in order. */
  function NonEmpty(ss: seq<string>): (r: seq<string>)
    ensures |r| <= |ss|
    ensures forall k :: 0 <= k < |r| ==> r[k] != ""
  {
    if ss == [] then [] else Flush(ss[0]) + NonEmpty(ss[1..])
  }

  /** `start, start + 1, ..., start + n - 1`. */
  function Range(start: nat, n: nat): (r: seq<int>)
    ensures |r| == n && forall k :: 0 <= k < n ==> r[k] == start + k
    decreases n
  {
    if n == 0 then [] else [start as int] + Range(start + 1, n - 1)
  }

  /** Every string of `ss` fits on one line that is not a header. */
  predicate Inline(ss: seq<string>)
  {
    forall k :: 0 <= k < |ss| ==> '\n' !in ss[k] && !IsHeader(ss[k])
  }

  lemma HeaderOfRecord(k: nat)
    ensures IsHeader("> " + NatToString(k)) && '\n' !in "> " + NatToString(k)
    ensures HeaderNumber("> " + NatToString(k)) == Some(k)
  {
    assert ("> " + NatToString(k))[2..] == NatToString(k);
    ParseIntOfNatToString(k);
  }

  /** The records split into their lines, with an empty piece after the
      final newline. */
  lemma {:induction false} SplitRecords(ss: seq<string>, start: nat)
    requires Inline(ss)
    ensures Split(Records(ss, start), '\n') == RecordLines(ss, start) + [""]
  {
    if ss != [] {
      var header := "> " + NatToString(start);
      var tail := Records(ss[1..], start + 1);
      HeaderOfRecord(start);
      SplitRecords(ss[1..], start + 1);
      assert Records(ss, start) == header + "\n" + ss[0] + "\n" + tail;
      SplitTwoLines(header, ss[0], tail);
      Regroup([header, ss[0]], RecordLines(ss[1..], start + 1), [""]);
    }
  }

  /** Two lines in front of a text split off as two pieces. */
  lemma SplitTwoLines(first: string, second: string, tail: string)
    requires '\n' !in first && '\n' !in second
    ensures Split(first + "\n" + second + "\n" + tail, '\n') == [first, second] + Split(tail, '\n')
  {
    var x := second + "\n" + tail;
    SplitWithoutSeparator(first, '\n');
    SplitWithoutSeparator(second, '\n');
    SplitAppend(second, tail, '\n');
    SplitAppend(first, x, '\n');
    assert first + "\n" + second + "\n" + tail == first + "\n" + x by {
      Regroup(first + "\n", second + "\n", tail);
      Regroup(first + "\n", second, "\n");
    }
  }

  /** A sequence line after a header becomes the pending sequence. */
  lemma SequenceLine(s: string, rest: seq<string>)
    requires !IsHeader(s)
    ensures ParseLines([s] + rest, "") == ParseLines(rest, s)
  {
    assert ([s] + rest)[1..] == rest;
    assert "" + s == s;
  }

  /** A record header ends the pending sequence and adds its number. */
  lemma HeaderStep(k: nat, rest: seq<string>, cur: string)
    requires ParseLines(rest, "").Success?
    ensures ParseLines(["> " + NatToString(k)] + rest, cur)
         == Success((Flush(cur) + ParseLines(rest, "").value.0, [k as int] + ParseLines(rest, "").value.1))
  {
    HeaderOfRecord(k);
    assert (["> " + NatToString(k)] + rest)[1..] == rest;
  }

  /** One record's lines in front of more lines. */
  lemma RecordStep(k: nat, s: string, rest: seq<string>, cur: string)
    requires '\n' !in s && !IsHeader(s)
    requires ParseLines(rest, s).Success?
    ensures ParseLines(["> " + NatToString(k), s] + rest, cur)
         == Success((Flush(cur) + ParseLines(rest, s).value.0, [k as int] + ParseLines(rest, s).value.1))
  {
    SequenceLine(s, rest);
    assert ["> " + NatToString(k), s] + rest == ["> " + NatToString(k)] + ([s] + rest);
    HeaderStep(k, [s] + rest, cur);
  }

  /** The lines of the first record, then those of the others. */
  lemma RecordLinesStep(ss: seq<string>, start: nat, after: seq<string>)
    requires ss != []
    ensures RecordLines(ss, start) + after == ["> " + NatToString(start), ss[0]] + (RecordLines(ss[1..], start + 1) + after)
  {
    RecordLinesSplit(ss, start);
  }

  /** `start` followed by the numbers after it. */
  lemma RangeStep(start: nat, n: nat)
    requires n > 0
    ensures Range(start, n) == [start as int] + Range(start + 1, n - 1)
  {
  }

  /** Parsing the record lines followed by an empty line yields the pending
      sequence, the non-empty sequences and every record number. */
  lemma {:induction false} ParseRecordLines(ss: seq<string>, start: nat, cur: string)
    requires Inline(ss)
    ensures ParseLines(RecordLines(ss, start) + [""], cur) == Success((Flush(cur) + NonEmpty(ss), Range(start, |ss|)))
  {
    if ss == [] {
      assert RecordLines(ss, start) + [""] == [""];
      assert [""][1..] == [];
      assert Flush(cur) + [] == Flush(cur);
    } else {
      var rest := RecordLines(ss[1..], start + 1) + [""];
      RecordLinesStep(ss, start, [""]);
      ParseRecordLines(ss[1..], start + 1, ss[0]);
      RecordStep(start, ss[0], rest, cur);
      Regroup(Flush(cur), Flush(ss[0]), NonEmpty(ss[1..]));
      RangeStep(start, |ss|);
    }
  }

  /** Without the final empty line the last pending sequence is lost. */
  lemma {:induction false} ParseUnterminatedLines(ss: seq<string>, start: nat, cur: string)
    requires Inline(ss) && |ss| > 0
    ensures ParseLines(RecordLines(ss, start), cur) == Success((Flush(cur) + NonEmpty(ss[..|ss| - 1]), Range(start, |ss|)))
  {
    var rest := RecordLines(ss[1..], start + 1);
    var lines := RecordLines(ss, start);
    RecordLinesSplit(ss, start);
    RangeStep(start, |ss|);
    if |ss| == 1 {
      assert rest == [];
      assert lines == ["> " + NatToString(start), ss[0]];
      LastRecordLines(ss, start, cur);
      assert ss[..0] == [];
      assert Flush(cur) + NonEmpty(ss[..0]) == Flush(cur);
      assert Range(start, 1) == [start as int];
    } else {
      var init := ss[1..][..|ss| - 2];
      ParseUnterminatedLines(ss[1..], start + 1, ss[0]);
      var after := (Flush(ss[0]) + NonEmpty(init), Range(start + 1, |ss| - 1));
      assert ParseLines(rest, ss[0]) == Success(after);
      RecordStep(start, ss[0], rest, cur);
      assert ParseLines(lines, cur) == Success((Flush(cur) + after.0, [start as int] + after.1));
      NonEmptyInit(ss);
      Regroup(Flush(cur), Flush(ss[0]), NonEmpty(init));
    }
  }

  lemma RecordLinesSplit(ss: seq<string>, start: nat)
    requires ss != []
    ensures RecordLines(ss, start) == ["> " + NatToString(start), ss[0]] + RecordLines(ss[1..], start + 1)
  {
  }

  /** The lines of a single record, without the final empty line, give its
      number and lose its sequence. */
  lemma LastRecordLines(ss: seq<string>, start: nat, cur: string)
    requires Inline(ss) && |ss| == 1
    ensures ParseLines(["> " + NatToString(start), ss[0]], cur) == Success((Flush(cur), [start as int]))
  {
    assert ParseLines([], ss[0]) == Success(([], []));
    assert ["> " + NatToString(start), ss[0]] == ["> " + NatToString(start), ss[0]] + [];
    RecordStep(start, ss[0], [], cur);
    assert Flush(cur) + [] == Flush(cur);
    assert [start as int] + [] == [start as int];
  }

  /** Dropping the last string keeps the first one's contribution. */
  lemma NonEmptyInit(ss: seq<string>)
    requires |ss| >= 2
    ensures NonEmpty(ss[..|ss| - 1]) == Flush(ss[0]) + NonEmpty(ss[1..][..|ss| - 2])
  {
    assert ss[..|ss| - 1] == [ss[0]] + ss[1..][..|ss| - 2];
  }

  /** Parsing written records gives back every record number, in order, and
      the sequences that are not empty: an empty sequence is dropped while
      its number stays, so sequences and numbers no longer line up. */
  lemma ParseRecords(ss: seq<string>)
    requires Inline(ss)
    ensures Parse(Records(ss, 0)) == Success((NonEmpty(ss), Range(0, |ss|)))
  {
    var out := Records(ss, 0);
    SplitRecords(ss, 0);
    ParseRecordLines(ss, 0, "");
    assert Flush("") + NonEmpty(ss) == NonEmpty(ss);
    assert Parse(out) == ParseLines(RecordLines(ss, 0) + [""], "");
  }

  /** Non-empty one-line sequences come back exactly, numbered 0 to n - 1. */
  lemma RoundTrip(ss: seq<string>)
    requires Inline(ss) && forall k :: 0 <= k < |ss| ==> ss[k] != ""
    ensures Parse(Records(ss, 0)) == Success((ss, Range(0, |ss|)))
  {
    ParseRecords(ss);
    NonEmptyOfFull(ss);
  }

  lemma {:induction false} NonEmptyOfFull(ss: seq<string>)
    requires forall k :: 0 <= k < |ss| ==> ss[k] != ""
    ensures NonEmpty(ss) == ss
  {
    if ss != [] {
      NonEmptyOfFull(ss[1..]);
    }
  }

  /** With an empty sequence among the records, fewer sequences than
      numbers come back. */
  lemma EmptySequenceMisaligns(ss: seq<string>)
    requires Inline(ss) && "" in ss
    ensures Parse(Records(ss, 0)).Success?
    ensures |Parse(Records(ss, 0)).value.0| < |Parse(Records(ss, 0)).value.1|
  {
    ParseRecords(ss);
    NonEmptyShorter(ss);
  }

  lemma {:induction false} NonEmptyShorter(ss: seq<string>)
    requires "" in ss
    ensures |NonEmpty(ss)| < |ss|
  {
    if ss[0] != "" {
      assert "" in ss[1..];
      NonEmptyShorter(ss[1..]);
    }
  }

  /** When the output does not end in a newline, the last sequence is lost. */
  lemma LastSequenceWithoutNewlineIsLost(ss: seq<string>)
    requires Inline(ss) && |ss| > 0
    ensures var out := Records(ss, 0);
            |out| > 0 && Parse(out[..|out| - 1]) == Success((NonEmpty(ss[..|ss| - 1]), Range(0, |ss|)))
  {
    var out := Records(ss, 0);
    FrontLines(ss);
    ParseUnterminatedLines(ss, 0, "");
    assert Flush("") + NonEmpty(ss[..|ss| - 1]) == NonEmpty(ss[..|ss| - 1]);
  }

  /** Without its final newline the output splits into the record lines. */
  lemma FrontLines(ss: seq<string>)
    requires Inline(ss) && |ss| > 0
    ensures var out := Records(ss, 0);
            |out| > 0 && Split(out[..|out| - 1], '\n') == RecordLines(ss, 0)
  {
    var out := Records(ss, 0);
    SplitRecords(ss, 0);
    LastIsNewline(ss, 0);
    var front := out[..|out| - 1];
    assert out == front + ['\n'] + "";
    SplitAppend(front, "", '\n');
    assert Split("", '\n') == [""];
    var pieces := Split(front, '\n');
    assert pieces + [""] == RecordLines(ss, 0) + [""];
    assert pieces == (pieces + [""])[..|pieces|];
  }

  lemma {:induction false} LastIsNewline(ss: seq<string>, start: nat)
    requires |ss| > 0
    ensures |Records(ss, start)| > 0 && Records(ss, start)[|Records(ss, start)| - 1] == '\n'
  {
    if |ss| > 1 {
      LastIsNewline(ss[1..], start + 1);
    }
  }

  // ---------------------------------------------------------------------------
  // the wrapper as a whole

  /** Adds each melody in turn. */
  function AddVolpianos(m: State, vs: seq<string>): (r: Result<State, MafftError>)
    ensures r.Failure? <==> m.input == "" && |vs| > 0
    decreases |vs|
  {
    if vs == [] then Success(m)
    else
      var next :- AddVolpiano(m, vs[0]);
      AddVolpianos(next, vs[1..])
  }

  /** Every melody preprocessed. */
  function PreprocessAll(vs: seq<string>): (r: seq<string>)
    ensures |r| == |vs| && forall k :: 0 <= k < |vs| ==> r[k] == Preprocess(vs[k])
  {
    if vs == [] then [] else [Preprocess(vs[0])] + PreprocessAll(vs[1..])
  }

  /** Adding melodies appends their records, numbered on from the counter. */
  lemma {:induction false} AddVolpianosWritesRecords(m: State, vs: seq<string>)
    requires m.input != ""
    ensures AddVolpianos(m, vs).Success?
    ensures AddVolpianos(m, vs).value.contents == m.contents + Records(PreprocessAll(vs), m.counter)
    ensures AddVolpianos(m, vs).value.counter == m.counter + |vs|
    decreases |vs|
  {
    if vs != [] {
      var next := AddVolpiano(m, vs[0]).value;
      AddVolpianosWritesRecords(next, vs[1..]);
      assert PreprocessAll(vs)[1..] == PreprocessAll(vs[1..]);
      Regroup(m.contents, Record(m.counter, Preprocess(vs[0])), Records(PreprocessAll(vs[1..]), m.counter + 1));
    }
  }

  /** Whether the wrapper has an input file and nothing written yet. */
  predicate Ready(m: State)
  {
    m.input != "" && m.counter == 0 && m.contents == ""
  }

  lemma FreshWrapperIsReady(file: string)
    requires file != ""
    ensures Ready(SetInput(NewMafft(), file))
  {
  }

  /** Decoding after a run whose output is the input file unchanged. */
  function EchoRun(m: State): (r: Result<Parsed, MafftError>)
    ensures r == Parse(m.contents)
  {
    DecodeProcess(Run(m, Process(m.contents, "")))
  }

  /** Once the wrapper is ready, a run whose output is its input gives back
      every melody with its separators and the record numbers 0 to n - 1. */
  lemma WrapperRoundTrip(m: State, vs: seq<string>)
    requires Ready(m)
    requires Inline(PreprocessAll(vs)) && forall k :: 0 <= k < |vs| ==> PreprocessAll(vs)[k] != ""
    ensures AddVolpianos(m, vs).Success?
    ensures EchoRun(AddVolpianos(m, vs).value) == Success((PreprocessAll(vs), Range(0, |vs|)))
  {
    AddVolpianosWritesRecords(m, vs);
    assert "" + Records(PreprocessAll(vs), 0) == Records(PreprocessAll(vs), 0);
    RoundTrip(PreprocessAll(vs));
  }
}
