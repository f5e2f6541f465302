/** The aligner: pads a batch of melodies, split into words of syllables,
    so that every (word, syllable) cell has the same width in every melody;
    fits texts to melodies; builds token streams; and drives the repeated
    multiple-sequence alignment in which chants whose melody does not fit
    their text are dropped until every remaining chant fits. */
module Aligner {
  import opened Outcomes
  import opened Strings
  import opened Tokens
  import opened ChantProcessor
  import Intervals

  /** A batch of melodies: melody, word, syllable. */
  type Batch = seq<seq<seq<string>>>

  /** Python's `max` of a non-empty list. */
  function Max(xs: seq<nat>): (m: nat)
    requires |xs| > 0
    ensures forall k :: 0 <= k < |xs| ==> xs[k] <= m
    ensures exists k :: 0 <= k < |xs| && xs[k] == m
  {
    if |xs| == 1 then xs[0]
    else
      var rest := Max(xs[1..]);
      assert forall k :: 1 <= k < |xs| ==> xs[k] == xs[1..][k - 1];
      if xs[0] >= rest then xs[0] else rest
  }

  lemma MaxOfConstant(xs: seq<nat>, c: nat)
    requires |xs| > 0
    requires forall k :: 0 <= k < |xs| ==> xs[k] == c
    ensures Max(xs) == c
  {
  }

  // ---------------------------------------------------------------------------
  // syllable alignment

  /** Number of words of each melody. */
  function WordCounts(vs: Batch): (r: seq<nat>)
    ensures |r| == |vs|
    ensures forall i :: 0 <= i < |vs| ==> r[i] == |vs[i]|
  {
    seq(|vs|, i requires 0 <= i < |vs| => |vs[i]|)
  }

  /** Number of syllables of word `w` in each melody, 0 where it has no such word. */
  function SyllableCounts(vs: Batch, w: nat): (r: seq<nat>)
    ensures |r| == |vs|
    ensures forall i :: 0 <= i < |vs| ==> r[i] == if w < |vs[i]| then |vs[i][w]| else 0
  {
    seq(|vs|, i requires 0 <= i < |vs| => if w < |vs[i]| then |vs[i][w]| else 0)
  }

  /** Whether melody `i` has syllable `s` in word `w`. */
  predicate HasCell(vs: Batch, i: nat, w: nat, s: nat)
  {
    i < |vs| && w < |vs[i]| && s < |vs[i][w]|
  }

  /** Syllable `s` of word `w` of melody `i`, or nothing. */
  function Cell(vs: Batch, i: nat, w: nat, s: nat): string
  {
    if HasCell(vs, i, w, s) then vs[i][w][s] else ""
  }

  /** Length of the syllable in cell (w, s) of each melody, 0 where absent. */
  function CharCounts(vs: Batch, w: nat, s: nat): (r: seq<nat>)
    ensures |r| == |vs|
    ensures forall i :: 0 <= i < |vs| ==> r[i] == |Cell(vs, i, w, s)|
  {
    seq(|vs|, i requires 0 <= i < |vs| => |Cell(vs, i, w, s)|)
  }

  function MaxWords(vs: Batch): nat
    requires |vs| > 0
  {
    Max(WordCounts(vs))
  }

  function MaxSyllables(vs: Batch, w: nat): nat
    requires |vs| > 0
  {
    Max(SyllableCounts(vs, w))
  }

  function MaxChars(vs: Batch, w: nat, s: nat): nat
    requires |vs| > 0
  {
    Max(CharCounts(vs, w, s))
  }

  /** The cell right-padded with `-` to the widest syllable at that cell. */
  function PaddedCell(vs: Batch, i: nat, w: nat, s: nat): (r: string)
    requires |vs| > 0
    ensures |r| == MaxChars(vs, w, s)
    ensures Cell(vs, i, w, s) <= r
    ensures forall k :: |Cell(vs, i, w, s)| <= k < |r| ==> r[k] == '-'
  {
    var cell := Cell(vs, i, w, s);
    assert i < |vs| ==> CharCounts(vs, w, s)[i] == |cell|;
    var width := if |cell| <= MaxChars(vs, w, s) then MaxChars(vs, w, s) - |cell| else 0;
    if i < |vs| then cell + Repeat('-', width) else Repeat('-', MaxChars(vs, w, s))
  }

  /** Word `w` of melody `i`, padded. */
  function AlignedWord(vs: Batch, i: nat, w: nat): (r: seq<string>)
    requires |vs| > 0
    ensures |r| == MaxSyllables(vs, w)
    ensures forall s :: 0 <= s < |r| ==> r[s] == PaddedCell(vs, i, w, s)
  {
    seq(MaxSyllables(vs, w), s requires 0 <= s => PaddedCell(vs, i, w, s))
  }

  /** Melody `i`, padded. */
  function AlignedMelody(vs: Batch, i: nat): (r: seq<seq<string>>)
    requires |vs| > 0
    ensures |r| == MaxWords(vs)
    ensures forall w :: 0 <= w < |r| ==> r[w] == AlignedWord(vs, i, w)
  {
    seq(MaxWords(vs), w requires 0 <= w => AlignedWord(vs, i, w))
  }

  /** Every melody extended to the batch's maximum number of words, every
      word to the maximum number of syllables at its position, and every
      syllable right-padded with `-` to the widest syllable at its cell. */
  function SyllableAlignment(vs: Batch): (r: Batch)
    requires |vs| > 0
    ensures |r| == |vs|
    ensures forall i :: 0 <= i < |r| ==> |r[i]| == MaxWords(vs)
    ensures forall i, w :: 0 <= i < |r| && 0 <= w < |r[i]| ==> |r[i][w]| == MaxSyllables(vs, w)
    ensures forall i, w, s :: 0 <= i < |r| && 0 <= w < |r[i]| && 0 <= s < |r[i][w]| ==>
              r[i][w][s] == PaddedCell(vs, i, w, s)
  {
    seq(|vs|, i requires 0 <= i < |vs| => AlignedMelody(vs, i))
  }

  /** Each padded cell keeps the melody's syllable (if any) as a prefix and
      is dashes after it. */
  lemma AlignmentPads(vs: Batch, i: nat, w: nat, s: nat)
    requires |vs| > 0 && i < |vs| && w < MaxWords(vs) && s < MaxSyllables(vs, w)
    ensures |SyllableAlignment(vs)[i][w][s]| == MaxChars(vs, w, s)
    ensures Cell(vs, i, w, s) <= SyllableAlignment(vs)[i][w][s]
    ensures forall k :: |Cell(vs, i, w, s)| <= k < MaxChars(vs, w, s) ==> SyllableAlignment(vs)[i][w][s][k] == '-'
  {
  }

  /** Every melody of the batch has every word it had, with every syllable
      it had, and every cell that was present keeps its syllable as a prefix:
      the batch maxima bound the original shape. */
  lemma AlignmentCoversOriginal(vs: Batch, i: nat, w: nat, s: nat)
    requires |vs| > 0 && HasCell(vs, i, w, s)
    ensures w < MaxWords(vs) && s < MaxSyllables(vs, w)
    ensures vs[i][w][s] <= SyllableAlignment(vs)[i][w][s]
  {
    assert WordCounts(vs)[i] == |vs[i]|;
    assert SyllableCounts(vs, w)[i] == |vs[i][w]|;
  }

  /** Whether some syllable of the batch contains a dash. */
  predicate DashFree(vs: Batch)
  {
    forall i, w, s :: 0 <= i < |vs| && 0 <= w < |vs[i]| && 0 <= s < |vs[i][w]| ==> '-' !in vs[i][w][s]
  }

  /** Dropping the padding gives back each original syllable, and nothing
      for the cells a melody did not have. */
  lemma AlignmentUnpads(vs: Batch, i: nat, w: nat, s: nat)
    requires |vs| > 0 && DashFree(vs)
    requires i < |vs| && w < MaxWords(vs) && s < MaxSyllables(vs, w)
    ensures Filter(SyllableAlignment(vs)[i][w][s], c => c != '-') == Cell(vs, i, w, s)
  {
    var keep := c => c != '-';
    var padded := SyllableAlignment(vs)[i][w][s];
    var cell := Cell(vs, i, w, s);
    assert padded == cell + padded[|cell|..];
    FilterAppend(cell, padded[|cell|..], keep);
    FilterAll(cell, keep);
    FilterNone(padded[|cell|..], keep);
  }

  /** Whether all melodies have the same words, syllables and widths. */
  predicate Uniform(vs: Batch)
  {
    forall i, j :: 0 <= i < |vs| && 0 <= j < |vs| ==> SameShape(vs[i], vs[j])
  }

  predicate SameShape(a: seq<seq<string>>, b: seq<seq<string>>)
  {
    && |a| == |b|
    && (forall w :: 0 <= w < |a| ==> |a[w]| == |b[w]|)
    && (forall w, s :: 0 <= w < |a| && 0 <= s < |a[w]| ==> |a[w][s]| == |b[w][s]|)
  }

  /** An aligned batch is uniform. */
  lemma AlignmentIsUniform(vs: Batch)
    requires |vs| > 0
    ensures Uniform(SyllableAlignment(vs))
  {
  }

  /** Aligning a batch that is already uniform changes nothing, so aligning
      twice is aligning once. */
  lemma AlignUniform(vs: Batch)
    requires |vs| > 0 && Uniform(vs)
    ensures SyllableAlignment(vs) == vs
  {
    var r := SyllableAlignment(vs);
    MaxOfConstant(WordCounts(vs), |vs[0]|);
    forall w | 0 <= w < |vs[0]|
      ensures MaxSyllables(vs, w) == |vs[0][w]|
    {
      MaxOfConstant(SyllableCounts(vs, w), |vs[0][w]|);
    }
    forall w, s | 0 <= w < |vs[0]| && 0 <= s < |vs[0][w]|
      ensures MaxChars(vs, w, s) == |vs[0][w][s]|
    {
      MaxOfConstant(CharCounts(vs, w, s), |vs[0][w][s]|);
    }
    forall i | 0 <= i < |vs|
      ensures r[i] == vs[i]
    {
      forall w | 0 <= w < |vs[i]|
        ensures r[i][w] == vs[i][w]
      {
        forall s | 0 <= s < |vs[i][w]|
          ensures r[i][w][s] == vs[i][w][s]
        {
          assert |r[i][w][s]| == |vs[i][w][s]|;
        }
      }
    }
  }

  lemma AlignmentIdempotent(vs: Batch)
    requires |vs| > 0
    ensures SyllableAlignment(SyllableAlignment(vs)) == SyllableAlignment(vs)
  {
    AlignmentIsUniform(vs);
    AlignUniform(SyllableAlignment(vs));
  }

  // ---------------------------------------------------------------------------
  // text extension

  /** Word `w` of the text, or no syllables past its end. */
  function TextWord(text: seq<seq<string>>, w: nat): seq<string>
  {
    if w < |text| then text[w] else []
  }

  /** Adds empty words until the text has as many words as the melody, then
      empty syllables until each word has as many syllables as the melody's
      word; nothing already there changes. The source's placeholder is an
      empty list, written here as the empty string. */
  function ExtendText(text: seq<seq<string>>, volpiano: seq<seq<string>>): (r: seq<seq<string>>)
    ensures |r| == if |text| < |volpiano| then |volpiano| else |text|
    ensures forall w :: 0 <= w < |r| ==> TextWord(text, w) <= r[w]
    ensures forall w, j :: 0 <= w < |r| && |TextWord(text, w)| <= j < |r[w]| ==> r[w][j] == ""
    ensures forall w :: 0 <= w < |volpiano| ==> |r[w]| >= |volpiano[w]|
    ensures forall w :: 0 <= w < |r| ==>
              |r[w]| == if w < |volpiano| && |TextWord(text, w)| < |volpiano[w]|
                        then |volpiano[w]| else |TextWord(text, w)|
  {
    var count := if |text| < |volpiano| then |volpiano| else |text|;
    seq(count, w requires 0 <= w =>
      var t := TextWord(text, w);
      if w < |volpiano| && |t| < |volpiano[w]| then t + Blanks(|volpiano[w]| - |t|) else t)
  }

  // ---------------------------------------------------------------------------
  // token streams

  /** The spaces the aligner puts into the token stream. */
  function AlignerStyle(): Style
  {
    Style("-", "-", "3")
  }

  /** Splits an aligned melody into words and pairs it with its text, failing
      when the word counts differ or a syllable is empty. */
  function AlignVolpianoAndText(volpiano: string, text: seq<seq<string>>)
    : (r: Result<seq<seq<Token>>, AlignError>)
    ensures r.Failure? ==> r.error == UnequalLength || r.error == EmptySyllable
  {
    var words := GetSyllables(volpiano);
    if !Compatible(words, text) then Failure(UnequalLength)
    else CombineTokens(words, text, AlignerStyle())
  }

  /** The unequal-length error comes exactly from differing word counts;
      otherwise the stream fails only on an empty syllable, and each word
      entry hands back the melody word and the text word. */
  lemma AlignedTextRecovers(volpiano: string, text: seq<seq<string>>)
    ensures var r := AlignVolpianoAndText(volpiano, text);
            && (r == Failure(UnequalLength) <==> |GetSyllables(volpiano)| != |text|)
            && (r.Failure? <==> |GetSyllables(volpiano)| != |text| || HasEmptySyllable(GetSyllables(volpiano)))
            && (r.Success? ==>
                 && |r.value| == |text| + 2
                 && r.value[0] == ClefEntry(AlignerStyle())
                 && r.value[|text| + 1] == EndEntry()
                 && forall i :: 0 <= i < |text| ==>
                      && SyllablesOf(r.value[i + 1]) == GetSyllables(volpiano)[i]
                      && Concat(TextsOf(r.value[i + 1])) == Concat(text[i]))
  {
    var words := GetSyllables(volpiano);
    if Compatible(words, text) && CombineTokens(words, text, AlignerStyle()).Success? {
      CombineTokensRecovers(words, text, AlignerStyle());
    }
  }

  /** An aligned melody written back as volpiano: syllables joined by `|`,
      words by `~`, behind the clef `1~` unless the melody has its own. */
  function VolpianoString(vs: seq<seq<string>>, containsClef: bool): string
  {
    if containsClef then JoinWords(vs) else "1~" + JoinWords(vs)
  }

  /** With a bar line appended, splitting the written melody gives its words
      back. */
  lemma VolpianoStringRoundTrip(vs: seq<seq<string>>)
    requires Spellable(vs)
    ensures GetSyllables(VolpianoString(vs, false) + "~4") == vs
  {
    GetSyllablesOfJoin("1", vs, "4");
    assert "1" + "~" == "1~" && "~" + "4" == "~4";
    Regroup("1~" + JoinWords(vs), "~", "4");
  }

  /** Without a bar line, splitting the written melody loses its last word:
      the last `~`-piece is taken for the bar line. */
  lemma VolpianoStringLosesLastWord(vs: seq<seq<string>>)
    requires Spellable(vs)
    ensures GetSyllables(VolpianoString(vs, false)) == vs[..|vs| - 1]
  {
    var joined := JoinEach(vs);
    ClefSplit(vs);
    var words := Words(VolpianoString(vs, false));
    assert words == joined[..|vs| - 1];
    SplitWordsJoinEach(vs);
    forall k | 0 <= k < |vs| - 1
      ensures SplitWords(words)[k] == vs[k]
    {
      assert SplitWords(joined)[k] == vs[k];
    }
  }

  /** Splitting the melody written behind the clef gives the clef and the
      written words. */
  lemma ClefSplit(vs: seq<seq<string>>)
    requires Spellable(vs)
    ensures Split(VolpianoString(vs, false), '~') == ["1"] + JoinEach(vs)
  {
    var joined := JoinEach(vs);
    forall k | 0 <= k < |joined|
      ensures '~' !in joined[k]
    {
      JoinAvoids(vs[k], "|", '~');
    }
    SplitJoin(joined, '~');
    SplitAppend("1", JoinWords(vs), '~');
    SplitWithoutSeparator("1", '~');
    assert "1" + ['~'] == "1~";
  }

  /** Words with the same shape are written with the same length. */
  lemma {:induction false} JoinSameLengths(a: seq<string>, b: seq<string>, sep: string)
    requires |a| == |b| && forall k :: 0 <= k < |a| ==> |a[k]| == |b[k]|
    ensures |Join(a, sep)| == |Join(b, sep)|
  {
    if |a| > 1 {
      JoinSameLengths(a[1..], b[1..], sep);
    }
  }

  lemma SameShapeSameLength(a: seq<seq<string>>, b: seq<seq<string>>)
    requires SameShape(a, b)
    ensures |JoinWords(a)| == |JoinWords(b)|
  {
    forall w | 0 <= w < |a|
      ensures |Join(a[w], "|")| == |Join(b[w], "|")|
    {
      JoinSameLengths(a[w], b[w], "|");
    }
    JoinSameLengths(JoinEach(a), JoinEach(b), "~");
  }

  /** All melodies of an aligned batch are written with the same length. */
  lemma AlignedStringsHaveEqualLength(vs: Batch, i: nat, j: nat)
    requires |vs| > 0 && i < |vs| && j < |vs|
    ensures |VolpianoString(SyllableAlignment(vs)[i], false)| == |VolpianoString(SyllableAlignment(vs)[j], false)|
  {
    AlignmentIsUniform(vs);
    SameShapeSameLength(SyllableAlignment(vs)[i], SyllableAlignment(vs)[j]);
  }

  // ---------------------------------------------------------------------------
  // syllable-mode alignment of a set of chants

  /** What the database delivers for a chant; the text comes already split
      into words of syllables by a syllabifier outside this model. */
  datatype ChantData = ChantData(source: string, url: string, text: seq<seq<string>>, volpiano: string)

  /** The melody of a chant as words of syllables. */
  function MelodyWords(c: ChantData): seq<seq<string>>
  {
    GetSyllables(InsertSeparators(c.volpiano))
  }

  predicate Fits(c: ChantData)
  {
    Compatible(MelodyWords(c), c.text)
  }

  datatype SyllableModeResult = SyllableModeResult(
    chants: seq<seq<seq<Token>>>,
    errors: seq<string>,
    sources: seq<string>,
    ids: seq<nat>,
    volpianos: seq<string>,
    urls: seq<string>)

  /** The chants whose melody has as many words as their text, and the
      sources of the others, each in input order. */
  function Partition(ids: seq<nat>, data: seq<ChantData>): (r: (seq<nat>, seq<ChantData>, seq<string>))
    requires |ids| == |data|
    ensures |r.0| == |r.1| && |r.0| + |r.2| == |ids|
    ensures forall k :: 0 <= k < |r.1| ==> Fits(r.1[k]) && r.1[k] in data
    ensures forall k :: 0 <= k < |r.0| ==> r.0[k] in ids
  {
    if ids == [] then ([], [], [])
    else
      var rest := Partition(ids[1..], data[1..]);
      if Fits(data[0]) then ([ids[0]] + rest.0, [data[0]] + rest.1, rest.2)
      else (rest.0, rest.1, [data[0].source] + rest.2)
  }

  /** Whether each chant fits its text. */
  function FitFlags(data: seq<ChantData>): (r: seq<bool>)
    ensures |r| == |data| && forall k :: 0 <= k < |data| ==> r[k] == Fits(data[k])
  {
    seq(|data|, k requires 0 <= k < |data| => Fits(data[k]))
  }

  /** The positions from `i` on whose flag is `fit`, in increasing order:
      with `FitFlags`, the reference the split of the chants is measured
      against. */
  function FitPositions(flags: seq<bool>, fit: bool, i: nat): (r: seq<nat>)
    requires i <= |flags|
    ensures forall m :: 0 <= m < |r| ==> i <= r[m] < |flags| && flags[r[m]] == fit
    ensures forall m, n :: 0 <= m < n < |r| ==> r[m] < r[n]
    ensures forall k :: i <= k < |flags| && flags[k] == fit ==> k in r
    decreases |flags| - i
  {
    if i == |flags| then []
    else if flags[i] == fit then [i] + FitPositions(flags, fit, i + 1)
    else FitPositions(flags, fit, i + 1)
  }

  /** From position `i` on, the split keeps exactly the ids and chants at the
      fitting positions and reports exactly the sources at the others, each
      in input order. */
  lemma {:induction false} PartitionSelectsFrom(ids: seq<nat>, data: seq<ChantData>, i: nat)
    requires |ids| == |data| && i <= |data|
    ensures Partition(ids[i..], data[i..]).0 == Pick(ids, FitPositions(FitFlags(data), true, i))
    ensures Partition(ids[i..], data[i..]).1 == Pick(data, FitPositions(FitFlags(data), true, i))
    ensures Partition(ids[i..], data[i..]).2 == Sources(Pick(data, FitPositions(FitFlags(data), false, i)))
    decreases |data| - i
  {
    if i < |data| {
      PartitionSelectsFrom(ids, data, i + 1);
      assert ids[i..][1..] == ids[i + 1..] && data[i..][1..] == data[i + 1..];
      var kept, failed := FitPositions(FitFlags(data), true, i + 1), FitPositions(FitFlags(data), false, i + 1);
      if Fits(data[i]) {
        PickCons(ids, i, kept);
        PickCons(data, i, kept);
      } else {
        PickCons(data, i, failed);
        SourcesCons(data[i], Pick(data, failed));
      }
    }
  }

  lemma PickCons<T>(xs: seq<T>, i: nat, pos: seq<nat>)
    requires i < |xs| && forall m :: 0 <= m < |pos| ==> pos[m] < |xs|
    ensures forall m :: 0 <= m < |[i] + pos| ==> ([i] + pos)[m] < |xs|
    ensures Pick(xs, [i] + pos) == [xs[i]] + Pick(xs, pos)
  {
    assert forall m :: 0 < m < |[i] + pos| ==> ([i] + pos)[m] == pos[m - 1];
  }

  lemma SourcesCons(c: ChantData, data: seq<ChantData>)
    ensures Sources([c] + data) == [c.source] + Sources(data)
  {
    assert forall m :: 0 < m < |[c] + data| ==> ([c] + data)[m] == data[m - 1];
  }

  /** The split is a stable filter: the kept ids and chants are those at the
      fitting positions and the errors the sources at the others. */
  lemma PartitionSelects(ids: seq<nat>, data: seq<ChantData>)
    requires |ids| == |data|
    ensures Partition(ids, data).0 == Pick(ids, FitPositions(FitFlags(data), true, 0))
    ensures Partition(ids, data).1 == Pick(data, FitPositions(FitFlags(data), true, 0))
    ensures Partition(ids, data).2 == Sources(Pick(data, FitPositions(FitFlags(data), false, 0)))
  {
    PartitionSelectsFrom(ids, data, 0);
    assert ids[0..] == ids && data[0..] == data;
  }

  /** Melody words of each chant. */
  function MelodiesOf(data: seq<ChantData>): (r: Batch)
    ensures |r| == |data|
    ensures forall k :: 0 <= k < |r| ==> r[k] == MelodyWords(data[k])
  {
    seq(|data|, k requires 0 <= k < |data| => MelodyWords(data[k]))
  }

  /** Pairs every aligned melody with its extended text; fails on the first
      empty syllable. */
  function CombineAll(aligned: Batch, data: seq<ChantData>): (r: Result<seq<seq<seq<Token>>>, AlignError>)
    requires |aligned| == |data|
    ensures r.Success? ==> |r.value| == |aligned|
    ensures r.Failure? ==> r.error == EmptySyllable
  {
    if aligned == [] then Success([])
    else
      var first :- CombineTokens(aligned[0], ExtendText(data[0].text, aligned[0]), AlignerStyle());
      var rest :- CombineAll(aligned[1..], data[1..]);
      Success([first] + rest)
  }

  /** The token stream of kept chant `k` is its padded melody paired with its
      extended text. */
  lemma {:induction false} CombineAllPairs(aligned: Batch, data: seq<ChantData>, k: nat)
    requires |aligned| == |data| && k < |aligned|
    requires CombineAll(aligned, data).Success?
    ensures CombineTokens(aligned[k], ExtendText(data[k].text, aligned[k]), AlignerStyle())
              == Success(CombineAll(aligned, data).value[k])
  {
    var first := CombineTokens(aligned[0], ExtendText(data[0].text, aligned[0]), AlignerStyle());
    var rest := CombineAll(aligned[1..], data[1..]);
    assert first.Success? && rest.Success?;
    assert CombineAll(aligned, data).value == [first.value] + rest.value;
    if k > 0 {
      CombineAllPairs(aligned[1..], data[1..], k - 1);
      assert aligned[1..][k - 1] == aligned[k] && data[1..][k - 1] == data[k];
    }
  }

  /** Combining fails exactly when some padded melody has an empty
      syllable. */
  lemma {:induction false} CombineAllFails(aligned: Batch, data: seq<ChantData>)
    requires |aligned| == |data|
    ensures CombineAll(aligned, data).Failure? <==> exists k :: 0 <= k < |aligned| && HasEmptySyllable(aligned[k])
  {
    if aligned != [] {
      CombineAllFails(aligned[1..], data[1..]);
      var first := CombineTokens(aligned[0], ExtendText(data[0].text, aligned[0]), AlignerStyle());
      assert CombineAll(aligned, data).Failure? <==> first.Failure? || CombineAll(aligned[1..], data[1..]).Failure?;
      SomeEmptyStep(aligned);
    }
  }

  /** Some melody of a batch has an empty syllable exactly when the first
      does or some later one does. */
  lemma SomeEmptyStep(aligned: Batch)
    requires |aligned| > 0
    ensures (exists k :: 0 <= k < |aligned| && HasEmptySyllable(aligned[k])) <==>
              HasEmptySyllable(aligned[0]) || exists k :: 0 <= k < |aligned[1..]| && HasEmptySyllable(aligned[1..][k])
  {
    if exists k :: 0 <= k < |aligned| && HasEmptySyllable(aligned[k]) {
      var k :| 0 <= k < |aligned| && HasEmptySyllable(aligned[k]);
      if k > 0 {
        assert aligned[1..][k - 1] == aligned[k];
      }
    }
    if exists k :: 0 <= k < |aligned[1..]| && HasEmptySyllable(aligned[1..][k]) {
      var k :| 0 <= k < |aligned[1..]| && HasEmptySyllable(aligned[1..][k]);
      assert aligned[k + 1] == aligned[1..][k];
    }
  }

  /** The aligned melodies of a batch written back as volpiano, all of the
      same length. */
  function AlignedStrings(vs: Batch): (r: seq<string>)
    requires |vs| > 0
    ensures |r| == |vs|
    ensures forall k :: 0 <= k < |r| ==> r[k] == VolpianoString(SyllableAlignment(vs)[k], false)
    ensures forall k, m :: 0 <= k < |r| && 0 <= m < |r| ==> |r[k]| == |r[m]|
  {
    var aligned := SyllableAlignment(vs);
    var r := seq(|aligned|, k requires 0 <= k < |aligned| => VolpianoString(aligned[k], false));
    assert forall k, m :: 0 <= k < |r| && 0 <= m < |r| ==> |r[k]| == |r[m]| by {
      forall k, m | 0 <= k < |r| && 0 <= m < |r|
        ensures |r[k]| == |r[m]|
      {
        AlignedStringsHaveEqualLength(vs, k, m);
      }
    }
    r
  }

  /** Syllable mode: the chants whose melody fits their text are aligned as
      a batch and paired with their texts; the sources of the others are the
      errors. The maximum of an empty batch raises in Python. */
  function AlignmentSyllables(ids: seq<nat>, data: seq<ChantData>): (r: Result<SyllableModeResult, AlignError>)
    requires |ids| == |data|
    ensures r.Success? ==> |r.value.errors| + |r.value.ids| == |ids|
    ensures r.Success? ==> |r.value.chants| == |r.value.ids| == |r.value.volpianos|
    ensures r.Success? ==> forall k :: 0 <= k < |r.value.ids| ==> r.value.ids[k] in ids
    ensures r.Success? ==> forall k, m :: 0 <= k < |r.value.volpianos| && 0 <= m < |r.value.volpianos| ==>
              |r.value.volpianos[k]| == |r.value.volpianos[m]|
    ensures r == Failure(EmptyBatch) <==> forall k :: 0 <= k < |data| ==> !Fits(data[k])
  {
    var p := Partition(ids, data);
    PartitionKeepsFits(ids, data);
    if |p.1| == 0 then Failure(EmptyBatch)
    else
      assert p.1[0] in data;
      AlignFitting(p.0, p.1, p.2)
  }

  /** A successful syllable alignment keeps exactly the ids, sources and urls
      of the chants that fit, in input order, and reports exactly the sources
      of the others, in input order. */
  lemma AlignmentSyllablesSelects(ids: seq<nat>, data: seq<ChantData>)
    requires |ids| == |data|
    ensures var r := AlignmentSyllables(ids, data);
            var kept := FitPositions(FitFlags(data), true, 0);
            r.Success? ==>
              && r.value.ids == Pick(ids, kept)
              && r.value.sources == Sources(Pick(data, kept))
              && r.value.urls == Urls(Pick(data, kept))
              && r.value.errors == Sources(Pick(data, FitPositions(FitFlags(data), false, 0)))
  {
    PartitionSelects(ids, data);
  }

  /** Aligns the chants that fit as one batch and pairs each with its text;
      `errors` are passed through. */
  function AlignFitting(ids: seq<nat>, fits: seq<ChantData>, errors: seq<string>): (r: Result<SyllableModeResult, AlignError>)
    requires |ids| == |fits| > 0
    ensures r.Failure? ==> r.error == EmptySyllable
    ensures r.Success? ==> r.value.ids == ids && r.value.errors == errors
    ensures r.Success? ==> r.value.sources == Sources(fits) && r.value.urls == Urls(fits)
    ensures r.Success? ==> |r.value.chants| == |r.value.volpianos| == |ids|
    ensures r.Success? ==> forall k, m :: 0 <= k < |r.value.volpianos| && 0 <= m < |r.value.volpianos| ==>
              |r.value.volpianos[k]| == |r.value.volpianos[m]|
  {
    var combined := CombineAll(SyllableAlignment(MelodiesOf(fits)), fits);
    if combined.Failure? then Failure(combined.error)
    else Success(FittingResult(ids, fits, errors, combined.value))
  }

  /** The result for the fitting chants once their token streams are built. */
  function FittingResult(ids: seq<nat>, fits: seq<ChantData>, errors: seq<string>, chants: seq<seq<seq<Token>>>)
    : (r: SyllableModeResult)
    requires |ids| == |fits| == |chants| > 0
    ensures r.ids == ids && r.errors == errors && r.chants == chants
    ensures r.sources == Sources(fits) && r.urls == Urls(fits)
    ensures |r.volpianos| == |ids|
    ensures forall k, m :: 0 <= k < |r.volpianos| && 0 <= m < |r.volpianos| ==> |r.volpianos[k]| == |r.volpianos[m]|
  {
    SyllableModeResult(chants, errors, Sources(fits), ids, AlignedStrings(MelodiesOf(fits)), Urls(fits))
  }

  /** A chant that fits is never among the errors. */
  lemma {:induction false} PartitionKeepsFits(ids: seq<nat>, data: seq<ChantData>)
    requires |ids| == |data|
    ensures |Partition(ids, data).1| == 0 ==> forall k :: 0 <= k < |data| ==> !Fits(data[k])
  {
    if ids != [] && |Partition(ids, data).1| == 0 {
      var rest := Partition(ids[1..], data[1..]);
      assert !Fits(data[0]) && |rest.1| == 0;
      PartitionKeepsFits(ids[1..], data[1..]);
      forall k | 1 <= k < |data|
        ensures !Fits(data[k])
      {
        assert data[k] == data[1..][k - 1];
      }
    }
  }

  function Sources(data: seq<ChantData>): (r: seq<string>)
    ensures |r| == |data| && forall k :: 0 <= k < |r| ==> r[k] == data[k].source
  {
    seq(|data|, k requires 0 <= k < |data| => data[k].source)
  }

  function Urls(data: seq<ChantData>): (r: seq<string>)
    ensures |r| == |data| && forall k :: 0 <= k < |r| ==> r[k] == data[k].url
  {
    seq(|data|, k requires 0 <= k < |data| => data[k].url)
  }

  // ---------------------------------------------------------------------------
  // repeated multiple-sequence alignment (pitch and interval modes)

  /** Whether melodies are aligned as pitches or as intervals. */
  datatype Mode = Pitches | Intervals

  /** What the multiple-sequence aligner hands back: the aligned sequences in
      its output order and, for each, the position of its input sequence. */
  datatype MsaOutput = MsaOutput(sequences: seq<string>, order: seq<nat>)

  datatype AlignmentResult = AlignmentResult(
    chants: seq<seq<seq<Token>>>,
    errors: seq<string>,
    sources: seq<string>,
    ids: seq<nat>,
    volpianos: seq<string>,
    urls: seq<string>)

  /** The melody in the representation that is aligned. */
  function Encoded(mode: Mode, v: string): string
  {
    match mode
    case Pitches => v
    case Intervals => Intervals.ToIntervals(v)
  }

  /** An aligned sequence back as volpiano. */
  function Decoded(mode: Mode, s: string): string
  {
    match mode
    case Pitches => s
    case Intervals => Intervals.ToVolpiano(s)
  }

  /** The sequences written for the aligner, one per chant in `ids` order,
      with word and syllable separators inserted. */
  function MsaInput(mode: Mode, fetch: nat -> ChantData, ids: seq<nat>): (r: seq<string>)
    ensures |r| == |ids|
    ensures forall k :: 0 <= k < |ids| ==> r[k] == InsertSeparators(Encoded(mode, fetch(ids[k]).volpiano))
  {
    seq(|ids|, k requires 0 <= k < |ids| => InsertSeparators(Encoded(mode, fetch(ids[k]).volpiano)))
  }

  /** The sources of the chants in `ids`. */
  function SourcesOf(fetch: nat -> ChantData, ids: seq<nat>): (r: seq<string>)
    ensures |r| == |ids| && forall k :: 0 <= k < |ids| ==> r[k] == fetch(ids[k]).source
  {
    seq(|ids|, k requires 0 <= k < |ids| => fetch(ids[k]).source)
  }

  /** The positions `0, 1, ..., n - 1`. */
  function Range(n: nat): (r: seq<nat>)
    ensures |r| == n && forall k :: 0 <= k < n ==> r[k] == k
  {
    seq(n, k requires 0 <= k < n => k)
  }

  /** Whether the aligner delivered one sequence per input, its order naming
      every input position once (what MAFFT's `--reorder` output does). The
      length and range clauses follow from the last one and are spelt out
      for the indexing. */
  predicate WellFormed(out: MsaOutput, count: nat)
  {
    && |out.order| == count
    && |out.sequences| >= count
    && (forall i :: 0 <= i < |out.order| ==> out.order[i] < count)
    && multiset(out.order) == multiset(Range(count))
  }

  /** The elements at the given positions. */
  function Pick<T>(xs: seq<T>, order: seq<nat>): (r: seq<T>)
    requires forall m :: 0 <= m < |order| ==> order[m] < |xs|
    ensures |r| == |order| && forall m :: 0 <= m < |order| ==> r[m] == xs[order[m]]
  {
    seq(|order|, m requires 0 <= m < |order| => xs[order[m]])
  }

  lemma PickAppend(ids: seq<nat>, a: seq<nat>, b: seq<nat>)
    requires forall m :: 0 <= m < |a| ==> a[m] < |ids|
    requires forall m :: 0 <= m < |b| ==> b[m] < |ids|
    ensures forall m :: 0 <= m < |a + b| ==> (a + b)[m] < |ids|
    ensures Pick(ids, a + b) == Pick(ids, a) + Pick(ids, b)
  {
    assert forall m :: 0 <= m < |a + b| ==> (a + b)[m] < |ids| by {
      forall m | 0 <= m < |a + b|
        ensures (a + b)[m] < |ids|
      {
        if m >= |a| {
          assert (a + b)[m] == b[m - |a|];
        }
      }
    }
  }

  /** Rearranging the positions rearranges the ids picked. */
  lemma {:induction false} PickPermutes(ids: seq<nat>, o1: seq<nat>, o2: seq<nat>)
    requires forall m :: 0 <= m < |o1| ==> o1[m] < |ids|
    requires forall m :: 0 <= m < |o2| ==> o2[m] < |ids|
    requires multiset(o1) == multiset(o2)
    ensures multiset(Pick(ids, o1)) == multiset(Pick(ids, o2))
    decreases |o1|
  {
    if o1 == [] {
      assert |multiset(o2)| == 0;
    } else {
      assert o1[0] in multiset(o2);
      var j :| 0 <= j < |o2| && o2[j] == o1[0];
      RemoveOne(o1, o2, j);
      PickMiddle(ids, o2, j);
      PickPermutes(ids, o1[1..], Without(o2, j));
      PickFront(ids, o1);
    }
  }

  /** `s` without its element at `j`. */
  function Without(s: seq<nat>, j: nat): (r: seq<nat>)
    requires j < |s|
    ensures |r| == |s| - 1
    ensures forall m :: 0 <= m < |r| ==> r[m] == if m < j then s[m] else s[m + 1]
  {
    s[..j] + s[j + 1..]
  }

  /** Taking the first element out of one of two equal multisets, and the
      same element out of the other, leaves equal multisets. */
  lemma RemoveOne(o1: seq<nat>, o2: seq<nat>, j: nat)
    requires o1 != [] && j < |o2| && o2[j] == o1[0] && multiset(o1) == multiset(o2)
    ensures multiset(o1[1..]) == multiset(Without(o2, j))
  {
    var x := o1[0];
    assert o1 == [x] + o1[1..];
    assert o2 == o2[..j] + [x] + o2[j + 1..];
    assert multiset(o2) == multiset(o2[..j]) + multiset{x} + multiset(o2[j + 1..]);
    assert multiset(Without(o2, j)) == multiset(o2[..j]) + multiset(o2[j + 1..]);
    assert multiset(o1) == multiset{x} + multiset(o1[1..]);
    assert multiset(o1[1..]) == multiset(o1) - multiset{x};
    assert multiset(Without(o2, j)) == multiset(o2) - multiset{x};
  }

  lemma PickFront(ids: seq<nat>, o: seq<nat>)
    requires o != [] && forall m :: 0 <= m < |o| ==> o[m] < |ids|
    ensures multiset(Pick(ids, o)) == multiset{ids[o[0]]} + multiset(Pick(ids, o[1..]))
  {
    assert Pick(ids, o) == [ids[o[0]]] + Pick(ids, o[1..]);
  }

  lemma PickMiddle(ids: seq<nat>, o: seq<nat>, j: nat)
    requires j < |o| && forall m :: 0 <= m < |o| ==> o[m] < |ids|
    ensures forall m :: 0 <= m < |Without(o, j)| ==> Without(o, j)[m] < |ids|
    ensures multiset(Pick(ids, o)) == multiset{ids[o[j]]} + multiset(Pick(ids, Without(o, j)))
  {
    var left, right := Pick(ids, o[..j]), Pick(ids, o[j + 1..]);
    assert Pick(ids, o) == left + [ids[o[j]]] + right;
    PickAppend(ids, o[..j], o[j + 1..]);
  }

  /** A well-formed order picks every id once. */
  lemma PickWellFormed(ids: seq<nat>, out: MsaOutput)
    requires WellFormed(out, |ids|)
    ensures multiset(Pick(ids, out.order)) == multiset(ids)
  {
    PickPermutes(ids, out.order, Range(|ids|));
    assert Pick(ids, Range(|ids|)) == ids;
  }

  /** The outcome of one alignment pass; `dropped` holds the ids whose
      sources are the `errors`, which the source does not keep. */
  datatype Pass = Pass(
    chants: seq<seq<seq<Token>>>,
    sources: seq<string>,
    ids: seq<nat>,
    volpianos: seq<string>,
    urls: seq<string>,
    errors: seq<string>,
    dropped: seq<nat>)

  /** Whether `tokens` is the chant's text paired with the aligned sequence
      `aligned`, and `source` and `url` are the chant's. */
  predicate Paired(mode: Mode, chant: ChantData, aligned: string, tokens: seq<seq<Token>>, source: string, url: string)
  {
    && AlignVolpianoAndText(Decoded(mode, aligned), chant.text) == Success(tokens)
    && source == chant.source
    && url == chant.url
  }

  /** What a pass promises about one kept chant. */
  type RowCheck = (nat, string, seq<seq<Token>>, string, string) -> bool

  /** `Paired` for the chant fetched by id. */
  function PairedWith(mode: Mode, fetch: nat -> ChantData): RowCheck
  {
    (id: nat, aligned: string, tokens: seq<seq<Token>>, source: string, url: string) =>
      Paired(mode, fetch(id), aligned, tokens, source, url)
  }

  /** Whether `ok` holds position by position of the parallel lists. */
  predicate AllRows(ok: RowCheck, ids: seq<nat>, volpianos: seq<string>,
                    chants: seq<seq<seq<Token>>>, sources: seq<string>, urls: seq<string>)
    decreases |ids|
  {
    ids != [] && |volpianos| > 0 && |chants| > 0 && |sources| > 0 && |urls| > 0 ==>
      && ok(ids[0], volpianos[0], chants[0], sources[0], urls[0])
      && AllRows(ok, ids[1..], volpianos[1..], chants[1..], sources[1..], urls[1..])
  }

  /** Whether every chant of a pass comes from `ids` with its text paired
      with its aligned sequence, and every error is the source of a chant of
      `ids`. */
  predicate Consistent(mode: Mode, fetch: nat -> ChantData, ids: seq<nat>, p: Pass)
  {
    && |p.chants| == |p.ids| == |p.sources| == |p.volpianos| == |p.urls|
    && (forall k :: 0 <= k < |p.ids| ==> p.ids[k] in ids)
    && (forall k :: 0 <= k < |p.errors| ==> p.errors[k] in SourcesOf(fetch, ids))
    && AllRows(PairedWith(mode, fetch), p.ids, p.volpianos, p.chants, p.sources, p.urls)
  }

  /** The row check holds at every position of lists it holds for. */
  lemma {:induction false} RowAt(ok: RowCheck, ids: seq<nat>, volpianos: seq<string>,
                                 chants: seq<seq<seq<Token>>>, sources: seq<string>, urls: seq<string>, k: nat)
    requires |chants| == |ids| == |sources| == |volpianos| == |urls| && k < |ids|
    requires AllRows(ok, ids, volpianos, chants, sources, urls)
    ensures ok(ids[k], volpianos[k], chants[k], sources[k], urls[k])
  {
    if k > 0 {
      RowAt(ok, ids[1..], volpianos[1..], chants[1..], sources[1..], urls[1..], k - 1);
      assert ids[1..][k - 1] == ids[k] && volpianos[1..][k - 1] == volpianos[k] && chants[1..][k - 1] == chants[k];
      assert sources[1..][k - 1] == sources[k] && urls[1..][k - 1] == urls[k];
    }
  }

  /** Keeping a chant whose aligned melody pairs with its text preserves `Consistent`. */
  lemma ConsistentKeep(mode: Mode, fetch: nat -> ChantData, ids: seq<nat>, p: Pass, j: nat, aligned: string, tokens: seq<seq<Token>>)
    requires Consistent(mode, fetch, ids, p) && j < |ids|
    requires AlignVolpianoAndText(Decoded(mode, aligned), fetch(ids[j]).text) == Success(tokens)
    ensures Consistent(mode, fetch, ids,
              Pass([tokens] + p.chants, [fetch(ids[j]).source] + p.sources, [ids[j]] + p.ids,
                   [aligned] + p.volpianos, [fetch(ids[j]).url] + p.urls, p.errors, p.dropped))
  {
    assert PairedWith(mode, fetch)(ids[j], aligned, tokens, fetch(ids[j]).source, fetch(ids[j]).url);
    AllRowsCons(PairedWith(mode, fetch), ids[j], aligned, tokens, fetch(ids[j]).source, fetch(ids[j]).url,
                p.ids, p.volpianos, p.chants, p.sources, p.urls);
  }

  /** A row the check holds for, put in front of rows it holds for. */
  lemma AllRowsCons(ok: RowCheck, id: nat, volpiano: string, tokens: seq<seq<Token>>, source: string, url: string,
                    ids: seq<nat>, volpianos: seq<string>, chants: seq<seq<seq<Token>>>, sources: seq<string>, urls: seq<string>)
    requires ok(id, volpiano, tokens, source, url)
    requires AllRows(ok, ids, volpianos, chants, sources, urls)
    ensures AllRows(ok, [id] + ids, [volpiano] + volpianos, [tokens] + chants, [source] + sources, [url] + urls)
  {
    assert ([id] + ids)[1..] == ids && ([volpiano] + volpianos)[1..] == volpianos && ([tokens] + chants)[1..] == chants;
    assert ([source] + sources)[1..] == sources && ([url] + urls)[1..] == urls;
  }

  /** Recording a chant's source as an error, and its id as dropped, preserves `Consistent`. */
  lemma ConsistentDrop(mode: Mode, fetch: nat -> ChantData, ids: seq<nat>, p: Pass, j: nat)
    requires Consistent(mode, fetch, ids, p) && j < |ids|
    ensures Consistent(mode, fetch, ids,
              Pass(p.chants, p.sources, p.ids, p.volpianos, p.urls, [fetch(ids[j]).source] + p.errors, [ids[j]] + p.dropped))
  {
    assert fetch(ids[j]).source == SourcesOf(fetch, ids)[j];
  }

  /** Every chant of a consistent pass is paired with its aligned sequence. */
  lemma ConsistentPaired(mode: Mode, fetch: nat -> ChantData, ids: seq<nat>, p: Pass)
    requires Consistent(mode, fetch, ids, p)
    ensures forall k :: 0 <= k < |p.ids| ==>
              Paired(mode, fetch(p.ids[k]), p.volpianos[k], p.chants[k], p.sources[k], p.urls[k])
  {
    forall k | 0 <= k < |p.ids|
      ensures Paired(mode, fetch(p.ids[k]), p.volpianos[k], p.chants[k], p.sources[k], p.urls[k])
    {
      RowAt(PairedWith(mode, fetch), p.ids, p.volpianos, p.chants, p.sources, p.urls, k);
    }
  }

  /** Tries to pair every aligned sequence from output position `i` on with
      the text of its chant; a chant whose aligned melody does not fit its
      text, or has an empty syllable, goes to the errors. */
  function PassFrom(mode: Mode, fetch: nat -> ChantData, ids: seq<nat>, out: MsaOutput, i: nat): (p: Pass)
    requires WellFormed(out, |ids|) && i <= |out.order|
    ensures |p.ids| + |p.errors| == |out.order| - i
    ensures Consistent(mode, fetch, ids, p)
    decreases |out.order| - i
  {
    if i == |out.order| then Pass([], [], [], [], [], [], [])
    else
      var rest := PassFrom(mode, fetch, ids, out, i + 1);
      var j := out.order[i];
      var aligned := AlignVolpianoAndText(Decoded(mode, out.sequences[i]), fetch(ids[j]).text);
      if aligned.Success? then
        ConsistentKeep(mode, fetch, ids, rest, j, out.sequences[i], aligned.value);
        Pass([aligned.value] + rest.chants, [fetch(ids[j]).source] + rest.sources, [ids[j]] + rest.ids,
             [out.sequences[i]] + rest.volpianos, [fetch(ids[j]).url] + rest.urls, rest.errors, rest.dropped)
      else
        ConsistentDrop(mode, fetch, ids, rest, j);
        Pass(rest.chants, rest.sources, rest.ids, rest.volpianos, rest.urls,
             [fetch(ids[j]).source] + rest.errors, [ids[j]] + rest.dropped)
  }

  /** The ids at the positions from `i` on. */
  function PickFrom(ids: seq<nat>, order: seq<nat>, i: nat): (r: seq<nat>)
    requires i <= |order| && forall m :: 0 <= m < |order| ==> order[m] < |ids|
    ensures |r| == |order| - i && forall m :: 0 <= m < |r| ==> r[m] == ids[order[i + m]]
  {
    seq(|order| - i, m requires 0 <= m < |order| - i => ids[order[i + m]])
  }

  /** Every chant a pass is given from position `i` on is kept or dropped,
      once, and the errors are the sources of the dropped ones. */
  lemma PassAccounts(mode: Mode, fetch: nat -> ChantData, ids: seq<nat>, out: MsaOutput, i: nat)
    requires WellFormed(out, |ids|) && i <= |out.order|
    ensures Accounts(fetch, PassFrom(mode, fetch, ids, out, i), multiset(PickFrom(ids, out.order, i)))
    decreases |out.order| - i
  {
    if i < |out.order| {
      PassAccounts(mode, fetch, ids, out, i + 1);
      PassAccountsStep(mode, fetch, ids, out, i);
    } else {
      assert PickFrom(ids, out.order, i) == [];
    }
  }

  /** One more position, `i`, keeps the accounts of the positions after it. */
  lemma PassAccountsStep(mode: Mode, fetch: nat -> ChantData, ids: seq<nat>, out: MsaOutput, i: nat)
    requires WellFormed(out, |ids|) && i < |out.order|
    requires Accounts(fetch, PassFrom(mode, fetch, ids, out, i + 1), multiset(PickFrom(ids, out.order, i + 1)))
    ensures Accounts(fetch, PassFrom(mode, fetch, ids, out, i), multiset(PickFrom(ids, out.order, i)))
  {
    var id := ids[out.order[i]];
    PassStep(mode, fetch, ids, out, i);
    var p, rest := PassFrom(mode, fetch, ids, out, i), PassFrom(mode, fetch, ids, out, i + 1);
    PickFromStep(ids, out.order, i);
    AccountStep(fetch, id, p, rest, multiset(PickFrom(ids, out.order, i + 1)));
  }

  /** The ids picked from position `i` on are the one at `i` and those after. */
  lemma PickFromStep(ids: seq<nat>, order: seq<nat>, i: nat)
    requires i < |order| && forall m :: 0 <= m < |order| ==> order[m] < |ids|
    ensures multiset(PickFrom(ids, order, i)) == multiset{ids[order[i]]} + multiset(PickFrom(ids, order, i + 1))
  {
    assert PickFrom(ids, order, i) == [ids[order[i]]] + PickFrom(ids, order, i + 1);
  }

  /** Whether `p` keeps or drops each chant of `given` once, and its errors
      are the sources of the dropped ones. */
  predicate Accounts(fetch: nat -> ChantData, p: Pass, given: multiset<nat>)
  {
    && multiset(p.ids) + multiset(p.dropped) == given
    && p.errors == SourcesOf(fetch, p.dropped)
  }

  /** Position `i` of a pass either keeps its chant or drops it. */
  lemma PassStep(mode: Mode, fetch: nat -> ChantData, ids: seq<nat>, out: MsaOutput, i: nat)
    requires WellFormed(out, |ids|) && i < |out.order|
    ensures Kept(PassFrom(mode, fetch, ids, out, i), ids[out.order[i]], PassFrom(mode, fetch, ids, out, i + 1))
         || Dropped(fetch, PassFrom(mode, fetch, ids, out, i), ids[out.order[i]], PassFrom(mode, fetch, ids, out, i + 1))
  {
  }

  /** Whether `p` is `rest` with `id` kept in front. */
  predicate Kept(p: Pass, id: nat, rest: Pass)
  {
    p.ids == [id] + rest.ids && p.dropped == rest.dropped && p.errors == rest.errors
  }

  /** Whether `p` is `rest` with `id` dropped in front. */
  predicate Dropped(fetch: nat -> ChantData, p: Pass, id: nat, rest: Pass)
  {
    p.ids == rest.ids && p.dropped == [id] + rest.dropped && p.errors == [fetch(id).source] + rest.errors
  }

  /** Keeping or dropping one more chant keeps the accounts. */
  lemma AccountStep(fetch: nat -> ChantData, id: nat, p: Pass, rest: Pass, given: multiset<nat>)
    requires Kept(p, id, rest) || Dropped(fetch, p, id, rest)
    requires Accounts(fetch, rest, given)
    ensures Accounts(fetch, p, multiset{id} + given)
  {
    if Kept(p, id, rest) {
      assert multiset(p.ids) == multiset{id} + multiset(rest.ids);
    } else {
      assert multiset(p.dropped) == multiset{id} + multiset(rest.dropped);
      SourcesOfAppend(fetch, [id], rest.dropped);
    }
  }

  lemma SourcesOfAppend(fetch: nat -> ChantData, a: seq<nat>, b: seq<nat>)
    ensures SourcesOf(fetch, a + b) == SourcesOf(fetch, a) + SourcesOf(fetch, b)
  {
  }

  /** A source of a chant among `ids` is a source of a chant among `ids0`
      when every id of `ids` is one of `ids0`. */
  lemma SourcesOfSubset(fetch: nat -> ChantData, ids0: seq<nat>, ids: seq<nat>, errors: seq<string>)
    requires forall k :: 0 <= k < |ids| ==> ids[k] in ids0
    requires forall k :: 0 <= k < |errors| ==> errors[k] in SourcesOf(fetch, ids)
    ensures forall k :: 0 <= k < |errors| ==> errors[k] in SourcesOf(fetch, ids0)
  {
    forall k | 0 <= k < |errors|
      ensures errors[k] in SourcesOf(fetch, ids0)
    {
      var j :| 0 <= j < |ids| && errors[k] == SourcesOf(fetch, ids)[j];
      var j0 :| 0 <= j0 < |ids0| && ids0[j0] == ids[j];
      assert errors[k] == SourcesOf(fetch, ids0)[j0];
    }
  }

  /** One alignment pass over `ids`, whose chants all come from `ids0`:
      every chant is kept or dropped, exactly once, and the errors are the
      sources of the dropped ones. */
  method RunPass(mode: Mode, fetch: nat -> ChantData, ids0: seq<nat>, ids: seq<nat>, out: MsaOutput)
    returns (pass: Pass)
    requires WellFormed(out, |ids|)
    requires forall k :: 0 <= k < |ids| ==> ids[k] in ids0
    ensures multiset(pass.ids) + multiset(pass.dropped) == multiset(ids)
    ensures pass.errors == SourcesOf(fetch, pass.dropped)
    ensures |pass.ids| + |pass.errors| == |ids|
    ensures |pass.chants| == |pass.ids| == |pass.sources| == |pass.volpianos| == |pass.urls|
    ensures forall k :: 0 <= k < |pass.ids| ==> pass.ids[k] in ids0
    ensures forall k :: 0 <= k < |pass.errors| ==> pass.errors[k] in SourcesOf(fetch, ids0)
    ensures forall k :: 0 <= k < |pass.ids| ==>
              Paired(mode, fetch(pass.ids[k]), pass.volpianos[k], pass.chants[k], pass.sources[k], pass.urls[k])
  {
    pass := PassFrom(mode, fetch, ids, out, 0);
    PassAccounts(mode, fetch, ids, out, 0);
    assert PickFrom(ids, out.order, 0) == Pick(ids, out.order);
    PickWellFormed(ids, out);
    SourcesOfSubset(fetch, ids0, ids, pass.errors);
    ConsistentPaired(mode, fetch, ids, pass);
  }

  /** Where the retry loop stands: the ids still to align and those dropped
      make up the ids asked for, the errors are the sources of the dropped
      ones, and everything comes from the ids asked for. */
  predicate Progress(fetch: nat -> ChantData, ids0: seq<nat>, ids: seq<nat>, errors: seq<string>, dropped: seq<nat>)
  {
    && |errors| + |ids| == |ids0|
    && multiset(ids) + multiset(dropped) == multiset(ids0)
    && errors == SourcesOf(fetch, dropped)
    && (forall k :: 0 <= k < |ids| ==> ids[k] in ids0)
    && (forall k :: 0 <= k < |errors| ==> errors[k] in SourcesOf(fetch, ids0))
  }

  /** A pass over the ids still to align keeps the loop's progress. */
  lemma CarryProgress(fetch: nat -> ChantData, ids0: seq<nat>, ids: seq<nat>, errors: seq<string>, dropped: seq<nat>, pass: Pass)
    requires Progress(fetch, ids0, ids, errors, dropped)
    requires multiset(pass.ids) + multiset(pass.dropped) == multiset(ids) && pass.errors == SourcesOf(fetch, pass.dropped)
    requires |pass.ids| + |pass.errors| == |ids|
    requires forall k :: 0 <= k < |pass.ids| ==> pass.ids[k] in ids0
    requires forall k :: 0 <= k < |pass.errors| ==> pass.errors[k] in SourcesOf(fetch, ids0)
    ensures Progress(fetch, ids0, pass.ids, errors + pass.errors, dropped + pass.dropped)
  {
    SourcesOfAppend(fetch, dropped, pass.dropped);
    var all := errors + pass.errors;
    forall k | 0 <= k < |all|
      ensures all[k] in SourcesOf(fetch, ids0)
    {
      if k >= |errors| {
        assert all[k] == pass.errors[k - |errors|];
      }
    }
  }

  /** Aligns the melodies of the chants with the multiple-sequence aligner
      `msa`, pairs each with its text, drops the chants that do not fit and
      aligns the rest again, until a pass drops nothing. The result lists the
      chants of that last pass and the sources of every chant dropped on the
      way; `dropped` names those chants by id, which the source does not
      keep. Every chant asked for ends up in exactly one of the two. */
  method AlignMelodies(mode: Mode, ids0: seq<nat>, fetch: nat -> ChantData, msa: seq<string> -> Result<MsaOutput, string>)
    returns (r: Result<AlignmentResult, AlignError>, dropped: seq<nat>)
    ensures r.Failure? ==> r.error == MafftFailure
    ensures r.Success? ==> multiset(r.value.ids) + multiset(dropped) == multiset(ids0)
    ensures r.Success? ==> r.value.errors == SourcesOf(fetch, dropped)
    ensures r.Success? ==> |r.value.errors| + |r.value.ids| == |ids0|
    ensures r.Success? ==> |r.value.chants| == |r.value.ids| == |r.value.sources| == |r.value.volpianos| == |r.value.urls|
    ensures r.Success? ==> forall k :: 0 <= k < |r.value.ids| ==> r.value.ids[k] in ids0
    ensures r.Success? ==> forall k :: 0 <= k < |r.value.errors| ==> r.value.errors[k] in SourcesOf(fetch, ids0)
    ensures r.Success? ==> forall k :: 0 <= k < |r.value.ids| ==>
              Paired(mode, fetch(r.value.ids[k]), r.value.volpianos[k], r.value.chants[k], r.value.sources[k], r.value.urls[k])
  {
    var ids := ids0;
    var errors: seq<string> := [];
    dropped := [];
    while true
      invariant Progress(fetch, ids0, ids, errors, dropped)
      decreases |ids|
    {
      var out := msa(MsaInput(mode, fetch, ids));
      if out.Failure? || !WellFormed(out.value, |ids|) {
        return Failure(MafftFailure), dropped;
      }
      var pass := RunPass(mode, fetch, ids0, ids, out.value);
      CarryProgress(fetch, ids0, ids, errors, dropped, pass);
      errors := errors + pass.errors;
      dropped := dropped + pass.dropped;
      if pass.errors == [] {
        return Success(AlignmentResult(pass.chants, errors, pass.sources, pass.ids, pass.volpianos, pass.urls)), dropped;
      }
      ids := pass.ids;
    }
  }
}
