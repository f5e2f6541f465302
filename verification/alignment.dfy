/** The second version of melody-text alignment: batch padding of melodies
    and the token stream with dashes as spaces. Two of its guards differ
    from the aligner's: the shape guards test `word - 1` and `syllable - 1`
    where the aligner tests `word + 1` and `syllable + 1`, and the word
    space after a word is decided by a variable that was rebound to the
    word's last syllable. Both are modelled as written, next to the
    corrected behaviour. */
module AlignmentLegacy {
  import opened Outcomes
  import opened Strings
  import opened Tokens
  import opened ChantProcessor
  import opened Aligner
  import ChantLegacy

  // ---------------------------------------------------------------------------
  // batch padding as written

  /** The syllable count of chant `i` at `word`, behind the guard
      `len(words) < word - 1`; reading a word that is not there raises. */
  function SyllableCountAt(vw: Batch, i: nat, word: nat): (r: Result<nat, AlignError>)
    requires i < |vw|
    ensures r.Failure? <==> word - 1 <= |vw[i]| <= word
    ensures r.Failure? ==> r.error == IndexOutOfRange
    ensures r.Success? && word < |vw[i]| ==> r.value == |vw[i][word]|
  {
    if |vw[i]| < word - 1 then Success(0)
    else if word < |vw[i]| then Success(|vw[i][word]|)
    else Failure(IndexOutOfRange)
  }

  /** The character count of chant `i` at (`word`, `syllable`), behind the
      guard `len(words) < word - 1 or len(words[word]) < syllable - 1`. */
  function CharCountAt(vw: Batch, i: nat, word: nat, syllable: nat): (r: Result<nat, AlignError>)
    requires i < |vw|
    ensures word < |vw[i]| ==>
              (r.Failure? <==> syllable - 1 <= |vw[i][word]| <= syllable)
    ensures r.Success? && word < |vw[i]| && syllable < |vw[i][word]| ==> r.value == |vw[i][word][syllable]|
  {
    if |vw[i]| < word - 1 then Success(0)
    else if word >= |vw[i]| then Failure(IndexOutOfRange)
    else if |vw[i][word]| < syllable - 1 then Success(0)
    else if syllable < |vw[i][word]| then Success(|vw[i][word][syllable]|)
    else Failure(IndexOutOfRange)
  }

  /** The syllable counts at `word` of chants `i` onwards. */
  function SyllableCountsFrom(vw: Batch, word: nat, i: nat): (r: Result<seq<nat>, AlignError>)
    requires i <= |vw|
    ensures r.Failure? <==> exists j :: i <= j < |vw| && SyllableCountAt(vw, j, word).Failure?
    ensures r.Failure? ==> r.error == IndexOutOfRange
    ensures r.Success? ==> |r.value| == |vw| - i
    ensures r.Success? ==> forall j :: i <= j < |vw| ==> r.value[j - i] == SyllableCountAt(vw, j, word).value
    decreases |vw| - i
  {
    if i == |vw| then Success([])
    else
      var first :- SyllableCountAt(vw, i, word);
      var rest :- SyllableCountsFrom(vw, word, i + 1);
      Success([first] + rest)
  }

  /** Whether the character counts at (`word`, `syllable`) can all be read. */
  predicate CharCountsReadable(vw: Batch, word: nat, syllable: nat)
  {
    forall j :: 0 <= j < |vw| ==> CharCountAt(vw, j, word, syllable).Success?
  }

  /** Whether the character counts can be read for every syllable position
      from `syllable` up to `count`. */
  predicate SyllablesReadable(vw: Batch, word: nat, syllable: nat, count: nat)
  {
    forall s :: syllable <= s < count ==> CharCountsReadable(vw, word, s)
  }

  /** The loop over words from `word` up to `count`: read the syllable counts,
      take their maximum, read the character counts of every syllable
      position. The first failing read raises. */
  function WordsFrom(vw: Batch, word: nat, count: nat): (r: Result<(), AlignError>)
    requires |vw| > 0
    ensures r.Failure? ==> r.error == IndexOutOfRange
    decreases count - word
  {
    if word >= count then Success(())
    else
      var counts :- SyllableCountsFrom(vw, word, 0);
      assert |counts| > 0;
      if !SyllablesReadable(vw, word, 0, Max(counts)) then Failure(IndexOutOfRange)
      else WordsFrom(vw, word + 1, count)
  }

  /** Lines 3-50 as written: separators, words of syllables, then the guarded
      loops; on success the padding is the aligner's. */
  function SyllableAlignmentAsWritten(volpianos: seq<string>): (r: Result<Batch, AlignError>)
    ensures |volpianos| == 0 ==> r == Failure(EmptyBatch)
    ensures |volpianos| > 0 ==>
              (r.Failure? <==> Ragged(Melodies(volpianos)))
    ensures r.Success? ==> r.value == SyllableAlignment(Melodies(volpianos))
  {
    if |volpianos| == 0 then Failure(EmptyBatch)
    else
      var vw := Melodies(volpianos);
      RaggedIffFails(vw);
      var _ :- WordsFrom(vw, 0, MaxWords(vw));
      Success(SyllableAlignment(vw))
  }

  /** Each melody with separators inserted, as words of syllables. */
  function Melodies(volpianos: seq<string>): (r: Batch)
    ensures |r| == |volpianos|
    ensures forall i :: 0 <= i < |r| ==> r[i] == GetSyllables(InsertSeparators(volpianos[i]))
  {
    seq(|volpianos|, i requires 0 <= i < |volpianos| => GetSyllables(InsertSeparators(volpianos[i])))
  }

  /** Whether some chant has fewer words than the batch maximum, or fewer
      syllables at some word than the maximum at that word. */
  predicate Ragged(vw: Batch)
    requires |vw| > 0
  {
    || (exists i :: 0 <= i < |vw| && |vw[i]| < MaxWords(vw))
    || (exists i, w :: 0 <= i < |vw| && 0 <= w < |vw[i]| && |vw[i][w]| < MaxSyllables(vw, w))
  }

  /** The guarded loops fail exactly on a ragged batch. */
  lemma RaggedIffFails(vw: Batch)
    requires |vw| > 0
    ensures WordsFrom(vw, 0, MaxWords(vw)).Failure? <==> Ragged(vw)
  {
    if exists i :: 0 <= i < |vw| && |vw[i]| < MaxWords(vw) {
      var i :| 0 <= i < |vw| && |vw[i]| < MaxWords(vw);
      ShortChantFails(vw, i);
    } else if exists i, w :: 0 <= i < |vw| && 0 <= w < |vw[i]| && |vw[i][w]| < MaxSyllables(vw, w) {
      var i, w :| 0 <= i < |vw| && 0 <= w < |vw[i]| && |vw[i][w]| < MaxSyllables(vw, w);
      ShortWordFails(vw, i, w);
    } else {
      EvenBatchPasses(vw, 0);
    }
  }

  /** A failure at some word from `word` on makes the loop fail. */
  lemma {:induction false} FailureAhead(vw: Batch, word: nat, count: nat, bad: nat)
    requires |vw| > 0 && word <= bad < count
    requires SyllableCountsFrom(vw, bad, 0).Failure? ||
             (SyllableCountsFrom(vw, bad, 0).Success? &&
              !SyllablesReadable(vw, bad, 0, Max(SyllableCountsFrom(vw, bad, 0).value)))
    ensures WordsFrom(vw, word, count).Failure?
    decreases bad - word
  {
    if word < bad {
      var counts := SyllableCountsFrom(vw, word, 0);
      if counts.Success? && SyllablesReadable(vw, word, 0, Max(counts.value)) {
        FailureAhead(vw, word + 1, count, bad);
      }
    }
  }

  /** A chant with fewer words than the maximum fails at its first missing
      word. */
  lemma ShortChantFails(vw: Batch, i: nat)
    requires |vw| > 0 && i < |vw| && |vw[i]| < MaxWords(vw)
    ensures WordsFrom(vw, 0, MaxWords(vw)).Failure?
  {
    var bad := |vw[i]|;
    assert SyllableCountAt(vw, i, bad).Failure?;
    assert SyllableCountsFrom(vw, bad, 0).Failure?;
    FailureAhead(vw, 0, MaxWords(vw), bad);
  }

  /** In a batch whose chants all have the maximum number of words, a word
      with fewer syllables than the maximum fails at its first missing
      syllable. */
  lemma ShortWordFails(vw: Batch, i: nat, w: nat)
    requires |vw| > 0 && i < |vw| && w < |vw[i]| && |vw[i][w]| < MaxSyllables(vw, w)
    requires forall j :: 0 <= j < |vw| ==> |vw[j]| == MaxWords(vw)
    ensures WordsFrom(vw, 0, MaxWords(vw)).Failure?
  {
    var counts := SyllableCountsFrom(vw, w, 0);
    assert forall j :: 0 <= j < |vw| ==> SyllableCountAt(vw, j, w).Success? && SyllableCountAt(vw, j, w).value == SyllableCounts(vw, w)[j];
    assert counts.Success?;
    assert counts.value == SyllableCounts(vw, w);
    var bad := |vw[i][w]|;
    assert CharCountAt(vw, i, w, bad).Failure?;
    assert !CharCountsReadable(vw, w, bad);
    assert bad < Max(counts.value);
    assert !SyllablesReadable(vw, w, 0, Max(counts.value));
    FailureAhead(vw, 0, MaxWords(vw), w);
  }

  /** A batch that is not ragged passes every read. */
  lemma {:induction false} EvenBatchPasses(vw: Batch, word: nat)
    requires |vw| > 0 && word <= MaxWords(vw) && !Ragged(vw)
    ensures WordsFrom(vw, word, MaxWords(vw)).Success?
    decreases MaxWords(vw) - word
  {
    if word < MaxWords(vw) {
      assert forall j :: 0 <= j < |vw| ==> SyllableCountAt(vw, j, word).Success? && SyllableCountAt(vw, j, word).value == SyllableCounts(vw, word)[j];
      var counts := SyllableCountsFrom(vw, word, 0);
      assert counts.Success? && counts.value == SyllableCounts(vw, word);
      forall s | 0 <= s < Max(counts.value)
        ensures CharCountsReadable(vw, word, s)
      {
        forall j | 0 <= j < |vw|
          ensures CharCountAt(vw, j, word, s).Success?
        {
          assert |vw[j]| == MaxWords(vw);
          assert |vw[j][word]| >= MaxSyllables(vw, word);
        }
      }
      EvenBatchPasses(vw, word + 1);
    }
  }

  /** Two chants, of one word and of two words: the second word's guard lets
      the first chant through to an index error, where the aligner pads it. */
  lemma ShorterChantRaises()
    ensures var vw: Batch := [[["a"]], [["a"], ["b"]]];
            WordsFrom(vw, 0, MaxWords(vw)).Failure? && |SyllableAlignment(vw)[0]| == 2
  {
    var vw: Batch := [[["a"]], [["a"], ["b"]]];
    assert WordCounts(vw) == [1, 2];
    assert MaxWords(vw) == 2;
    ShortChantFails(vw, 0);
  }

  // ---------------------------------------------------------------------------
  // token stream as written

  /** The length of the last syllable of a word. */
  function LastLength(word: seq<string>): nat
    requires |word| > 0
  {
    |word[|word| - 1]|
  }

  /** The word entries from word `i` on, where the word space after a word is
      decided against `len(volpiano)`: after the syllable loop that name holds
      the last syllable's characters; a word without syllables leaves it as
      it was, `bound` long (the word list itself before the first word). */
  function EntriesAsWritten(words: seq<seq<string>>, text: seq<seq<string>>, i: nat, bound: nat)
    : (r: Result<seq<seq<Token>>, AlignError>)
    requires i <= |words| <= |text|
    ensures r.Failure? <==> EmptySyllableFrom(words, i)
    ensures r.Failure? ==> r.error == EmptySyllable
    ensures r.Success? ==> |r.value| == |words| - i
    ensures r.Success? ==> forall k :: i <= k < |words| && |words[k]| > 0 ==>
              r.value[k - i] == WordEntry(words[k], text[k], k, LastLength(words[k]), ChantLegacy.LegacyStyle())
    decreases |words| - i
  {
    if i == |words| then Success([])
    else
      EmptySyllableStep(words, i);
      if "" in words[i] then Failure(EmptySyllable)
      else
        var next := if |words[i]| > 0 then LastLength(words[i]) else bound;
        var rest := EntriesAsWritten(words, text, i + 1, next);
        if rest.Failure? then rest
        else
          var entries := [WordEntry(words[i], text[i], i, next, ChantLegacy.LegacyStyle())] + rest.value;
          assert forall j :: 0 <= j < |rest.value| ==> entries[j + 1] == rest.value[j];
          Success(entries)
  }

  /** Lines 53-116 as written. */
  function CombineAsWritten(words: seq<seq<string>>, text: seq<seq<string>>): (r: Result<seq<seq<Token>>, AlignError>)
    requires |text| >= |words|
    ensures r.Failure? <==> HasEmptySyllable(words)
    ensures r.Success? ==>
              && |r.value| == |words| + 2
              && r.value[0] == ClefEntry(ChantLegacy.LegacyStyle())
              && r.value[|words| + 1] == EndEntry()
              && forall k :: 0 <= k < |words| && |words[k]| > 0 ==>
                   r.value[k + 1] == WordEntry(words[k], text[k], k, LastLength(words[k]), ChantLegacy.LegacyStyle())
  {
    var entries :- EntriesAsWritten(words, text, 0, |words|);
    Success([ClefEntry(ChantLegacy.LegacyStyle())] + entries + [EndEntry()])
  }

  /** As written, word `k` is followed by a word space exactly when `k` is
      not one less than the length of its last syllable. */
  lemma TrailingSpaceAsWritten(words: seq<seq<string>>, text: seq<seq<string>>, k: nat)
    requires |text| >= |words| && k < |words| && |words[k]| > 0
    requires CombineAsWritten(words, text).Success?
    ensures var e := CombineAsWritten(words, text).value[k + 1];
            |e| > 0 && (e[|e| - 1].kind == WordSpace <==> k != LastLength(words[k]) - 1)
  {
    WordEntryEnds(words[k], text[k], k, LastLength(words[k]), ChantLegacy.LegacyStyle());
  }

  /** The words `ab` and `c`: as written, the last word is followed by a word
      space, because its last syllable has one character; the corrected
      stream ends the last word with its syllable. */
  lemma TrailingSpaceAfterLastWord()
    ensures var words := [["ab"], ["c"]];
            var text := [["x"], ["y"]];
            && CombineAsWritten(words, text).Success?
            && CombineTokens(words, text, ChantLegacy.LegacyStyle()).Success?
            && var written := CombineAsWritten(words, text).value[2];
               var corrected := CombineTokens(words, text, ChantLegacy.LegacyStyle()).value[2];
               && written[|written| - 1].kind == WordSpace
               && corrected[|corrected| - 1].kind == Syllable
  {
    var words := [["ab"], ["c"]];
    var text := [["x"], ["y"]];
    assert !HasEmptySyllable(words);
    assert LastLength(words[1]) == 1;
    TrailingSpaceAsWritten(words, text, 1);
    WordEntryEnds(words[1], text[1], 1, 2, ChantLegacy.LegacyStyle());
  }

  /** Lines 119-126 as written: a word-count mismatch raises, otherwise the
      as-written token stream. */
  function AlignSyllablesAndVolpianoAsWritten(syllables: seq<seq<string>>, volpiano: string)
    : (r: Result<seq<seq<Token>>, AlignError>)
    ensures r == Failure(UnequalLength) <==> |GetSyllables(volpiano)| != |syllables|
    ensures r.Failure? <==> |GetSyllables(volpiano)| != |syllables| || HasEmptySyllable(GetSyllables(volpiano))
    ensures r.Success? ==> |r.value| == |syllables| + 2
    ensures r.Success? ==> forall k :: 0 <= k < |syllables| ==>
              r.value[k + 1] == WordEntry(GetSyllables(volpiano)[k], syllables[k], k,
                                          LastLength(GetSyllables(volpiano)[k]), ChantLegacy.LegacyStyle())
  {
    var words := GetSyllables(volpiano);
    if |words| != |syllables| then Failure(UnequalLength)
    else CombineAsWritten(words, syllables)
  }

  /** Lines 119-126 corrected: the word space follows every word but the
      last. */
  function AlignSyllablesAndVolpiano(syllables: seq<seq<string>>, volpiano: string)
    : (r: Result<seq<seq<Token>>, AlignError>)
    ensures r == Failure(UnequalLength) <==> |GetSyllables(volpiano)| != |syllables|
    ensures r.Failure? <==> |GetSyllables(volpiano)| != |syllables| || HasEmptySyllable(GetSyllables(volpiano))
    ensures r.Success? ==>
              && |r.value| == |syllables| + 2
              && forall k :: 0 <= k < |syllables| ==>
                   && SyllablesOf(r.value[k + 1]) == GetSyllables(volpiano)[k]
                   && Concat(TextsOf(r.value[k + 1])) == Concat(syllables[k])
                   && |r.value[k + 1]| > 0
                   && (r.value[k + 1][|r.value[k + 1]| - 1].kind == WordSpace <==> k != |syllables| - 1)
  {
    var words := GetSyllables(volpiano);
    if |words| != |syllables| then Failure(UnequalLength)
    else
      var r := CombineTokens(words, syllables, ChantLegacy.LegacyStyle());
      if r.Success? then CombineTokensRecovers(words, syllables, ChantLegacy.LegacyStyle()); r
      else r
  }
}
