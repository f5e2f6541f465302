/** The first version of melody-text alignment: the melody must start with
    the clef `1`, its words are the `~`-pieces between the clef and the bar
    line, and the token stream uses dashes as spaces. The text arrives
    already split into words of syllables by a syllabifier outside this
    model. */
module ChantLegacy {
  import opened Outcomes
  import opened Strings
  import opened Tokens
  import opened ChantProcessor

  /** Three dashes after the clef and between words, two between syllables. */
  function LegacyStyle(): Style
  {
    Style("---", "--", "---")
  }

  /** Whether the first `~`-piece of the melody is exactly the clef `1`. */
  predicate HasClef(volpiano: string)
  {
    Split(volpiano, '~')[0] == "1"
  }

  /** Pairs the melody's words with the text's words: no clef, a different
      number of words and an empty melody syllable are errors, in that
      order. */
  function AlignSyllablesAndVolpiano(syllables: seq<seq<string>>, volpiano: string)
    : (r: Result<seq<seq<Token>>, AlignError>)
    ensures r == Failure(NoClef) <==> !HasClef(volpiano)
    ensures r == Failure(UnequalLength) <==> HasClef(volpiano) && |GetSyllables(volpiano)| != |syllables|
    ensures r == Failure(EmptySyllable) <==>
              HasClef(volpiano) && |GetSyllables(volpiano)| == |syllables| && HasEmptySyllable(GetSyllables(volpiano))
    ensures r.Success? ==>
              && |r.value| == |syllables| + 2
              && r.value[0] == [Token(Clef, "1", ""), Token(WordSpace, "---", "")]
              && r.value[|syllables| + 1] == [Token(EndSequence, "4", "")]
              && forall i :: 0 <= i < |syllables| ==>
                   && SyllablesOf(r.value[i + 1]) == GetSyllables(volpiano)[i]
                   && Concat(TextsOf(r.value[i + 1])) == Concat(syllables[i])
                   && (r.value[i + 1][|r.value[i + 1]| - 1].kind == WordSpace <==> i != |syllables| - 1)
  {
    var words := GetSyllables(volpiano);
    if !HasClef(volpiano) then Failure(NoClef)
    else if |words| != |syllables| then Failure(UnequalLength)
    else
      var r := CombineTokens(words, syllables, LegacyStyle());
      if r.Success? then CombineTokensRecovers(words, syllables, LegacyStyle()); r
      else r
  }

  /** A melody written as clef, words and bar line is accepted with a text
      of as many words, and hands its words back one entry each. */
  lemma AlignWrittenMelody(ws: seq<seq<string>>, syllables: seq<seq<string>>, bar: string)
    requires Spellable(ws) && !HasEmptySyllable(ws) && '~' !in bar
    requires |syllables| == |ws|
    ensures var r := AlignSyllablesAndVolpiano(syllables, "1~" + JoinWords(ws) + "~" + bar);
            r.Success? && forall i :: 0 <= i < |ws| ==> SyllablesOf(r.value[i + 1]) == ws[i]
  {
    var v := "1~" + JoinWords(ws) + "~" + bar;
    WrittenMelody(ws, bar);
    var r := AlignSyllablesAndVolpiano(syllables, v);
    assert r.Success?;
  }

  /** The clef and the words of a melody written as clef, words and bar
      line. */
  lemma WrittenMelody(ws: seq<seq<string>>, bar: string)
    requires Spellable(ws) && '~' !in bar
    ensures HasClef("1~" + JoinWords(ws) + "~" + bar)
    ensures GetSyllables("1~" + JoinWords(ws) + "~" + bar) == ws
  {
    var rest := JoinWords(ws) + "~" + bar;
    Regroup("1~", JoinWords(ws) + "~", bar);
    Regroup("1~", JoinWords(ws), "~");
    ClefFirst(rest);
    assert "1" + "~" == "1~";
    GetSyllablesOfJoin("1", ws, bar);
  }

  /** A melody that starts with `1~` has its clef. */
  lemma ClefFirst(rest: string)
    ensures HasClef("1~" + rest)
  {
    SplitAppend("1", rest, '~');
    SplitWithoutSeparator("1", '~');
    assert "1~" + rest == "1" + ['~'] + rest;
  }
}
