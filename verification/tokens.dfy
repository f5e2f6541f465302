/** The token stream that pairs a melody, split into words of syllables,
    with the syllables of its text: a clef and a word space, one entry per
    word (syllable tokens separated by syllable spaces, then a word space),
    and an end-of-sequence token. The aligner and its two older versions
    share this shape and differ in the volpiano they put into the spaces. */
module Tokens {
  import opened Outcomes
  import opened Strings

  datatype Kind = Clef | WordSpace | Syllable | SyllableSpace | EndSequence

  /** One token: its type, its volpiano characters and its text. */
  datatype Token = Token(kind: Kind, volpiano: string, text: string)

  /** The ways aligning a melody with its text can fail. */
  datatype AlignError =
    | NoClef           // the melody does not start with the clef `1`
    | UnequalLength    // melody and text have different word counts
    | EmptySyllable    // a melody syllable has no characters
    | IndexOutOfRange  // a list index past the end
    | EmptyBatch       // the maximum of an empty list
    | MafftFailure     // the multiple-sequence aligner did not deliver

  /** The volpiano of the word space after the clef, of a syllable space and
      of a word space. */
  datatype Style = Style(clefSpace: string, syllableSpace: string, wordSpace: string)

  function ClefEntry(style: Style): seq<Token>
  {
    [Token(Clef, "1", ""), Token(WordSpace, style.clefSpace, "")]
  }

  function EndEntry(): seq<Token>
  {
    [Token(EndSequence, "4", "")]
  }

  /** `n` empty text syllables. */
  function Blanks(n: nat): (r: seq<string>)
    ensures |r| == n
    ensures forall k :: 0 <= k < n ==> r[k] == ""
  {
    if n == 0 then [] else [""] + Blanks(n - 1)
  }

  lemma {:induction false} ConcatBlanks(n: nat)
    ensures Concat(Blanks(n)) == ""
  {
    if n > 0 {
      assert Blanks(n)[1..] == Blanks(n - 1);
      ConcatBlanks(n - 1);
    }
  }

  lemma ConcatSingle(s: string)
    ensures Concat([s]) == s
  {
    assert [s][1..] == [];
  }

  /** Merges the text syllables from position `cut` on into one. */
  function MergeFrom(cut: nat, t: seq<string>): (r: seq<string>)
    requires cut < |t|
    ensures |r| == cut + 1
    ensures r[..cut] == t[..cut] && r[cut] == Concat(t[cut..])
    ensures Concat(r) == Concat(t)
  {
    assert t == t[..cut] + t[cut..];
    ConcatAppend(t[..cut], t[cut..]);
    ConcatAppend(t[..cut], [Concat(t[cut..])]);
    ConcatSingle(Concat(t[cut..]));
    t[..cut] + [Concat(t[cut..])]
  }

  /** Merging from the last position changes nothing. */
  lemma MergeFromLast(t: seq<string>)
    requires |t| > 0
    ensures MergeFrom(|t| - 1, t) == t
  {
    assert t[|t| - 1..] == [t[|t| - 1]];
    ConcatSingle(t[|t| - 1]);
  }

  /** Fits the text syllables of one word to its `k` melody syllables:
      surplus syllables are merged into the last one, missing ones are
      empty. Python's `text[:k - 1]` is `text[:-1]` when `k` is 0, and then
      the text comes back as it was. */
  function ReconcileText(k: nat, t: seq<string>): (r: seq<string>)
    ensures k == 0 ==> r == t
    ensures k > 0 ==> |r| == k
    ensures k > 0 ==> Concat(r) == Concat(t)
    ensures |t| <= k ==> r[..|t|] == t && forall j :: |t| <= j < k ==> r[j] == ""
    ensures 0 < k < |t| ==> r[..k - 1] == t[..k - 1] && r[k - 1] == Concat(t[k - 1..])
  {
    var merged :=
      if k < |t| then MergeFrom(if k == 0 then |t| - 1 else k - 1, t)
      else t;
    assert k == 0 && |t| > 0 ==> MergeFrom(|t| - 1, t) == t by {
      if k == 0 && |t| > 0 {
        MergeFromLast(t);
      }
    }
    if |merged| < k then
      ConcatAppend(merged, Blanks(k - |merged|));
      ConcatBlanks(k - |merged|);
      assert Concat(merged) + "" == Concat(merged);
      merged + Blanks(k - |merged|)
    else merged
  }

  /** One syllable token per melody syllable, paired with the text syllable
      at the same position, with a syllable space between neighbours. */
  function SyllableTokens(word: seq<string>, text: seq<string>, space: string): (r: seq<Token>)
    requires |text| >= |word|
    ensures |word| == 0 ==> r == []
    ensures |word| > 0 ==> |r| == 2 * |word| - 1
  {
    if |word| == 0 then []
    else if |word| == 1 then [Token(Syllable, word[0], text[0])]
    else
      var rest := SyllableTokens(word[1..], text[1..], space);
      [Token(Syllable, word[0], text[0]), Token(SyllableSpace, space, "-")] + rest
  }

  /** Token `2m` carries melody syllable `m` and its text partner, and token
      `2m + 1` is a syllable space. */
  lemma {:induction false} SyllableTokensAt(word: seq<string>, text: seq<string>, space: string, m: nat)
    requires |text| >= |word| && m < |word|
    ensures SyllableTokens(word, text, space)[2 * m] == Token(Syllable, word[m], text[m])
    ensures m < |word| - 1 ==> SyllableTokens(word, text, space)[2 * m + 1] == Token(SyllableSpace, space, "-")
  {
    if m > 0 {
      SyllableTokensAt(word[1..], text[1..], space, m - 1);
    }
  }

  /** The volpiano of the syllable tokens, in order. */
  function SyllablesOf(tokens: seq<Token>): seq<string>
  {
    if tokens == [] then []
    else (if tokens[0].kind == Syllable then [tokens[0].volpiano] else []) + SyllablesOf(tokens[1..])
  }

  /** The text of the syllable tokens, in order. */
  function TextsOf(tokens: seq<Token>): seq<string>
  {
    if tokens == [] then []
    else (if tokens[0].kind == Syllable then [tokens[0].text] else []) + TextsOf(tokens[1..])
  }

  lemma {:induction false} SyllablesOfAppend(a: seq<Token>, b: seq<Token>)
    ensures SyllablesOf(a + b) == SyllablesOf(a) + SyllablesOf(b)
    ensures TextsOf(a + b) == TextsOf(a) + TextsOf(b)
  {
    if a != [] {
      assert (a + b)[1..] == a[1..] + b;
      SyllablesOfAppend(a[1..], b);
    } else {
      assert a + b == b;
    }
  }

  /** The syllable tokens of a word carry its melody syllables and their
      text partners, nothing else. */
  lemma {:induction false} SyllableTokensRecover(word: seq<string>, text: seq<string>, space: string)
    requires |text| >= |word|
    ensures SyllablesOf(SyllableTokens(word, text, space)) == word
    ensures TextsOf(SyllableTokens(word, text, space)) == text[..|word|]
  {
    if |word| == 1 {
      assert SyllableTokens(word, text, space)[1..] == [];
    } else if |word| > 1 {
      var rest := SyllableTokens(word[1..], text[1..], space);
      SyllableTokensRecover(word[1..], text[1..], space);
      var head := [Token(Syllable, word[0], text[0]), Token(SyllableSpace, space, "-")];
      SyllablesOfAppend(head, rest);
      assert head[1..][1..] == [];
      assert word == [word[0]] + word[1..];
      assert text[..|word|] == [text[0]] + text[1..][..|word| - 1];
    }
  }

  /** A melody syllable with no characters in word `i` or later. */
  predicate EmptySyllableFrom(words: seq<seq<string>>, i: nat)
  {
    exists a, j :: i <= a < |words| && 0 <= j < |words[a]| && words[a][j] == ""
  }

  /** A melody syllable with no characters somewhere in the words. */
  predicate HasEmptySyllable(words: seq<seq<string>>)
  {
    EmptySyllableFrom(words, 0)
  }

  /** The entry for word `i` of `count` words: its syllable tokens with the
      reconciled text, then a word space unless it is the last word. */
  function WordEntry(word: seq<string>, text: seq<string>, i: nat, count: nat, style: Style): seq<Token>
  {
    var fitted := ReconcileText(|word|, text);
    SyllableTokens(word, fitted, style.syllableSpace)
      + (if i != count - 1 then [Token(WordSpace, style.wordSpace, "")] else [])
  }

  /** Whether the words from `i` on hold an empty syllable, one word at a time. */
  lemma EmptySyllableStep(words: seq<seq<string>>, i: nat)
    requires i < |words|
    ensures EmptySyllableFrom(words, i) <==> ("" in words[i] || EmptySyllableFrom(words, i + 1))
  {
    if "" in words[i] {
      var j :| 0 <= j < |words[i]| && words[i][j] == "";
    }
  }

  /** The word entries from word `i` on, failing on an empty syllable. */
  function WordEntries(words: seq<seq<string>>, text: seq<seq<string>>, i: nat, style: Style)
    : (r: Result<seq<seq<Token>>, AlignError>)
    requires i <= |words| <= |text|
    ensures r.Failure? <==> EmptySyllableFrom(words, i)
    ensures r.Failure? ==> r.error == EmptySyllable
    ensures r.Success? ==> |r.value| == |words| - i
    ensures r.Success? ==> forall k :: i <= k < |words| ==>
              r.value[k - i] == WordEntry(words[k], text[k], k, |words|, style)
    decreases |words| - i
  {
    if i == |words| then Success([])
    else
      EmptySyllableStep(words, i);
      if "" in words[i] then Failure(EmptySyllable)
      else
        var rest := WordEntries(words, text, i + 1, style);
        if rest.Failure? then rest
        else
          EntriesStep(words, text, i, style, rest.value);
          Success([WordEntry(words[i], text[i], i, |words|, style)] + rest.value)
  }

  /** Putting word `i`'s entry before the entries of the later words gives
      the entries from word `i` on. */
  lemma EntriesStep(words: seq<seq<string>>, text: seq<seq<string>>, i: nat, style: Style, rest: seq<seq<Token>>)
    requires i < |words| <= |text| && |rest| == |words| - i - 1
    requires forall k :: i + 1 <= k < |words| ==> rest[k - (i + 1)] == WordEntry(words[k], text[k], k, |words|, style)
    ensures var entries := [WordEntry(words[i], text[i], i, |words|, style)] + rest;
            forall k :: i <= k < |words| ==> entries[k - i] == WordEntry(words[k], text[k], k, |words|, style)
  {
    var entries := [WordEntry(words[i], text[i], i, |words|, style)] + rest;
    forall k | i < k < |words|
      ensures entries[k - i] == WordEntry(words[k], text[k], k, |words|, style)
    {
      assert entries[k - i] == rest[k - (i + 1)];
    }
  }

  /** The whole token stream: clef entry, word entries, end entry. Python
      raises on the first empty syllable. */
  function CombineTokens(words: seq<seq<string>>, text: seq<seq<string>>, style: Style)
    : (r: Result<seq<seq<Token>>, AlignError>)
    requires |text| >= |words|
    ensures r.Failure? <==> HasEmptySyllable(words)
    ensures r.Failure? ==> r.error == EmptySyllable
    ensures r.Success? ==>
              && |r.value| == |words| + 2
              && r.value[0] == ClefEntry(style)
              && r.value[|words| + 1] == EndEntry()
              && forall i :: 0 <= i < |words| ==>
                   r.value[i + 1] == WordEntry(words[i], text[i], i, |words|, style)
  {
    var entries :- WordEntries(words, text, 0, style);
    Success([ClefEntry(style)] + entries + [EndEntry()])
  }

  /** Each word entry hands back the word's melody syllables, and its text
      syllables put together are the word's text put together: merging
      surplus text syllables loses no text. */
  lemma WordEntryRecovers(word: seq<string>, text: seq<string>, i: nat, count: nat, style: Style)
    requires |word| > 0
    ensures SyllablesOf(WordEntry(word, text, i, count, style)) == word
    ensures Concat(TextsOf(WordEntry(word, text, i, count, style))) == Concat(text)
  {
    var fitted := ReconcileText(|word|, text);
    var tokens := SyllableTokens(word, fitted, style.syllableSpace);
    var tail := if i != count - 1 then [Token(WordSpace, style.wordSpace, "")] else [];
    SyllableTokensRecover(word, fitted, style.syllableSpace);
    SyllablesOfAppend(tokens, tail);
    assert fitted[..|word|] == fitted;
    assert SyllablesOf(tail) == [] && TextsOf(tail) == [];
    assert TextsOf(tokens + tail) == fitted + [] == fitted;
    assert WordEntry(word, text, i, count, style) == tokens + tail;
  }

  /** A word entry ends in a word space exactly when `i` is not the last of
      `count` positions; otherwise it ends with the word's last syllable. */
  lemma WordEntryEnds(word: seq<string>, text: seq<string>, i: nat, count: nat, style: Style)
    requires |word| > 0
    ensures var e := WordEntry(word, text, i, count, style);
            |e| > 0 && (e[|e| - 1].kind == WordSpace <==> i != count - 1)
    ensures var e := WordEntry(word, text, i, count, style);
            i == count - 1 ==> e[|e| - 1] == Token(Syllable, word[|word| - 1], ReconcileText(|word|, text)[|word| - 1])
  {
    var fitted := ReconcileText(|word|, text);
    var tokens := SyllableTokens(word, fitted, style.syllableSpace);
    SyllableTokensAt(word, fitted, style.syllableSpace, |word| - 1);
  }

  /** Every word entry of a token stream hands back its melody syllables and
      its text, and ends in a word space exactly when it is not the last. */
  lemma CombineTokensRecovers(words: seq<seq<string>>, text: seq<seq<string>>, style: Style)
    requires |text| >= |words|
    requires forall i :: 0 <= i < |words| ==> |words[i]| > 0
    requires CombineTokens(words, text, style).Success?
    ensures var r := CombineTokens(words, text, style).value;
            forall i :: 0 <= i < |words| ==>
              && SyllablesOf(r[i + 1]) == words[i]
              && Concat(TextsOf(r[i + 1])) == Concat(text[i])
              && |r[i + 1]| > 0
              && (r[i + 1][|r[i + 1]| - 1].kind == WordSpace <==> i != |words| - 1)
  {
    forall i | 0 <= i < |words|
      ensures var r := CombineTokens(words, text, style).value;
              && SyllablesOf(r[i + 1]) == words[i]
              && Concat(TextsOf(r[i + 1])) == Concat(text[i])
              && |r[i + 1]| > 0
              && (r[i + 1][|r[i + 1]| - 1].kind == WordSpace <==> i != |words| - 1)
    {
      EntryRecovers(words, text, style, i);
    }
  }

  /** The entry of word `i` in a token stream. */
  lemma EntryRecovers(words: seq<seq<string>>, text: seq<seq<string>>, style: Style, i: nat)
    requires |text| >= |words| && i < |words| && |words[i]| > 0
    requires CombineTokens(words, text, style).Success?
    ensures var r := CombineTokens(words, text, style).value;
            && SyllablesOf(r[i + 1]) == words[i]
            && Concat(TextsOf(r[i + 1])) == Concat(text[i])
            && |r[i + 1]| > 0
            && (r[i + 1][|r[i + 1]| - 1].kind == WordSpace <==> i != |words| - 1)
  {
    WordEntryRecovers(words[i], text[i], i, |words|, style);
    WordEntryEnds(words[i], text[i], i, |words|, style);
  }
}
