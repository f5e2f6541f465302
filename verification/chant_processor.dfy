/** The structural side of a volpiano melody: dash runs rewritten into word
    (`~`) and syllable (`|`) separators, the split into words of syllables,
    the word-count check against a syllabified text, dummy-word padding of
    the text, and the display name used for tree leaves. */
module ChantProcessor {
  import opened Outcomes
  import opened Strings

  // ---------------------------------------------------------------------------
  // separator insertion

  /** `'---'` becomes `'~'`, then `'--'` becomes `'|'`, then every remaining
      `'-'` is dropped: three passes of Python's `str.replace`. */
  function InsertSeparators(v: string): (r: string)
    ensures '-' !in r
  {
    var words := Replace(v, "---", "~");
    var syllables := Replace(words, "--", "|");
    ReplaceCharRemoves(syllables, '-', "");
    Replace(syllables, "-", "")
  }

  /** Length of the run of dashes that starts `v`. */
  function LeadingDashes(v: string): (n: nat)
    ensures n <= |v|
    ensures forall k :: 0 <= k < n ==> v[k] == '-'
    ensures n < |v| ==> v[n] != '-'
  {
    if v == [] || v[0] != '-' then 0 else 1 + LeadingDashes(v[1..])
  }

  /** What a maximal run of `n` dashes stands for: one word boundary per
      three dashes, and a syllable boundary when two are left over. */
  function RunCode(n: nat): (r: string)
    ensures '-' !in r
  {
    Repeat('~', n / 3) + (if n % 3 == 2 then "|" else "")
  }

  /** Reference reading of the notation, one maximal dash run at a time. */
  function Rewrite(v: string): (r: string)
    decreases |v|
  {
    if v == [] then ""
    else if v[0] != '-' then [v[0]] + Rewrite(v[1..])
    else
      var n := LeadingDashes(v);
      RunCode(n) + Rewrite(v[n..])
  }

  /** A dash or a separator: the characters of the notation's structure. */
  predicate IsStructural(c: char)
  {
    c == '-' || c == '~' || c == '|'
  }

  /** What one `replace` pass with a pattern of `p` dashes makes of a
      maximal run of `n` dashes followed by `tail`: `rep` for every full
      pattern, then the leftover dashes. */
  function RunPass(n: nat, p: nat, rep: string, tail: string): string
    requires p > 0
    decreases n
  {
    if n >= p then rep + RunPass(n - p, p, rep, tail) else Repeat('-', n) + tail
  }

  /** A leading pattern of dashes is replaced. */
  lemma PassStep(n: nat, w: string, pat: string, rep: string)
    requires 0 < |pat| <= n
    requires pat == Repeat('-', |pat|)
    ensures Replace(Repeat('-', n) + w, pat, rep) == rep + Replace(Repeat('-', n - |pat|) + w, pat, rep)
  {
    var s := Repeat('-', n) + w;
    assert s[..|pat|] == pat;
    assert s[|pat|..] == Repeat('-', n - |pat|) + w;
  }

  /** Too few dashes before a non-dash to make a pattern are copied. */
  lemma {:induction false} PassShort(n: nat, w: string, pat: string, rep: string)
    requires n < |pat|
    requires pat == Repeat('-', |pat|)
    requires w == [] || w[0] != '-'
    ensures Replace(Repeat('-', n) + w, pat, rep) == Repeat('-', n) + Replace(w, pat, rep)
    decreases n
  {
    var s := Repeat('-', n) + w;
    if n == 0 {
      assert s == w;
    } else if |s| < |pat| {
      assert Replace(w, pat, rep) == w;
    } else {
      ShortRunHead(n, w, pat, rep);
      PassShort(n - 1, w, pat, rep);
      Regroup(['-'], Repeat('-', n - 1), Replace(w, pat, rep));
    }
  }

  /** A run too short for the pattern cannot match at its first dash. */
  lemma ShortRunHead(n: nat, w: string, pat: string, rep: string)
    requires 0 < n < |pat| <= n + |w|
    requires pat == Repeat('-', |pat|)
    requires w[0] != '-'
    ensures Replace(Repeat('-', n) + w, pat, rep) == ['-'] + Replace(Repeat('-', n - 1) + w, pat, rep)
  {
    var s := Repeat('-', n) + w;
    assert s[..|pat|] != pat by {
      assert s[..|pat|][n] == w[0] != pat[n];
    }
    assert s[1..] == Repeat('-', n - 1) + w;
  }

  /** One pass over a maximal run of dashes. */
  lemma {:induction false} PassOnRun(n: nat, w: string, pat: string, rep: string)
    requires 0 < |pat|
    requires pat == Repeat('-', |pat|)
    requires w == [] || w[0] != '-'
    ensures Replace(Repeat('-', n) + w, pat, rep) == RunPass(n, |pat|, rep, Replace(w, pat, rep))
    decreases n
  {
    if n >= |pat| {
      PassStep(n, w, pat, rep);
      PassOnRun(n - |pat|, w, pat, rep);
    } else {
      PassShort(n, w, pat, rep);
    }
  }

  /** Three dashes at a time become `~`, and the rest stay. */
  lemma {:induction false} WordRun(n: nat, tail: string)
    ensures RunPass(n, 3, "~", tail) == Repeat('~', n / 3) + (Repeat('-', n % 3) + tail)
    decreases n
  {
    if n >= 3 {
      WordRun(n - 3, tail);
      var rest := Repeat('-', n % 3) + tail;
      assert Repeat('~', n / 3) == "~" + Repeat('~', (n - 3) / 3);
      Regroup("~", Repeat('~', (n - 3) / 3), rest);
    }
  }

  /** Two dashes at a time become `|`, and the rest stay. */
  lemma {:induction false} SyllableRun(n: nat, tail: string)
    ensures RunPass(n, 2, "|", tail) == Repeat('|', n / 2) + (Repeat('-', n % 2) + tail)
    decreases n
  {
    if n >= 2 {
      SyllableRun(n - 2, tail);
      var rest := Repeat('-', n % 2) + tail;
      assert Repeat('|', n / 2) == "|" + Repeat('|', (n - 2) / 2);
      Regroup("|", Repeat('|', (n - 2) / 2), rest);
    }
  }

  /** A pass whose pattern starts with a dash copies a leading non-dash. */
  lemma NonDashHead(c: char, w: string)
    requires c != '-'
    ensures Replace([c] + w, "---", "~") == [c] + Replace(w, "---", "~")
    ensures Replace([c] + w, "--", "|") == [c] + Replace(w, "--", "|")
    ensures Replace([c] + w, "-", "") == [c] + Replace(w, "-", "")
  {
    ReplaceSkipsHead(c, w, "---", "~");
    ReplaceSkipsHead(c, w, "--", "|");
    ReplaceSkipsHead(c, w, "-", "");
  }

  /** A leading non-dash goes through all three passes unchanged. */
  lemma NonDashThroughPasses(c: char, w: string)
    requires c != '-'
    ensures InsertSeparators([c] + w) == [c] + InsertSeparators(w)
  {
    NonDashHead(c, w);
    var w3 := Replace(w, "---", "~");
    NonDashHead(c, w3);
    NonDashHead(c, Replace(w3, "--", "|"));
  }

  /** The first pass on a maximal run of dashes. */
  lemma WordPassOnRun(n: nat, w: string)
    requires w == [] || w[0] != '-'
    ensures Replace(Repeat('-', n) + w, "---", "~")
         == Repeat('~', n / 3) + (Repeat('-', n % 3) + Replace(w, "---", "~"))
  {
    PassOnRun(n, w, "---", "~");
    WordRun(n, Replace(w, "---", "~"));
  }

  /** The second pass after the first, on what a run of dashes became. */
  lemma SyllablePassOnRun(q: nat, m: nat, w3: string)
    requires m < 3
    requires w3 == [] || w3[0] != '-'
    ensures Replace(Repeat('~', q) + (Repeat('-', m) + w3), "--", "|")
         == Repeat('~', q) + (Repeat('|', m / 2) + (Repeat('-', m % 2) + Replace(w3, "--", "|")))
  {
    ReplaceSkipsPrefix(Repeat('~', q), Repeat('-', m) + w3, "--", "|");
    PassOnRun(m, w3, "--", "|");
    SyllableRun(m, Replace(w3, "--", "|"));
  }

  /** The third pass drops the dash left over from an odd run. */
  lemma DashPassOnRun(q: nat, b: nat, d: nat, w2: string)
    requires d < 2
    ensures Replace(Repeat('~', q) + (Repeat('|', b) + (Repeat('-', d) + w2)), "-", "")
         == Repeat('~', q) + (Repeat('|', b) + Replace(w2, "-", ""))
  {
    var tildes, bars, dashes := Repeat('~', q), Repeat('|', b), Repeat('-', d);
    var r2 := Replace(w2, "-", "");
    ReplaceCharAppend(dashes, w2, '-', "");
    ReplaceCharByNothing(dashes, '-', c => c != '-');
    FilterNone(dashes, c => c != '-');
    assert Replace(dashes + w2, "-", "") == r2;
    ReplaceCharAppend(bars, dashes + w2, '-', "");
    ReplaceCharAbsent(bars, '-', "");
    assert Replace(bars + (dashes + w2), "-", "") == bars + r2;
    ReplaceCharAppend(tildes, bars + (dashes + w2), '-', "");
    ReplaceCharAbsent(tildes, '-', "");
  }

  /** A maximal leading run of `n` dashes comes out as `RunCode(n)`. */
  lemma DashRunThroughPasses(n: nat, w: string)
    requires w == [] || w[0] != '-'
    ensures InsertSeparators(Repeat('-', n) + w) == RunCode(n) + InsertSeparators(w)
  {
    var w3 := Replace(w, "---", "~");
    var w2 := Replace(w3, "--", "|");
    if w != [] {
      NonDashHead(w[0], w[1..]);
      assert w == [w[0]] + w[1..];
    }
    WordPassOnRun(n, w);
    SyllablePassOnRun(n / 3, n % 3, w3);
    DashPassOnRun(n / 3, n % 3 / 2, n % 3 % 2, w2);
    Regroup(Repeat('~', n / 3), Repeat('|', n % 3 / 2), Replace(w2, "-", ""));
    assert Repeat('|', n % 3 / 2) == (if n % 3 == 2 then "|" else "");
  }

  /** The three passes compute the run-by-run reading: a maximal run of `n`
      dashes becomes `n / 3` word separators followed by a syllable separator
      exactly when `n % 3 == 2`, and every other character stays in place. */
  lemma {:induction false} InsertSeparatorsRewritesRuns(v: string)
    ensures InsertSeparators(v) == Rewrite(v)
    decreases |v|
  {
    if v == [] {
    } else if v[0] != '-' {
      assert v == [v[0]] + v[1..];
      NonDashThroughPasses(v[0], v[1..]);
      InsertSeparatorsRewritesRuns(v[1..]);
    } else {
      var n := LeadingDashes(v);
      assert v == Repeat('-', n) + v[n..];
      DashRunThroughPasses(n, v[n..]);
      InsertSeparatorsRewritesRuns(v[n..]);
    }
  }

  /** Every character that is neither a dash nor a separator survives
      separator insertion, in order. */
  lemma {:induction false} RewriteKeepsNotes(v: string)
    ensures Filter(Rewrite(v), c => !IsStructural(c)) == Filter(v, c => !IsStructural(c))
    decreases |v|
  {
    var keep := c => !IsStructural(c);
    if v == [] {
    } else if v[0] != '-' {
      RewriteKeepsNotes(v[1..]);
      FilterAppend([v[0]], Rewrite(v[1..]), keep);
    } else {
      var n := LeadingDashes(v);
      RewriteKeepsNotes(v[n..]);
      FilterAppend(RunCode(n), Rewrite(v[n..]), keep);
      FilterNone(RunCode(n), keep);
      assert v == v[..n] + v[n..];
      FilterAppend(v[..n], v[n..], keep);
      FilterNone(v[..n], keep);
    }
  }

  lemma InsertSeparatorsKeepsNotes(v: string)
    ensures Filter(InsertSeparators(v), c => !IsStructural(c)) == Filter(v, c => !IsStructural(c))
  {
    InsertSeparatorsRewritesRuns(v);
    RewriteKeepsNotes(v);
  }

  // ---------------------------------------------------------------------------
  // words and syllables

  /** The `~`-separated pieces without the first (clef) and the last (bar
      line); Python's slice `[1:-1]` is empty when there are fewer than three
      pieces. */
  function Words(v: string): (r: seq<string>)
    ensures |r| == if Count(v, '~') >= 1 then Count(v, '~') - 1 else 0
    ensures forall k :: 0 <= k < |r| ==> r[k] == Split(v, '~')[k + 1]
  {
    var pieces := Split(v, '~');
    if |pieces| < 2 then [] else pieces[1..|pieces| - 1]
  }

  /** Each word split into its `|`-separated syllables. */
  function SplitWords(words: seq<string>): (r: seq<seq<string>>)
    ensures |r| == |words|
    ensures forall k :: 0 <= k < |r| ==> r[k] == Split(words[k], '|')
  {
    if words == [] then [] else [Split(words[0], '|')] + SplitWords(words[1..])
  }

  /** The melody as words of syllables. */
  function GetSyllables(v: string): (r: seq<seq<string>>)
    ensures |r| == if Count(v, '~') >= 1 then Count(v, '~') - 1 else 0
    ensures forall k :: 0 <= k < |r| ==> |r[k]| == Count(Split(v, '~')[k + 1], '|') + 1
    ensures forall k, j :: 0 <= k < |r| && 0 <= j < |r[k]| ==> '~' !in r[k][j] && '|' !in r[k][j]
  {
    var words := Words(v);
    forall k | 0 <= k < |words|
      ensures forall j :: 0 <= j < |Split(words[k], '|')| ==> '~' !in Split(words[k], '|')[j]
    {
      SplitAvoids(words[k], '|', '~');
    }
    SplitWords(words)
  }

  /** Each word's syllables joined with `|`. */
  function JoinEach(ws: seq<seq<string>>): (r: seq<string>)
    ensures |r| == |ws|
    ensures forall k :: 0 <= k < |r| ==> r[k] == Join(ws[k], "|")
  {
    if ws == [] then [] else [Join(ws[0], "|")] + JoinEach(ws[1..])
  }

  /** Words of syllables written back with `|` inside words and `~` between. */
  function JoinWords(ws: seq<seq<string>>): string
  {
    Join(JoinEach(ws), "~")
  }

  /** Whether `ws` is something the notation can spell: at least one word,
      every word with a syllable, and no separator inside a syllable. */
  predicate Spellable(ws: seq<seq<string>>)
  {
    && |ws| > 0
    && (forall k :: 0 <= k < |ws| ==> |ws[k]| > 0)
    && (forall k, j :: 0 <= k < |ws| && 0 <= j < |ws[k]| ==> '~' !in ws[k][j] && '|' !in ws[k][j])
  }

  /** Joining each split word gives the words back. */
  lemma JoinEachSplitWords(words: seq<string>)
    ensures JoinEach(SplitWords(words)) == words
  {
    forall k | 0 <= k < |words|
      ensures JoinEach(SplitWords(words))[k] == words[k]
    {
      JoinSplit(words[k], '|');
    }
  }

  /** Splitting each joined word gives the syllables back. */
  lemma SplitWordsJoinEach(ws: seq<seq<string>>)
    requires Spellable(ws)
    ensures SplitWords(JoinEach(ws)) == ws
  {
    forall k | 0 <= k < |ws|
      ensures SplitWords(JoinEach(ws))[k] == ws[k]
    {
      SplitJoin(ws[k], '|');
    }
  }

  /** A join whose first and last pieces are set apart. */
  lemma JoinFrame(first: string, middle: seq<string>, last: string)
    requires |middle| > 0
    ensures Join([first] + middle + [last], "~") == first + "~" + Join(middle, "~") + "~" + last
  {
    assert ([first] + middle)[1..] == middle;
    JoinSnoc([first] + middle, last, "~");
    JoinSnoc(middle, last, "~");
  }

  /** Splitting a framed join gives the frame and the pieces. */
  lemma SplitFrame(clef: string, joined: seq<string>, bar: string)
    requires '~' !in clef && '~' !in bar
    requires |joined| > 0 && forall k :: 0 <= k < |joined| ==> '~' !in joined[k]
    ensures Split(clef + "~" + Join(joined, "~") + "~" + bar, '~') == [clef] + joined + [bar]
  {
    var middle := Join(joined, "~");
    SplitJoin(joined, '~');
    SplitWithoutSeparator(clef, '~');
    SplitWithoutSeparator(bar, '~');
    var tail := middle + "~" + bar;
    SplitAppend(middle, bar, '~');
    SplitAppend(clef, tail, '~');
    Regroup(clef + "~", middle + "~", bar);
    Regroup(clef + "~", middle, "~");
    assert clef + "~" + middle + "~" + bar == clef + "~" + tail;
    Regroup([clef], joined, [bar]);
  }

  /** A sequence of at least two elements is its first, its middle and its last. */
  lemma Framed<T>(s: seq<T>)
    requires |s| >= 2
    ensures s == [s[0]] + s[1..|s| - 1] + [s[|s| - 1]]
  {
  }

  /** Joining the words back recovers exactly the text between the first and
      the last word separator. */
  lemma SyllablesRecoverText(v: string)
    requires Count(v, '~') >= 2
    ensures var pieces := Split(v, '~');
            v == pieces[0] + "~" + JoinWords(GetSyllables(v)) + "~" + pieces[|pieces| - 1]
  {
    var pieces := Split(v, '~');
    var words := Words(v);
    assert words == pieces[1..|pieces| - 1];
    Framed(pieces);
    JoinSplit(v, '~');
    JoinFrame(pieces[0], words, pieces[|pieces| - 1]);
    JoinEachSplitWords(words);
  }

  /** Splitting a spelled melody gives back its words of syllables, whatever
      clef and bar line surround it. */
  lemma GetSyllablesOfJoin(clef: string, ws: seq<seq<string>>, bar: string)
    requires '~' !in clef && '~' !in bar
    requires Spellable(ws)
    ensures GetSyllables(clef + "~" + JoinWords(ws) + "~" + bar) == ws
  {
    var joined := JoinEach(ws);
    forall k | 0 <= k < |joined|
      ensures '~' !in joined[k]
    {
      JoinAvoids(ws[k], "|", '~');
    }
    SplitFrame(clef, joined, bar);
    var pieces := [clef] + joined + [bar];
    assert pieces[1..|pieces| - 1] == joined;
    SplitWordsJoinEach(ws);
  }

  lemma SyllablesExample()
    ensures GetSyllables("1~ab|c~ab~4") == [["ab", "c"], ["ab"]]
  {
    var ws := [["ab", "c"], ["ab"]];
    ExampleWords();
    GetSyllablesOfJoin("1", ws, "4");
    assert "1" + "~" + "ab|c~ab" + "~" + "4" == "1~ab|c~ab~4";
  }

  lemma ExampleWords()
    ensures Spellable([["ab", "c"], ["ab"]])
    ensures JoinWords([["ab", "c"], ["ab"]]) == "ab|c~ab"
  {
    var ws := [["ab", "c"], ["ab"]];
    assert ws[0][1..] == ["c"];
    assert Join(ws[0], "|") == "ab|c";
    assert JoinEach(ws) == ["ab|c", "ab"];
    assert ["ab|c", "ab"][1..] == ["ab"];
  }

  // ---------------------------------------------------------------------------
  // melody and text

  /** Melody and text can be combined when they have as many words. */
  predicate Compatible<S, T>(melody: seq<S>, text: seq<T>)
  {
    |melody| == |text|
  }

  /** One `'#'` placeholder per syllable of a melody word. */
  function DummyWord(word: seq<string>): (r: seq<string>)
    ensures |r| == |word|
    ensures forall k :: 0 <= k < |r| ==> r[k] == "#"
  {
    seq(|word|, _ => "#")
  }

  function DummyWords(words: seq<seq<string>>): (r: seq<seq<string>>)
    ensures |r| == |words|
    ensures forall k :: 0 <= k < |r| ==> r[k] == DummyWord(words[k])
  {
    if words == [] then [] else [DummyWord(words[0])] + DummyWords(words[1..])
  }

  /** Pads the text with dummy words when the melody has more words; the
      melody is returned as it came. */
  function FixCompatibility(melody: seq<seq<string>>, text: seq<seq<string>>)
    : (r: (seq<seq<string>>, seq<seq<string>>))
    ensures r.0 == melody
    ensures |melody| > |text| ==>
              && |r.1| == |melody|
              && r.1[..|text|] == text
              && forall k :: |text| <= k < |melody| ==>
                   |r.1[k]| == |melody[k]| && forall j :: 0 <= j < |r.1[k]| ==> r.1[k][j] == "#"
    ensures |melody| <= |text| ==> r.1 == text
    ensures Compatible(r.0, r.1) <==> |melody| >= |text|
  {
    var diff := |melody| - |text|;
    if diff > 0 then (melody, text + DummyWords(melody[|melody| - diff..]))
    else (melody, text)
  }

  // ---------------------------------------------------------------------------
  // display names

  /** Python truthiness of an optional text field. */
  predicate Falsy(v: Option<string>)
  {
    v.None? || v.value == ""
  }

  function OrDefault(v: Option<string>, default: string): (r: string)
    ensures Falsy(v) ==> r == default
    ensures !Falsy(v) ==> r == v.value
  {
    if Falsy(v) then default else v.value
  }

  /** `'_'.join(s.split())`: whitespace runs become one underscore. */
  function Underscored(s: string): (r: string)
    ensures NoWhitespace(r)
  {
    JoinNoWhitespace(WhitespaceSplit(s), "_");
    Join(WhitespaceSplit(s), "_")
  }

  predicate NotUnderscore(c: char) { c != '_' }
  predicate IncipitChar(c: char) { !IsPyWhitespace(c) && c != '_' }
  predicate SiglumChar(c: char) { !IsPyWhitespace(c) && c != '_' && c != '(' && c != ')' }

  /** The characters other than whitespace survive `Underscored`. */
  lemma UnderscoredKeepsText(s: string)
    ensures Filter(Underscored(s), NotUnderscore) == Filter(s, IncipitChar)
  {
    FilterJoin(WhitespaceSplit(s), '_', NotUnderscore);
    WhitespaceSplitKeepsText(s);
    FilterFilter(s, c => !IsPyWhitespace(c), NotUnderscore, IncipitChar);
  }

  function RemoveParentheses(s: string): (r: string)
    ensures '(' !in r && ')' !in r
  {
    var once := Replace(s, "(", "");
    ReplaceCharRemoves(s, '(', "");
    ReplaceCharRemoves(once, ')', "");
    ReplaceCharKeepsAbsent(once, ')', "", '(');
    Replace(once, ")", "")
  }

  /** Removing parentheses deletes them and nothing else. */
  lemma RemoveParenthesesKeepsText(s: string)
    ensures Filter(RemoveParentheses(s), IncipitChar) == Filter(s, SiglumChar)
  {
    var once := Replace(s, "(", "");
    ReplaceCharByNothing(s, '(', c => c != '(');
    ReplaceCharByNothing(once, ')', c => c != ')');
    FilterFilter(s, c => c != '(', c => c != ')', c => c != '(' && c != ')');
    FilterFilter(s, c => c != '(' && c != ')', IncipitChar, SiglumChar);
  }

  /** The incipit part of a leaf name: its words joined by underscores. */
  function IncipitName(incipit: Option<string>): (r: string)
    ensures NoWhitespace(r)
    ensures Filter(r, NotUnderscore) == Filter(OrDefault(incipit, "[unnamed]"), IncipitChar)
  {
    UnderscoredKeepsText(OrDefault(incipit, "[unnamed]"));
    Underscored(OrDefault(incipit, "[unnamed]"))
  }

  /** The source part of a leaf name: the siglum's words without
      parentheses, joined by underscores. */
  function SiglumName(siglum: Option<string>): (r: string)
    ensures NoWhitespace(r)
    ensures '(' !in r && ')' !in r
    ensures Filter(r, NotUnderscore) == Filter(OrDefault(siglum, "[nosource]"), SiglumChar)
  {
    var bare := RemoveParentheses(OrDefault(siglum, "[nosource]"));
    UnderscoredKeepsText(bare);
    RemoveParenthesesKeepsText(OrDefault(siglum, "[nosource]"));
    WhitespaceSplitAvoids(bare, '(');
    WhitespaceSplitAvoids(bare, ')');
    JoinAvoids(WhitespaceSplit(bare), "_", '(');
    JoinAvoids(WhitespaceSplit(bare), "_", ')');
    Underscored(bare)
  }

  /** The leaf name for a chant: incipit words, two underscores, siglum words
      without parentheses, with `[unnamed]` and `[nosource]` standing in for a
      missing or empty field. The name has no whitespace, and apart from the
      underscores it spells the incipit and then the siglum. */
  function BuildNewickName(incipit: Option<string>, siglum: Option<string>): (r: string)
    ensures NoWhitespace(r)
    ensures Filter(r, NotUnderscore)
         == Filter(OrDefault(incipit, "[unnamed]"), IncipitChar)
          + Filter(OrDefault(siglum, "[nosource]"), SiglumChar)
  {
    var first, second := IncipitName(incipit), SiglumName(siglum);
    JoinedName(first, second);
    first + "__" + second
  }

  /** Two whitespace-free parts joined by a double underscore. */
  lemma JoinedName(first: string, second: string)
    requires NoWhitespace(first) && NoWhitespace(second)
    ensures NoWhitespace(first + "__" + second)
    ensures Filter(first + "__" + second, NotUnderscore) == Filter(first, NotUnderscore) + Filter(second, NotUnderscore)
  {
    var sep := "__";
    FilterNone(sep, NotUnderscore);
    FilterAppend(first + sep, second, NotUnderscore);
    FilterAppend(first, sep, NotUnderscore);
    assert Filter(first, NotUnderscore) + "" == Filter(first, NotUnderscore);
  }
}
