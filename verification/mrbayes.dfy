/** The text serialisers around the MrBayes phylogenetics run: source names
    made safe for sequence headers, the aligned melodies cut into partitions
    at `#`, the NEXUS matrix, the charset ranges of the MrBayes script, and
    the two passes over the consensus tree MrBayes writes back (extracting
    the Newick line, putting the names back at the numbered leaves). Running
    MrBayes itself, the temporary directory and the random partition codes
    are outside the model; the codes are a parameter. */
module MrBayes {
  import opened Outcomes
  import opened Strings
  import opened Numerals
  import opened Dicts

  // ---------------------------------------------------------------------------
  // chains of one-character replacements

  /** `s.replace(c, rep)` for a single character `c`, as the pair `(c, rep)`. */
  type Rule = (char, string)

  /** The characters the rules rewrite, in order. */
  function Targets(rules: seq<Rule>): (r: string)
    ensures |r| == |rules|
    ensures forall k :: 0 <= k < |rules| ==> r[k] == rules[k].0
  {
    seq(|rules|, k requires 0 <= k < |rules| => rules[k].0)
  }

  /** None of the characters of `s` is rewritten by a rule. */
  predicate Clean(s: string, rules: seq<Rule>)
  {
    forall k, i :: 0 <= k < |s| && 0 <= i < |rules| ==> s[k] != rules[i].0
  }

  /** No replacement text contains a character that some rule rewrites. */
  predicate Settled(rules: seq<Rule>)
  {
    forall j :: 0 <= j < |rules| ==> Clean(rules[j].1, rules)
  }

  /** The replacements applied one after another, each to the whole string. */
  function ReplaceChain(s: string, rules: seq<Rule>): string
    decreases |rules|
  {
    if rules == [] then s else ReplaceChain(Replace(s, [rules[0].0], rules[0].1), rules[1..])
  }

  /** What one character becomes under the first rule that rewrites it. */
  function RuleFor(c: char, rules: seq<Rule>): string
  {
    if rules == [] then [c] else if rules[0].0 == c then rules[0].1 else RuleFor(c, rules[1..])
  }

  /** The index of the first rule that rewrites `c`, `|rules|` if none does. */
  function FirstRule(c: char, rules: seq<Rule>): (j: nat)
    ensures j <= |rules|
    ensures j < |rules| ==> rules[j].0 == c
    ensures forall i :: 0 <= i < j ==> rules[i].0 != c
  {
    if rules == [] then 0 else if rules[0].0 == c then 0 else 1 + FirstRule(c, rules[1..])
  }

  /** Every character rewritten on its own (the reference definition). */
  function MapChars(s: string, rules: seq<Rule>): string
  {
    if s == [] then "" else RuleFor(s[0], rules) + MapChars(s[1..], rules)
  }

  lemma {:induction false} ReplaceChainAppend(a: string, b: string, rules: seq<Rule>)
    ensures ReplaceChain(a + b, rules) == ReplaceChain(a, rules) + ReplaceChain(b, rules)
    decreases |rules|
  {
    if rules != [] {
      ReplaceCharAppend(a, b, rules[0].0, rules[0].1);
      ReplaceChainAppend(Replace(a, [rules[0].0], rules[0].1), Replace(b, [rules[0].0], rules[0].1), rules[1..]);
    }
  }

  lemma CleanTail(s: string, rules: seq<Rule>)
    requires rules != [] && Clean(s, rules)
    ensures Clean(s, rules[1..]) && rules[0].0 !in s
  {
    assert forall k :: 0 <= k < |s| ==> s[k] != rules[0].0;
    assert forall i :: 0 <= i < |rules| - 1 ==> rules[1..][i] == rules[i + 1];
  }

  lemma {:induction false} ReplaceChainClean(s: string, rules: seq<Rule>)
    requires Clean(s, rules)
    ensures ReplaceChain(s, rules) == s
    decreases |rules|
  {
    if rules != [] {
      CleanTail(s, rules);
      ReplaceCharAbsent(s, rules[0].0, rules[0].1);
      ReplaceChainClean(s, rules[1..]);
    }
  }

  lemma SettledTail(rules: seq<Rule>)
    requires rules != [] && Settled(rules)
    ensures Settled(rules[1..]) && Clean(rules[0].1, rules[1..])
  {
    forall j | 0 <= j < |rules| - 1 ensures Clean(rules[1..][j].1, rules[1..])
    {
      CleanTail(rules[j + 1].1, rules);
    }
    CleanTail(rules[0].1, rules);
  }

  /** Under settled rules the chain sends one character where its first
      rule sends it: later rules find nothing left to rewrite. */
  lemma {:induction false} ReplaceChainOneChar(c: char, rules: seq<Rule>)
    requires Settled(rules)
    ensures ReplaceChain([c], rules) == RuleFor(c, rules)
    decreases |rules|
  {
    if rules != [] {
      var d, rep := rules[0].0, rules[0].1;
      SettledTail(rules);
      assert [c][..1] == [c];
      if d == c {
        assert Replace([c], [d], rep) == rep + Replace([], [d], rep);
        assert rep + "" == rep;
        ReplaceChainClean(rep, rules[1..]);
      } else {
        assert Replace([c], [d], rep) == [c] + Replace([], [d], rep);
        assert [c] + "" == [c];
        ReplaceChainOneChar(c, rules[1..]);
      }
    }
  }

  lemma {:induction false} MapCharsAppend(a: string, b: string, rules: seq<Rule>)
    ensures MapChars(a + b, rules) == MapChars(a, rules) + MapChars(b, rules)
  {
    if a != [] {
      assert (a + b)[0] == a[0];
      assert (a + b)[1..] == a[1..] + b;
      MapCharsAppend(a[1..], b, rules);
    } else {
      assert a + b == b;
    }
  }

  /** A chain of settled one-character replacements is a per-character map. */
  lemma {:induction false} ChainIsMap(s: string, rules: seq<Rule>)
    requires Settled(rules)
    ensures ReplaceChain(s, rules) == MapChars(s, rules)
  {
    if s != [] {
      assert s == [s[0]] + s[1..];
      ReplaceChainAppend([s[0]], s[1..], rules);
      ReplaceChainOneChar(s[0], rules);
      ChainIsMap(s[1..], rules);
    } else {
      ReplaceChainClean(s, rules);
    }
  }

  /** A character goes where its first rule sends it, and stays when no
      rule rewrites it. */
  lemma {:induction false} RuleForIsFirst(c: char, rules: seq<Rule>)
    ensures RuleFor(c, rules) == if FirstRule(c, rules) < |rules| then rules[FirstRule(c, rules)].1 else [c]
  {
    if rules != [] && rules[0].0 != c {
      RuleForIsFirst(c, rules[1..]);
    }
  }

  /** Under settled rules nothing that a rule rewrites is left over. */
  lemma {:induction false} MapCharsClean(s: string, rules: seq<Rule>)
    requires Settled(rules)
    ensures Clean(MapChars(s, rules), rules)
  {
    if s != [] {
      RuleForIsFirst(s[0], rules);
      MapCharsClean(s[1..], rules);
      var a, b := RuleFor(s[0], rules), MapChars(s[1..], rules);
      assert Clean(a, rules);
      assert forall k :: 0 <= k < |a + b| ==> (a + b)[k] == if k < |a| then a[k] else b[k - |a|];
    }
  }

  /** A string with nothing to rewrite is left unchanged. */
  lemma {:induction false} MapCharsFixes(s: string, rules: seq<Rule>)
    requires Clean(s, rules)
    ensures MapChars(s, rules) == s
  {
    if s != [] {
      RuleForIsFirst(s[0], rules);
      assert FirstRule(s[0], rules) == |rules|;
      assert Clean(s[1..], rules);
      MapCharsFixes(s[1..], rules);
      assert [s[0]] + s[1..] == s;
    }
  }

  /** Replacement texts of at most one character never lengthen the string. */
  lemma {:induction false} MapCharsShortens(s: string, rules: seq<Rule>)
    requires forall j :: 0 <= j < |rules| ==> |rules[j].1| <= 1
    ensures |MapChars(s, rules)| <= |s|
  {
    if s != [] {
      RuleForIsFirst(s[0], rules);
      MapCharsShortens(s[1..], rules);
    }
  }

  /** Replacement texts of exactly one character keep every position. */
  lemma {:induction false} MapCharsPositions(s: string, rules: seq<Rule>)
    requires forall j :: 0 <= j < |rules| ==> |rules[j].1| == 1
    ensures |MapChars(s, rules)| == |s|
    ensures forall k :: 0 <= k < |s| ==> |RuleFor(s[k], rules)| == 1 && MapChars(s, rules)[k] == RuleFor(s[k], rules)[0]
  {
    if s != [] {
      RuleForIsFirst(s[0], rules);
      MapCharsPositions(s[1..], rules);
      forall k | 0 <= k < |s|
        ensures |RuleFor(s[k], rules)| == 1 && MapChars(s, rules)[k] == RuleFor(s[k], rules)[0]
      {
        RuleForIsFirst(s[k], rules);
        if k > 0 {
          assert s[k] == s[1..][k - 1];
        }
      }
    }
  }

  // ---------------------------------------------------------------------------
  // source names as sequence headers

  /** The replacements of the siglum normaliser, in the order it applies
      them: separators become `_`, other punctuation is deleted. */
  function SiglumRules(): seq<Rule>
  {
    Separators() + Punctuation() + Spacing()
  }

  /** Numbering separators: `.`, `,`, `/` and `\`. */
  function Separators(): seq<Rule>
  {
    [('.', "_"), (',', "_"), ('/', "_"), ('\\', "_")]
  }

  /** Punctuation that is deleted. */
  function Punctuation(): seq<Rule>
  {
    [(':', ""), ('(', ""), (')', ""), ('<', ""), ('>', ""), ('"', ""), ('*', ""), ('#', ""),
     ('&', ""), ('%', ""), ('@', ""), ('!', ""), ('=', ""), ('\'', ""), (';', "")]
  }

  /** Dashes and spaces. */
  function Spacing(): seq<Rule>
  {
    [('-', "_"), (' ', "_")]
  }

  /** The characters a header name never contains. */
  function Specials(): string
  {
    Targets(SiglumRules())
  }

  /** What the normaliser does to one character, as a table. */
  function SiglumChar(c: char): string
  {
    if c in ":()<>\"*#&%@!=';" then ""
    else if c in ".,/\\- " then "_"
    else [c]
  }

  lemma SiglumRulesSettled()
    ensures Settled(SiglumRules())
    ensures forall j :: 0 <= j < |SiglumRules()| ==> |SiglumRules()[j].1| <= 1
  {
    var rules := SiglumRules();
    assert forall j :: 0 <= j < |rules| ==> rules[j].1 == "_" || rules[j].1 == "";
    assert forall k :: 0 <= k < |rules| ==> rules[k].0 != '_';
  }

  /** The first rule of `a + b` for `c` is in `a` if `a` rewrites `c`. */
  lemma {:induction false} RuleForAppend(c: char, a: seq<Rule>, b: seq<Rule>)
    ensures RuleFor(c, a + b) == if c in Targets(a) then RuleFor(c, a) else RuleFor(c, b)
  {
    if a == [] {
      assert a + b == b;
    } else {
      assert (a + b)[1..] == a[1..] + b;
      assert Targets(a) == [a[0].0] + Targets(a[1..]);
      RuleForAppend(c, a[1..], b);
    }
  }

  /** Rules that all have the same replacement send their characters to it. */
  lemma RuleForUniform(c: char, rules: seq<Rule>, rep: string)
    requires forall i :: 0 <= i < |rules| ==> rules[i].1 == rep
    ensures RuleFor(c, rules) == if c in Targets(rules) then rep else [c]
  {
    RuleForIsFirst(c, rules);
  }

  /** The per-character map the chain amounts to is the table `SiglumChar`. */
  lemma SiglumRuleFor(c: char)
    ensures RuleFor(c, SiglumRules()) == SiglumChar(c)
  {
    ChainByGroup(c);
    SeparatorTargets();
    PunctuationTargets();
    SpacingTargets();
    assert c in ".,/\\- " <==> c in ".,/\\" || c in "- ";
  }

  /** The chain sends a character to the replacement of the first group
      that rewrites it. */
  lemma ChainByGroup(c: char)
    ensures RuleFor(c, SiglumRules()) ==
              if c in Targets(Separators()) then "_"
              else if c in Targets(Punctuation()) then ""
              else if c in Targets(Spacing()) then "_"
              else [c]
  {
    var sep, punct, spacing := Separators(), Punctuation(), Spacing();
    assert SiglumRules() == sep + (punct + spacing);
    RuleForAppend(c, sep, punct + spacing);
    RuleForAppend(c, punct, spacing);
    RuleForUniform(c, sep, "_");
    RuleForUniform(c, punct, "");
    RuleForUniform(c, spacing, "_");
  }

  lemma SpacingTargets()
    ensures Targets(Spacing()) == "- "
  {
  }

  lemma SeparatorTargets()
    ensures Targets(Separators()) == ".,/\\"
  {
  }

  lemma PunctuationTargets()
    ensures Targets(Punctuation()) == ":()<>\"*#&%@!=';"
  {
  }

  /** Python `__siglum_to_fasta_header_name`: the twenty-one replacements in
      their order. The result is the character table applied character by
      character, contains none of the special characters, and is no longer
      than the siglum. */
  function HeaderName(siglum: string): (r: string)
    ensures r == MapChars(siglum, SiglumRules())
    ensures |r| <= |siglum|
    ensures forall k :: 0 <= k < |r| ==> r[k] !in Specials()
  {
    SiglumRulesSettled();
    ChainIsMap(siglum, SiglumRules());
    MapCharsClean(siglum, SiglumRules());
    MapCharsShortens(siglum, SiglumRules());
    ReplaceChain(siglum, SiglumRules())
  }

  /** The same map spelled out with the table. */
  function SiglumMap(s: string): string
  {
    if s == [] then "" else SiglumChar(s[0]) + SiglumMap(s[1..])
  }

  /** Dots, commas, slashes, backslashes, dashes and spaces become `_`;
      `: ( ) < > " * # & % @ ! = ' ;` are deleted; everything else is kept. */
  lemma {:induction false} HeaderNameIsSiglumMap(s: string)
    ensures HeaderName(s) == SiglumMap(s)
  {
    if s != [] {
      SiglumRuleFor(s[0]);
      HeaderNameIsSiglumMap(s[1..]);
      assert HeaderName(s) == MapChars(s, SiglumRules());
      assert HeaderName(s[1..]) == MapChars(s[1..], SiglumRules());
    }
  }

  /** Normalising a normalised name changes nothing. */
  lemma HeaderNameIdempotent(s: string)
    ensures HeaderName(HeaderName(s)) == HeaderName(s)
  {
    var r := HeaderName(s);
    assert Clean(r, SiglumRules());
    MapCharsFixes(r, SiglumRules());
  }

  // ---------------------------------------------------------------------------
  // preparing the aligned melodies

  /** The four replacements applied to an aligned melody: bar lines, word
      separators, clefs and final bar lines become gaps. */
  function GapRules(): seq<Rule>
  {
    [('|', "-"), ('~', "-"), ('1', "-"), ('4', "-")]
  }

  lemma GapRuleFor(c: char)
    ensures RuleFor(c, GapRules()) == if c in "|~14" then "-" else [c]
  {
    RuleForUniform(c, GapRules(), "-");
    assert Targets(GapRules()) == "|~14";
  }

  /** The melody with `| ~ 1 4` turned into gaps, position by position. */
  function Gapped(alpiano: string): (r: string)
    ensures |r| == |alpiano|
    ensures forall k :: 0 <= k < |r| ==> r[k] == if alpiano[k] in "|~14" then '-' else alpiano[k]
  {
    var rules := GapRules();
    assert Settled(rules);
    ChainIsMap(alpiano, rules);
    MapCharsPositions(alpiano, rules);
    forall k | 0 <= k < |alpiano|
      ensures MapChars(alpiano, rules)[k] == if alpiano[k] in "|~14" then '-' else alpiano[k]
    {
      GapRuleFor(alpiano[k]);
    }
    ReplaceChain(alpiano, rules)
  }

  /** The pieces of a melody between the chant separators `#`. */
  function Chunks(alpiano: string): seq<string>
  {
    Split(Gapped(alpiano), '#')
  }

  /** The sequence stored for a melody: its chunks joined without `#`. */
  function Stored(alpiano: string): string
  {
    Concat(Chunks(alpiano))
  }

  lemma {:induction false} ConcatAvoids(parts: seq<string>, c: char)
    requires forall k :: 0 <= k < |parts| ==> c !in parts[k]
    ensures c !in Concat(parts)
  {
    if parts != [] {
      ConcatAvoids(parts[1..], c);
    }
  }

  /** The stored sequence is the gapped melody with the chant separators
      deleted. */
  lemma StoredIsFiltered(alpiano: string)
    ensures Stored(alpiano) == Filter(Gapped(alpiano), c => c != '#')
  {
    var g := Gapped(alpiano);
    var keep := (c: char) => c != '#';
    JoinSplit(g, '#');
    FilterJoin(Split(g, '#'), '#', keep);
    ConcatAvoids(Split(g, '#'), '#');
    FilterAll(Concat(Split(g, '#')), keep);
  }

  /** No marker the melody uses for structure survives in the stored
      sequence. */
  lemma StoredHasNoMarkers(alpiano: string)
    ensures forall k :: 0 <= k < |Stored(alpiano)| ==> Stored(alpiano)[k] !in "|~14#"
  {
    StoredIsFiltered(alpiano);
    var g := Gapped(alpiano);
    var keep := (c: char) => c != '#';
    FilterKeeps(g, keep);
  }

  /** Every character of a filtered string comes from the string. */
  lemma {:induction false} FilterKeeps(s: string, keep: char -> bool)
    ensures forall k :: 0 <= k < |Filter(s, keep)| ==> Filter(s, keep)[k] in s
  {
    if s != [] {
      FilterKeeps(s[1..], keep);
      var a := if keep(s[0]) then [s[0]] else "";
      var b := Filter(s[1..], keep);
      assert Filter(s, keep) == a + b;
      forall k | 0 <= k < |a + b| ensures (a + b)[k] in s
      {
        if k >= |a| {
          assert (a + b)[k] == b[k - |a|];
          assert b[k - |a|] in s[1..];
        }
      }
    }
  }

  // ---------------------------------------------------------------------------
  // partitions

  /** The running ends of the chunks, starting from `total` (the loop that
      appends `len(chunk) + partitions[-1]`). */
  function PartitionsFrom(chunks: seq<string>, total: nat): (r: seq<nat>)
    ensures |r| == |chunks|
  {
    if chunks == [] then [] else [total + |chunks[0]|] + PartitionsFrom(chunks[1..], total + |chunks[0]|)
  }

  /** The partitions of a melody's chunks. */
  function Partitions(chunks: seq<string>): (r: seq<nat>)
    ensures |r| == |chunks|
  {
    PartitionsFrom(chunks, 0)
  }

  /** Each partition adds its chunk's length to the one before, and the
      last one is the total length of the chunks. */
  lemma {:induction false} PartitionSteps(chunks: seq<string>, total: nat)
    ensures |chunks| > 0 ==> PartitionsFrom(chunks, total)[0] == total + |chunks[0]|
    ensures forall i :: 0 < i < |chunks| ==>
              PartitionsFrom(chunks, total)[i] == PartitionsFrom(chunks, total)[i - 1] + |chunks[i]|
    ensures |chunks| > 0 ==> PartitionsFrom(chunks, total)[|chunks| - 1] == total + |Concat(chunks)|
  {
    if chunks != [] {
      var t := total + |chunks[0]|;
      var r := PartitionsFrom(chunks, total);
      PartitionSteps(chunks[1..], t);
      assert r[1..] == PartitionsFrom(chunks[1..], t);
      forall i | 0 < i < |chunks| ensures r[i] == r[i - 1] + |chunks[i]|
      {
        assert chunks[i] == chunks[1..][i - 1];
      }
    }
  }

  /** Partitions never decrease and end at the stored length. */
  lemma PartitionsOrdered(alpiano: string)
    ensures var p := Partitions(Chunks(alpiano));
            && |p| > 0
            && (forall i, j :: 0 <= i <= j < |p| ==> p[i] <= p[j])
            && p[|p| - 1] == |Stored(alpiano)|
  {
    var chunks := Chunks(alpiano);
    var p := Partitions(chunks);
    PartitionSteps(chunks, 0);
    StepsOrdered(p, chunks);
  }

  lemma {:induction false} StepsOrdered(p: seq<nat>, chunks: seq<string>)
    requires |p| == |chunks|
    requires forall i :: 0 < i < |p| ==> p[i] == p[i - 1] + |chunks[i]|
    ensures forall i, j :: 0 <= i <= j < |p| ==> p[i] <= p[j]
  {
    if |p| > 1 {
      var q, c := p[..|p| - 1], chunks[..|p| - 1];
      StepsOrdered(q, c);
      assert forall i, j :: 0 <= i <= j < |q| ==> p[i] <= p[j];
      assert p[|p| - 2] <= p[|p| - 1];
    }
  }

  /** The outcome of comparing a later melody with the partitions. */
  datatype PartitionCheck = Agree | Mismatch | IndexOut

  /** The comparison loop for every melody after the first: each chunk's
      running total must equal the partition at the same index. Indexing
      past the partitions is Python's `IndexError`. */
  function CheckFrom(partitions: seq<nat>, chunks: seq<string>, length: nat): PartitionCheck
  {
    if chunks == [] then Agree
    else if partitions == [] then IndexOut
    else if partitions[0] != length + |chunks[0]| then Mismatch
    else CheckFrom(partitions[1..], chunks[1..], length + |chunks[0]|)
  }

  /** A melody agrees exactly when its own partitions are a prefix of the
      stored ones: the partitions past its last chunk are never looked at. */
  lemma {:induction false} CheckAgrees(partitions: seq<nat>, chunks: seq<string>, length: nat)
    ensures CheckFrom(partitions, chunks, length) == Agree <==>
              |chunks| <= |partitions| && partitions[..|chunks|] == PartitionsFrom(chunks, length)
    ensures CheckFrom(partitions, chunks, length) == IndexOut <==>
              |chunks| > |partitions| && partitions == PartitionsFrom(chunks, length)[..|partitions|]
  {
    if chunks != [] && partitions != [] {
      var t := length + |chunks[0]|;
      var own := PartitionsFrom(chunks, length);
      assert own == [t] + PartitionsFrom(chunks[1..], t);
      if partitions[0] != t {
        assert CheckFrom(partitions, chunks, length) == Mismatch;
        assert |chunks| <= |partitions| ==> partitions[..|chunks|][0] != own[0];
        assert |chunks| > |partitions| ==> own[..|partitions|][0] != partitions[0];
      } else {
        CheckAgrees(partitions[1..], chunks[1..], t);
        CheckAgreesStep(partitions, chunks, length);
      }
    }
  }

  /** When the first partition agrees, both sides of `CheckAgrees` move on
      to the rest. */
  lemma CheckAgreesStep(partitions: seq<nat>, chunks: seq<string>, length: nat)
    requires chunks != [] && partitions != [] && partitions[0] == length + |chunks[0]|
    ensures var t := length + |chunks[0]|;
            && (|chunks| <= |partitions| && partitions[..|chunks|] == PartitionsFrom(chunks, length) <==>
                |chunks[1..]| <= |partitions[1..]| && partitions[1..][..|chunks[1..]|] == PartitionsFrom(chunks[1..], t))
            && (|chunks| > |partitions| && partitions == PartitionsFrom(chunks, length)[..|partitions|] <==>
                |chunks[1..]| > |partitions[1..]| && partitions[1..] == PartitionsFrom(chunks[1..], t)[..|partitions[1..]|])
  {
    var t := length + |chunks[0]|;
    var own := PartitionsFrom(chunks, length);
    assert own == [t] + PartitionsFrom(chunks[1..], t);
    if |chunks| <= |partitions| {
      assert partitions[..|chunks|] == [partitions[0]] + partitions[1..][..|chunks| - 1];
    } else {
      assert own[..|partitions|] == [t] + PartitionsFrom(chunks[1..], t)[..|partitions| - 1];
      assert partitions == [partitions[0]] + partitions[1..];
    }
  }

  /** A later melody with fewer chunks of the same lengths passes the
      comparison. */
  lemma ShorterMelodyPasses(first: seq<string>, later: seq<string>)
    requires |later| <= |first|
    requires forall i :: 0 <= i < |later| ==> |later[i]| == |first[i]|
    ensures CheckFrom(Partitions(first), later, 0) == Agree
  {
    CheckAgrees(Partitions(first), later, 0);
    SameLengthsSamePartitions(first[..|later|], later, 0);
    PartitionsPrefix(first, |later|, 0);
  }

  lemma {:induction false} SameLengthsSamePartitions(a: seq<string>, b: seq<string>, total: nat)
    requires |a| == |b|
    requires forall i :: 0 <= i < |a| ==> |a[i]| == |b[i]|
    ensures PartitionsFrom(a, total) == PartitionsFrom(b, total)
  {
    if a != [] {
      SameLengthsSamePartitions(a[1..], b[1..], total + |a[0]|);
    }
  }

  lemma {:induction false} PartitionsPrefix(chunks: seq<string>, n: nat, total: nat)
    requires n <= |chunks|
    ensures PartitionsFrom(chunks, total)[..n] == PartitionsFrom(chunks[..n], total)
  {
    if n > 0 {
      PartitionsPrefix(chunks[1..], n - 1, total + |chunks[0]|);
      assert chunks[..n][1..] == chunks[1..][..n - 1];
    }
  }

  // ---------------------------------------------------------------------------
  // the sequence loop of `run`

  /** The sequences by header name, in first-insertion order, and the
      partitions of the first melody. */
  datatype Matrix = Matrix(melodies: Dict<string, string>, partitions: seq<nat>)

  /** Why no NEXUS text comes out: a later melody cut differently (the
      error message with empty outputs), one with more chunks than the first
      (`IndexError`), or no melody at all (`partitions[-1]` on an empty list). */
  datatype RunError = NotAligned(partitions: seq<nat>) | PartitionIndexError | NoSequences

  /** One pass of the loop body: the first melody fixes the partitions,
      every later one is compared with them; the stored sequence goes in
      under the header name, overwriting an earlier one of the same name. */
  function Step(m: Matrix, name: string, alpiano: string, first: bool): (r: Result<Matrix, RunError>)
    requires UniqueKeys(m.melodies)
    ensures r.Success? ==> UniqueKeys(r.value.melodies)
  {
    var chunks := Chunks(alpiano);
    var check := if first then Agree else CheckFrom(m.partitions, chunks, 0);
    if check == Mismatch then Failure(NotAligned(m.partitions))
    else if check == IndexOut then Failure(PartitionIndexError)
    else Success(Matrix(Put(m.melodies, name, Concat(chunks)), if first then Partitions(chunks) else m.partitions))
  }

  /** The loop over `zip(names, alpianos)`. */
  function CollectFrom(names: seq<string>, alpianos: seq<string>, m: Matrix, first: bool): (r: Result<Matrix, RunError>)
    requires UniqueKeys(m.melodies)
    ensures r.Success? ==> UniqueKeys(r.value.melodies)
    decreases |names|
  {
    if names == [] || alpianos == [] then Success(m)
    else
      var next :- Step(m, names[0], alpianos[0], first);
      CollectFrom(names[1..], alpianos[1..], next, false)
  }

  /** The header names of the sources, in order. */
  function HeaderNames(sources: seq<string>): (r: seq<string>)
    ensures |r| == |sources| && forall i :: 0 <= i < |sources| ==> r[i] == HeaderName(sources[i])
  {
    seq(|sources|, i requires 0 <= i < |sources| => HeaderName(sources[i]))
  }

  /** The loop over the melodies (lines 36-64 of `run`). */
  function Collect(sources: seq<string>, alpianos: seq<string>): Result<Matrix, RunError>
  {
    CollectFrom(HeaderNames(sources), alpianos, Matrix([], []), true)
  }

  function Min(a: nat, b: nat): nat
  {
    if a < b then a else b
  }

  predicate Ordered(p: seq<nat>)
  {
    forall i, j :: 0 <= i <= j < |p| ==> p[i] <= p[j]
  }

  /** No stored sequence is longer than the last partition. */
  predicate Bounded(m: Matrix)
  {
    && Ordered(m.partitions)
    && (|m.melodies| > 0 ==> |m.partitions| > 0)
    && forall i :: 0 <= i < |m.melodies| ==> |m.melodies[i].1| <= m.partitions[|m.partitions| - 1]
  }

  /** A later melody that agrees is no longer than the last partition. */
  lemma AgreeingLength(partitions: seq<nat>, alpiano: string)
    requires Ordered(partitions) && |partitions| > 0
    requires CheckFrom(partitions, Chunks(alpiano), 0) == Agree
    ensures |Stored(alpiano)| <= partitions[|partitions| - 1]
  {
    var chunks := Chunks(alpiano);
    CheckAgrees(partitions, chunks, 0);
    PartitionSteps(chunks, 0);
    PartitionsOrdered(alpiano);
    assert |Stored(alpiano)| == partitions[|chunks| - 1];
  }

  lemma StepBounded(m: Matrix, name: string, alpiano: string, first: bool)
    requires UniqueKeys(m.melodies) && Bounded(m)
    requires first ==> m.melodies == []
    requires !first ==> |m.partitions| > 0
    ensures Step(m, name, alpiano, first).Success? ==>
              Bounded(Step(m, name, alpiano, first).value) && |Step(m, name, alpiano, first).value.partitions| > 0
  {
    if Step(m, name, alpiano, first).Success? {
      if first {
        FirstStepBounded(m, name, alpiano);
      } else {
        LaterStepBounded(m, name, alpiano);
      }
    }
  }

  /** The first melody fixes the partitions, and it fits them. */
  lemma FirstStepBounded(m: Matrix, name: string, alpiano: string)
    requires m.melodies == []
    ensures Step(m, name, alpiano, true).Success?
    ensures Bounded(Step(m, name, alpiano, true).value) && |Step(m, name, alpiano, true).value.partitions| > 0
  {
    PartitionsOrdered(alpiano);
    assert Step(m, name, alpiano, true).value == Matrix([(name, Stored(alpiano))], Partitions(Chunks(alpiano)));
  }

  /** A later melody that agrees with the partitions keeps the matrix
      bounded. */
  lemma LaterStepBounded(m: Matrix, name: string, alpiano: string)
    requires UniqueKeys(m.melodies) && Bounded(m) && |m.partitions| > 0
    requires Step(m, name, alpiano, false).Success?
    ensures Bounded(Step(m, name, alpiano, false).value) && |Step(m, name, alpiano, false).value.partitions| > 0
  {
    var value := Stored(alpiano);
    assert CheckFrom(m.partitions, Chunks(alpiano), 0) == Agree;
    AgreeingLength(m.partitions, alpiano);
    assert Step(m, name, alpiano, false).value == Matrix(Put(m.melodies, name, value), m.partitions);
    BoundedPut(m, name, value);
  }

  /** Storing a sequence no longer than the last partition keeps a matrix
      bounded. */
  lemma BoundedPut(m: Matrix, name: string, value: string)
    requires UniqueKeys(m.melodies) && Bounded(m) && |m.partitions| > 0
    requires |value| <= m.partitions[|m.partitions| - 1]
    ensures Bounded(Matrix(Put(m.melodies, name, value), m.partitions))
  {
    PutValues(m.melodies, name, value);
  }

  /** Every value after `d[k] = v` is `v` or was there before. */
  lemma PutValues<K, V>(d: Dict<K, V>, k: K, v: V)
    requires UniqueKeys(d)
    ensures forall i :: 0 <= i < |Put(d, k, v)| ==> Put(d, k, v)[i].1 == v || Put(d, k, v)[i] == d[i]
  {
  }

  /** `d[k] = v` adds `k` to the key set. */
  lemma PutKeys<K, V>(d: Dict<K, V>, k: K, v: V)
    requires UniqueKeys(d)
    ensures (set x | x in Keys(Put(d, k, v))) == (set x | x in Keys(d)) + {k}
  {
    var r := Put(d, k, v);
    if k in Keys(d) {
      forall x | x in Keys(r) ensures x in Keys(d) + [k]
      {
        var i :| 0 <= i < |r| && Keys(r)[i] == x;
        assert x == if d[i].0 == k then k else d[i].0;
      }
      forall x | x in Keys(d) ensures x in Keys(r)
      {
        var i :| 0 <= i < |d| && Keys(d)[i] == x;
        assert Keys(r)[i] == x;
      }
    } else {
      assert Keys(r) == Keys(d) + [k];
    }
  }

  /** The loop keeps the stored sequences bounded by the last partition,
      and has partitions once it has stored a melody. */
  lemma {:induction false} CollectBounded(names: seq<string>, alpianos: seq<string>, m: Matrix, first: bool)
    requires UniqueKeys(m.melodies) && Bounded(m)
    requires first ==> m.melodies == [] && m.partitions == []
    requires !first ==> |m.partitions| > 0
    ensures var r := CollectFrom(names, alpianos, m, first);
            r.Success? ==>
              && Bounded(r.value)
              && (first ==> (|r.value.partitions| > 0 <==> Min(|names|, |alpianos|) > 0))
              && (!first ==> |r.value.partitions| > 0)
    decreases |names|
  {
    if names != [] && alpianos != [] {
      var s := Step(m, names[0], alpianos[0], first);
      if s.Success? {
        StepBounded(m, names[0], alpianos[0], first);
        CollectBounded(names[1..], alpianos[1..], s.value, false);
      }
    }
  }

  lemma PrefixStep<T>(seen: seq<T>, xs: seq<T>, n: nat)
    requires 0 < n <= |xs|
    ensures seen + [xs[0]] + xs[1..][..n - 1] == seen + xs[..n]
  {
    assert xs[..n] == [xs[0]] + xs[1..][..n - 1];
  }

  /** The keys after the loop are the names it has passed. */
  lemma {:induction false} CollectKeys(names: seq<string>, alpianos: seq<string>, m: Matrix, first: bool, seen: seq<string>)
    requires UniqueKeys(m.melodies)
    requires (set x | x in Keys(m.melodies)) == (set x | x in seen)
    ensures var r := CollectFrom(names, alpianos, m, first);
            r.Success? ==> (set x | x in Keys(r.value.melodies)) == (set x | x in seen + names[..Min(|names|, |alpianos|)])
    decreases |names|
  {
    if names == [] || alpianos == [] {
      assert seen + names[..Min(|names|, |alpianos|)] == seen;
    } else {
      var s := Step(m, names[0], alpianos[0], first);
      if s.Success? {
        StepKeys(m, names[0], alpianos[0], first, seen);
        CollectKeys(names[1..], alpianos[1..], s.value, false, seen + [names[0]]);
        assert Min(|names| - 1, |alpianos| - 1) == Min(|names|, |alpianos|) - 1;
        PrefixStep(seen, names, Min(|names|, |alpianos|));
      }
    }
  }

  /** A step that succeeds adds its name to the keys. */
  lemma StepKeys(m: Matrix, name: string, alpiano: string, first: bool, seen: seq<string>)
    requires UniqueKeys(m.melodies)
    requires (set x | x in Keys(m.melodies)) == (set x | x in seen)
    requires Step(m, name, alpiano, first).Success?
    ensures (set x | x in Keys(Step(m, name, alpiano, first).value.melodies)) == (set x | x in seen + [name])
  {
    PutKeys(m.melodies, name, Stored(alpiano));
    assert (set x | x in seen + [name]) == (set x | x in seen) + {name};
  }

  /** The last position below `n` at which `k` occurs among the names, or
      `None` when it occurs at none of them. */
  function LastAt(names: seq<string>, n: nat, k: string): (r: Option<nat>)
    requires n <= |names|
    ensures r.None? <==> forall i :: 0 <= i < n ==> names[i] != k
    ensures r.Some? ==> r.value < n && names[r.value] == k && forall i :: r.value < i < n ==> names[i] != k
  {
    if n == 0 then None
    else if names[n - 1] == k then Some(n - 1)
    else LastAt(names, n - 1, k)
  }

  /** The sequence stored for the last zipped melody whose name is `k`, or
      `None` when no zipped name is `k`. */
  function LastStored(names: seq<string>, alpianos: seq<string>, k: string): (r: Option<string>)
    ensures r.None? <==> k !in names[..Min(|names|, |alpianos|)]
    ensures r.Some? ==> exists j :: 0 <= j < Min(|names|, |alpianos|) && names[j] == k && r.value == Stored(alpianos[j])
  {
    var n := Min(|names|, |alpianos|);
    var last := LastAt(names, n, k);
    if last.None? then
      assert forall i :: 0 <= i < n ==> names[..n][i] == names[i];
      None
    else
      assert names[..n][last.value] == k;
      Some(Stored(alpianos[last.value]))
  }

  /** Counting the last occurrence from the second name on finds the same
      position one further along, unless `k` occurs only at the front. */
  lemma LastAtFront(names: seq<string>, n: nat, k: string)
    requires 0 < n <= |names|
    ensures LastAt(names, n, k) ==
              var later := LastAt(names[1..], n - 1, k);
              if later.Some? then Some(later.value + 1) else if names[0] == k then Some(0) else None
  {
    var later := LastAt(names[1..], n - 1, k);
    if later.Some? {
      assert names[later.value + 1] == names[1..][later.value];
      forall i | later.value + 1 < i < n ensures names[i] != k {
        assert names[i] == names[1..][i - 1];
      }
    } else {
      forall i | 0 < i < n ensures names[i] != k {
        assert names[i] == names[1..][i - 1];
      }
    }
  }

  /** Scanning from the end agrees with replaying the zip from the front: the
      last occurrence after the first pair, or else the first pair itself. */
  lemma LastStoredFront(names: seq<string>, alpianos: seq<string>, k: string)
    requires names != [] && alpianos != []
    ensures LastStored(names, alpianos, k) ==
              var later := LastStored(names[1..], alpianos[1..], k);
              if later.Some? then later else if names[0] == k then Some(Stored(alpianos[0])) else None
  {
    var n := Min(|names|, |alpianos|);
    assert Min(|names[1..]|, |alpianos[1..]|) == n - 1;
    LastAtFront(names, n, k);
    var later := LastAt(names[1..], n - 1, k);
    if later.Some? {
      assert alpianos[1..][later.value] == alpianos[later.value + 1];
    }
  }

  /** After the loop, a name holds the sequence of the last zipped melody
      under that name (a later duplicate overwrites an earlier one), and a
      name the loop never meets keeps what it held before. */
  lemma {:induction false} CollectValues(names: seq<string>, alpianos: seq<string>, m: Matrix, first: bool, k: string)
    requires UniqueKeys(m.melodies)
    ensures var r := CollectFrom(names, alpianos, m, first);
            r.Success? ==>
              Get(r.value.melodies, k) ==
                if LastStored(names, alpianos, k).Some? then LastStored(names, alpianos, k) else Get(m.melodies, k)
    decreases |names|
  {
    if names != [] && alpianos != [] {
      var s := Step(m, names[0], alpianos[0], first);
      if s.Success? {
        assert s.value.melodies == Put(m.melodies, names[0], Stored(alpianos[0]));
        PutGet(m.melodies, names[0], Stored(alpianos[0]), k);
        CollectValues(names[1..], alpianos[1..], s.value, false, k);
        LastStoredFront(names, alpianos, k);
      }
    }
  }

  /** Every later pass keeps the partitions it was given. */
  lemma {:induction false} LaterKeepsPartitions(names: seq<string>, alpianos: seq<string>, m: Matrix)
    requires UniqueKeys(m.melodies)
    ensures CollectFrom(names, alpianos, m, false).Success? ==>
              CollectFrom(names, alpianos, m, false).value.partitions == m.partitions
    decreases |names|
  {
    if names != [] && alpianos != [] {
      var s := Step(m, names[0], alpianos[0], false);
      if s.Success? {
        LaterKeepsPartitions(names[1..], alpianos[1..], s.value);
      }
    }
  }

  /** The names in order of first occurrence, each once: a reference
      definition, built from the end. */
  function FirstOccurrences(xs: seq<string>): (r: seq<string>)
    ensures forall x :: x in r <==> x in xs
    ensures forall i, j :: 0 <= i < j < |r| ==> r[i] != r[j]
  {
    if xs == [] then []
    else
      var d := FirstOccurrences(xs[..|xs| - 1]);
      assert xs == xs[..|xs| - 1] + [xs[|xs| - 1]];
      if xs[|xs| - 1] in d then d else d + [xs[|xs| - 1]]
  }

  /** A step that succeeds appends its name to the keys unless it is there. */
  lemma StepKeyOrder(m: Matrix, name: string, alpiano: string, first: bool, seen: seq<string>)
    requires UniqueKeys(m.melodies) && Keys(m.melodies) == FirstOccurrences(seen)
    requires Step(m, name, alpiano, first).Success?
    ensures Keys(Step(m, name, alpiano, first).value.melodies) == FirstOccurrences(seen + [name])
  {
    assert Step(m, name, alpiano, first).value.melodies == Put(m.melodies, name, Stored(alpiano));
    assert (seen + [name])[..|seen|] == seen;
  }

  /** The keys after the loop are the zipped names in order of first
      occurrence: a repeated name keeps the place of its first entry. */
  lemma {:induction false} CollectKeyOrder(names: seq<string>, alpianos: seq<string>, m: Matrix, first: bool, seen: seq<string>)
    requires UniqueKeys(m.melodies) && Keys(m.melodies) == FirstOccurrences(seen)
    ensures var r := CollectFrom(names, alpianos, m, first);
            r.Success? ==> Keys(r.value.melodies) == FirstOccurrences(seen + names[..Min(|names|, |alpianos|)])
    decreases |names|
  {
    if names == [] || alpianos == [] {
      assert seen + names[..Min(|names|, |alpianos|)] == seen;
    } else {
      var s := Step(m, names[0], alpianos[0], first);
      if s.Success? {
        StepKeyOrder(m, names[0], alpianos[0], first, seen);
        CollectKeyOrder(names[1..], alpianos[1..], s.value, false, seen + [names[0]]);
        assert CollectFrom(names, alpianos, m, first) == CollectFrom(names[1..], alpianos[1..], s.value, false);
        var n := Min(|names|, |alpianos|);
        assert Min(|names[1..]|, |alpianos[1..]|) == n - 1;
        PrefixStep(seen, names, n);
      }
    }
  }

  /** `run` keeps the header names in order of first occurrence. */
  lemma CollectedKeyOrder(sources: seq<string>, alpianos: seq<string>)
    requires Collect(sources, alpianos).Success?
    ensures var names := HeaderNames(sources);
            Keys(Collect(sources, alpianos).value.melodies) == FirstOccurrences(names[..Min(|names|, |alpianos|)])
  {
    var names := HeaderNames(sources);
    var n := Min(|names|, |alpianos|);
    CollectKeyOrder(names, alpianos, Matrix([], []), true, []);
    assert Collect(sources, alpianos) == CollectFrom(names, alpianos, Matrix([], []), true);
    assert [] + names[..n] == names[..n];
  }

  /** Under each header name `run` holds the sequence of the last melody
      zipped with that name, and nothing under any other name. */
  lemma CollectedValues(sources: seq<string>, alpianos: seq<string>, k: string)
    requires Collect(sources, alpianos).Success?
    ensures Get(Collect(sources, alpianos).value.melodies, k) == LastStored(HeaderNames(sources), alpianos, k)
  {
    CollectValues(HeaderNames(sources), alpianos, Matrix([], []), true, k);
  }

  /** The partitions `run` reports are those of the first melody. */
  lemma CollectedPartitions(sources: seq<string>, alpianos: seq<string>)
    requires Collect(sources, alpianos).Success? && Min(|sources|, |alpianos|) > 0
    ensures Collect(sources, alpianos).value.partitions == Partitions(Chunks(alpianos[0]))
  {
    var names := HeaderNames(sources);
    var s := Step(Matrix([], []), names[0], alpianos[0], true);
    LaterKeepsPartitions(names[1..], alpianos[1..], s.value);
  }

  /** Distinct elements are as many as the sequence is long. */
  lemma {:induction false} DistinctCount<T>(s: seq<T>)
    requires forall i, j :: 0 <= i < j < |s| ==> s[i] != s[j]
    ensures |set x | x in s| == |s|
  {
    if s != [] {
      DistinctCount(s[1..]);
      assert (set x | x in s) == {s[0]} + (set x | x in s[1..]);
      assert s[0] !in s[1..];
    }
  }

  /** After the loop, the dictionary has one entry per distinct header name
      of the zipped sources (`CollectedValues` says which melody it holds),
      there are partitions exactly when there was a melody, and no stored
      sequence is longer than the last partition. */
  lemma CollectedShape(sources: seq<string>, alpianos: seq<string>)
    requires Collect(sources, alpianos).Success?
    ensures var m := Collect(sources, alpianos).value;
            var names := HeaderNames(sources)[..Min(|sources|, |alpianos|)];
            && |m.melodies| == |set x | x in names|
            && (|names| > 0 <==> |m.partitions| > 0)
            && forall i :: 0 <= i < |m.melodies| ==> |m.melodies[i].1| <= m.partitions[|m.partitions| - 1]
  {
    var m := Collect(sources, alpianos).value;
    var names := HeaderNames(sources);
    CollectBounded(names, alpianos, Matrix([], []), true);
    CollectKeys(names, alpianos, Matrix([], []), true, []);
    assert [] + names[..Min(|names|, |alpianos|)] == names[..Min(|sources|, |alpianos|)];
    DistinctCount(Keys(m.melodies));
  }

  lemma EmptyRunKeepsNoPartitions(sources: seq<string>, alpianos: seq<string>)
    requires Min(|sources|, |alpianos|) == 0
    ensures Collect(sources, alpianos) == Success(Matrix([], []))
  {
  }

  // ---------------------------------------------------------------------------
  // NEXUS text

  /** Each line followed by a newline. */
  function Lines(ls: seq<string>): string
  {
    if ls == [] then "" else ls[0] + "\n" + Lines(ls[1..])
  }

  /** Lines without newlines come back from splitting at newlines. */
  lemma {:induction false} SplitLines(ls: seq<string>, tail: string)
    requires forall k :: 0 <= k < |ls| ==> '\n' !in ls[k]
    ensures Split(Lines(ls) + tail, '\n') == ls + Split(tail, '\n')
  {
    if ls == [] {
      assert Lines(ls) + tail == tail;
    } else {
      var rest := Lines(ls[1..]);
      assert Lines(ls) + tail == ls[0] + "\n" + rest + tail;
      SplitLine(ls[0], rest, tail);
      assert forall k :: 0 <= k < |ls[1..]| ==> ls[1..][k] == ls[k + 1];
      SplitLines(ls[1..], tail);
      Regroup([ls[0]], ls[1..], Split(tail, '\n'));
      assert [ls[0]] + ls[1..] == ls;
    }
  }

  lemma SplitLine(line: string, more: string, tail: string)
    requires '\n' !in line
    ensures Split(line + "\n" + more + tail, '\n') == [line] + Split(more + tail, '\n')
  {
    Regroup(line + "\n", more, tail);
    SplitAppend(line, more + tail, '\n');
    SplitWithoutSeparator(line, '\n');
  }

  lemma {:induction false} LinesAppend(a: seq<string>, b: seq<string>)
    ensures Lines(a + b) == Lines(a) + Lines(b)
  {
    if a == [] {
      assert a + b == b;
    } else {
      assert (a + b)[1..] == a[1..] + b;
      LinesAppend(a[1..], b);
    }
  }

  /** The DIMENSIONS line. */
  function Dimensions(ntax: nat, nchar: nat): string
  {
    "\tDIMENSIONS NTAX=" + NatToString(ntax) + " NCHAR=" + NatToString(nchar) + ";"
  }

  /** The lines before the matrix rows. */
  function NexusHeader(ntax: nat, nchar: nat): seq<string>
  {
    ["#NEXUS", "BEGIN DATA;", Dimensions(ntax, nchar), "\tFORMAT DATATYPE=STANDARD GAP=- MISSING=?;", "\tMATRIX", ""]
  }

  /** One `name<TAB>sequence` row per entry, in insertion order. */
  function Rows(sequences: Dict<string, string>): (r: seq<string>)
    ensures |r| == |sequences|
  {
    seq(|sequences|, i requires 0 <= i < |sequences| => sequences[i].0 + "\t" + sequences[i].1)
  }

  /** Python `__generate_nexus`. */
  function Nexus(sequences: Dict<string, string>, ntax: nat, nchar: nat): string
  {
    Lines(NexusHeader(ntax, nchar)) + Lines(Rows(sequences)) + Lines([";"]) + "end;"
  }

  lemma DigitsHaveNoNewline(n: nat)
    ensures '\n' !in NatToString(n)
  {
    var s := NatToString(n);
    assert forall k :: 0 <= k < |s| ==> s[k] != '\n';
  }

  lemma HeaderHasNoNewline(ntax: nat, nchar: nat)
    ensures forall k :: 0 <= k < |NexusHeader(ntax, nchar)| ==> '\n' !in NexusHeader(ntax, nchar)[k]
  {
    DimensionsHasNoNewline(ntax, nchar);
    NoNewlineIn("\tFORMAT DATATYPE=STANDARD GAP=- MISSING=?;");
    var h := NexusHeader(ntax, nchar);
    assert '\n' !in h[0] && '\n' !in h[1] && '\n' !in h[4] && '\n' !in h[5];
  }

  /** A literal without a newline character. */
  lemma NoNewlineIn(s: string)
    requires forall k :: 0 <= k < |s| ==> s[k] != '\n'
    ensures '\n' !in s
  {
  }

  /** Gluing lists of newline-free lines gives newline-free lines. */
  lemma NoNewlineLines(a: seq<string>, b: seq<string>)
    requires forall k :: 0 <= k < |a| ==> '\n' !in a[k]
    requires forall k :: 0 <= k < |b| ==> '\n' !in b[k]
    ensures forall k :: 0 <= k < |a + b| ==> '\n' !in (a + b)[k]
  {
  }

  lemma DimensionsHasNoNewline(ntax: nat, nchar: nat)
    ensures '\n' !in Dimensions(ntax, nchar)
  {
    DigitsHaveNoNewline(ntax);
    DigitsHaveNoNewline(nchar);
    assert '\n' !in "\tDIMENSIONS NTAX=" && '\n' !in " NCHAR=" && '\n' !in ";";
  }

  /** Split at newlines, the NEXUS text is the header (starting `#NEXUS`,
      with the DIMENSIONS line), one row per entry in order, and the closing
      `;` and `end;`, provided no name or sequence contains a newline. */
  lemma NexusLines(sequences: Dict<string, string>, ntax: nat, nchar: nat)
    requires forall i :: 0 <= i < |sequences| ==> '\n' !in sequences[i].0 && '\n' !in sequences[i].1
    ensures Split(Nexus(sequences, ntax, nchar), '\n') == NexusHeader(ntax, nchar) + Rows(sequences) + [";", "end;"]
  {
    var header, rows := NexusHeader(ntax, nchar), Rows(sequences);
    var ls := header + rows + [";"];
    NexusAsLines(sequences, ntax, nchar);
    HeaderHasNoNewline(ntax, nchar);
    RowsHaveNoNewline(sequences);
    NoNewlineLines(header, rows);
    NoNewlineLines(header + rows, [";"]);
    LinesThenLast(ls, "end;");
    AppendTwo(header + rows, ";", "end;");
  }

  /** Newline-free lines followed by a last line without a newline split
      back into those lines. */
  lemma LinesThenLast(ls: seq<string>, last: string)
    requires forall k :: 0 <= k < |ls| ==> '\n' !in ls[k]
    requires forall k :: 0 <= k < |last| ==> last[k] != '\n'
    ensures Split(Lines(ls) + last, '\n') == ls + [last]
  {
    SplitLines(ls, last);
    SplitWithoutSeparator(last, '\n');
  }

  lemma AppendTwo<T>(a: seq<T>, x: T, y: T)
    ensures a + [x] + [y] == a + [x, y]
  {
  }

  lemma NexusAsLines(sequences: Dict<string, string>, ntax: nat, nchar: nat)
    ensures Nexus(sequences, ntax, nchar) == Lines(NexusHeader(ntax, nchar) + Rows(sequences) + [";"]) + "end;"
  {
    var header, rows := NexusHeader(ntax, nchar), Rows(sequences);
    LinesAppend(header, rows);
    LinesAppend(header + rows, [";"]);
  }

  lemma RowsHaveNoNewline(sequences: Dict<string, string>)
    requires forall i :: 0 <= i < |sequences| ==> '\n' !in sequences[i].0 && '\n' !in sequences[i].1
    ensures forall i :: 0 <= i < |Rows(sequences)| ==> '\n' !in Rows(sequences)[i]
  {
    var rows := Rows(sequences);
    forall i | 0 <= i < |rows|
      ensures '\n' !in rows[i]
    {
      assert rows[i] == sequences[i].0 + "\t" + sequences[i].1;
    }
  }

  /** The NEXUS text of a run: as many taxa as the dictionary holds, and the
      last partition as the number of characters. */
  function NexusOf(sources: seq<string>, alpianos: seq<string>): (r: Result<string, RunError>)
    ensures r == Failure(NoSequences) <==> Min(|sources|, |alpianos|) == 0
  {
    var c := Collect(sources, alpianos);
    if Min(|sources|, |alpianos|) == 0 then
      EmptyRunKeepsNoPartitions(sources, alpianos);
      Failure(NoSequences)
    else if c.Failure? then
      CollectNeverEmpty(HeaderNames(sources), alpianos, Matrix([], []), true);
      Failure(c.error)
    else
      CollectedShape(sources, alpianos);
      var m := c.value;
      Success(Nexus(m.melodies, |m.melodies|, m.partitions[|m.partitions| - 1]))
  }

  /** A collection that fails does so for a later melody: never with
      `NoSequences`. */
  lemma {:induction false} CollectNeverEmpty(names: seq<string>, alpianos: seq<string>, m: Matrix, first: bool)
    requires UniqueKeys(m.melodies)
    ensures CollectFrom(names, alpianos, m, first) != Failure(NoSequences)
    decreases |names|
  {
    if names != [] && alpianos != [] {
      var chunks := Chunks(alpianos[0]);
      var partitions := if first then Partitions(chunks) else m.partitions;
      CollectNeverEmpty(names[1..], alpianos[1..], Matrix(Put(m.melodies, names[0], Concat(chunks)), partitions), false);
    }
  }

  // ---------------------------------------------------------------------------
  // charsets of the MrBayes script

  /** Charset `i` runs from one past the previous partition (from 1 for the
      first) to partition `i`. */
  function Ranges(partitions: seq<nat>): (r: seq<(nat, nat)>)
    ensures |r| == |partitions|
  {
    seq(|partitions|, i requires 0 <= i < |partitions| => (if i == 0 then 1 else partitions[i - 1] + 1, partitions[i]))
  }

  /** For a melody's partitions, the charsets tile the columns `1..n` of the
      stored sequence: they start at 1, each starts right after the one
      before, each spans exactly its chunk, and the last ends at the stored
      length. */
  lemma RangesTileChunks(alpiano: string)
    ensures var chunks := Chunks(alpiano);
            var r := Ranges(Partitions(chunks));
            && |r| == |chunks| > 0
            && r[0].0 == 1
            && (forall i :: 0 < i < |r| ==> r[i].0 == r[i - 1].1 + 1)
            && (forall i :: 0 <= i < |r| ==> r[i].1 + 1 == r[i].0 + |chunks[i]|)
            && r[|r| - 1].1 == |Stored(alpiano)|
  {
    var chunks := Chunks(alpiano);
    PartitionSteps(chunks, 0);
    PartitionsOrdered(alpiano);
  }

  /** Codes as the script generator makes them: one per partition, distinct,
      five to eight lower-case ASCII letters. */
  predicate ValidCodes(codes: seq<string>, n: nat)
  {
    && |codes| == n
    && (forall i, j :: 0 <= i < j < |codes| ==> codes[i] != codes[j])
    && forall i :: 0 <= i < |codes| ==> 5 <= |codes[i]| <= 8 && forall k :: 0 <= k < |codes[i]| ==> 'a' <= codes[i][k] <= 'z'
  }

  /** One `charset` line per pair of `zip(codes, partitions)`. */
  function CharsetLines(codes: seq<string>, partitions: seq<nat>): (r: seq<string>)
    ensures |r| == Min(|codes|, |partitions|)
  {
    var ranges := Ranges(partitions);
    seq(Min(|codes|, |partitions|), i requires 0 <= i < Min(|codes|, |partitions|) =>
      "charset " + codes[i] + "=" + NatToString(ranges[i].0) + "-" + NatToString(ranges[i].1) + ";")
  }

  /** The `partition` line naming all codes. */
  function PartitionLine(codes: seq<string>, partitions: seq<nat>): string
  {
    "partition chants=" + NatToString(|partitions|) + ":" + Join(codes, ",") + ";"
  }

  /** The charset and partition section of the MrBayes script. */
  function PartitionSection(codes: seq<string>, partitions: seq<nat>): string
  {
    Lines(CharsetLines(codes, partitions)) + Lines(["", "[definition of the single partition]", PartitionLine(codes, partitions)])
  }

  lemma {:induction false} LettersAvoidNewline(codes: seq<string>, sep: string)
    requires '\n' !in sep
    requires forall i :: 0 <= i < |codes| ==> forall k :: 0 <= k < |codes[i]| ==> 'a' <= codes[i][k] <= 'z'
    ensures '\n' !in Join(codes, sep)
    ensures forall i :: 0 <= i < |codes| ==> '\n' !in codes[i]
  {
    forall i | 0 <= i < |codes| ensures '\n' !in codes[i]
    {
      assert forall k :: 0 <= k < |codes[i]| ==> codes[i][k] != '\n';
    }
    JoinAvoids(codes, sep, '\n');
  }

  lemma CharsetLinesHaveNoNewline(codes: seq<string>, partitions: seq<nat>)
    requires ValidCodes(codes, |partitions|)
    ensures forall i :: 0 <= i < |CharsetLines(codes, partitions)| ==> '\n' !in CharsetLines(codes, partitions)[i]
  {
    var lines := CharsetLines(codes, partitions);
    var ranges := Ranges(partitions);
    LettersAvoidNewline(codes, ",");
    forall i | 0 <= i < |lines| ensures '\n' !in lines[i]
    {
      DigitsHaveNoNewline(ranges[i].0);
      DigitsHaveNoNewline(ranges[i].1);
      assert '\n' !in "charset " && '\n' !in "=" && '\n' !in "-" && '\n' !in ";";
    }
  }

  lemma PartitionLineHasNoNewline(codes: seq<string>, partitions: seq<nat>)
    requires ValidCodes(codes, |partitions|)
    ensures '\n' !in PartitionLine(codes, partitions)
  {
    LettersAvoidNewline(codes, ",");
    DigitsHaveNoNewline(|partitions|);
    assert '\n' !in "partition chants=" && '\n' !in ":" && '\n' !in ";";
  }

  /** With valid codes the section has one charset line per partition, in
      order, then a blank line, the comment and the partition line. */
  lemma PartitionSectionLines(codes: seq<string>, partitions: seq<nat>)
    requires ValidCodes(codes, |partitions|)
    ensures |CharsetLines(codes, partitions)| == |partitions|
    ensures Split(PartitionSection(codes, partitions), '\n') ==
              CharsetLines(codes, partitions) + ["", "[definition of the single partition]", PartitionLine(codes, partitions), ""]
  {
    var lines := CharsetLines(codes, partitions);
    var tail := ["", "[definition of the single partition]", PartitionLine(codes, partitions)];
    CharsetLinesHaveNoNewline(codes, partitions);
    PartitionLineHasNoNewline(codes, partitions);
    NoNewlineIn("[definition of the single partition]");
    assert forall k :: 0 <= k < |tail| ==> '\n' !in tail[k];
    LinesAppend(lines, tail);
    NoNewlineLines(lines, tail);
    SplitLines(lines + tail, "");
    assert Lines(lines + tail) + "" == PartitionSection(codes, partitions);
  }

  // ---------------------------------------------------------------------------
  // the consensus tree

  /** Python `xs[i]` with negative indices counting from the end; `None`
      is the `IndexError`. */
  function PyIndex<T>(xs: seq<T>, i: int): (r: Option<T>)
    ensures 0 <= i < |xs| ==> r == Some(xs[i])
    ensures -|xs| <= i < 0 ==> r == Some(xs[|xs| + i])
    ensures r.None? <==> i >= |xs| || i < -|xs|
  {
    if 0 <= i < |xs| then Some(xs[i]) else if -|xs| <= i < 0 then Some(xs[|xs| + i]) else None
  }

  /** `__extract_newick`: the third line from the end, from its first `(`
      up to but excluding its last character. Fewer than three lines is
      the `IndexError`. */
  function ExtractNewick(conTre: string): (r: Option<string>)
    ensures r.None? <==> Count(conTre, '\n') < 2
  {
    var lines := Split(conTre, '\n');
    if |lines| < 3 then None
    else
      var line := lines[|lines| - 3];
      var offset := |Split(line, '(')[0]|;
      Some(if offset < |line| then line[offset..|line| - 1] else "")
  }

  /** The first piece of a split is everything before the first separator. */
  lemma FirstPiece(pre: string, rest: string, sep: char)
    requires sep !in pre
    ensures Split(pre + [sep] + rest, sep)[0] == pre
  {
    SplitAppend(pre, rest, sep);
    SplitWithoutSeparator(pre, sep);
  }

  /** A consensus file whose third line from the end is some prefix without
      `(`, a tree starting with `(`, and one closing character gives back
      exactly that tree. */
  lemma ExtractNewickOfTree(before: seq<string>, pre: string, tree: string, close: char, after: seq<string>)
    requires |after| == 2
    requires forall k :: 0 <= k < |before| ==> '\n' !in before[k]
    requires forall k :: 0 <= k < 2 ==> '\n' !in after[k]
    requires '\n' !in pre && '\n' !in tree && close != '\n'
    requires '(' !in pre && |tree| > 0 && tree[0] == '('
    ensures ExtractNewick(Join(before + [pre + tree + [close]] + after, "\n")) == Some(tree)
  {
    var line := pre + tree + [close];
    var parts := before + [line] + after;
    assert '\n' !in line;
    assert forall k :: 0 <= k < |parts| ==> '\n' !in parts[k];
    SplitJoin(parts, '\n');
    assert parts[|parts| - 3] == line;
    TreeLine(pre, tree, close);
  }

  /** The tree line: everything before its first `(` is the prefix, and
      dropping the prefix and the last character leaves the tree. */
  lemma TreeLine(pre: string, tree: string, close: char)
    requires '(' !in pre && |tree| > 0 && tree[0] == '('
    ensures |Split(pre + tree + [close], '(')[0]| == |pre|
    ensures (pre + tree + [close])[|pre|..|pre + tree + [close]| - 1] == tree
  {
    var line := pre + tree + [close];
    assert tree == ['('] + tree[1..];
    Regroup(pre, ['('], tree[1..]);
    Regroup(pre + ['('], tree[1..], [close]);
    assert line == pre + ['('] + (tree[1..] + [close]);
    FirstPiece(pre, tree[1..] + [close], '(');
  }

  /** The length of the run of decimal digits at the start of `s`. */
  function DigitRun(s: string): (n: nat)
    ensures n <= |s|
    ensures forall k :: 0 <= k < n ==> IsDigit(s[k])
    ensures n < |s| ==> !IsDigit(s[n])
  {
    if s != [] && IsDigit(s[0]) then 1 + DigitRun(s[1..]) else 0
  }

  /** Whether `s` starts with `(` or `,`, a digit run and `[`: a match of
      `([\(,])([0-9]+)(\[)`. The digit run is greedy, and backing off it
      cannot put a `[` next. */
  predicate Numbered(s: string)
  {
    |s| > 0 && (s[0] == '(' || s[0] == ',') && 0 < DigitRun(s[1..]) && 1 + DigitRun(s[1..]) < |s|
    && s[1 + DigitRun(s[1..])] == '['
  }

  /** `re.sub` with the renaming callback, scanning left to right. A match
      becomes the opening character, `names[n - 1]` and the `[`; the first
      number without a name is the `IndexError`, reported with the number. */
  function Substitute(s: string, names: seq<string>): (r: Result<string, nat>)
    decreases |s|
  {
    if s == [] then Success("")
    else if Numbered(s) then
      var d := DigitRun(s[1..]);
      var n := DigitsValue(s[1..1 + d]);
      var name := PyIndex(names, n - 1);
      if name.None? then Failure(n)
      else
        var rest :- Substitute(s[2 + d..], names);
        Success([s[0]] + name.value + "[" + rest)
    else
      var rest :- Substitute(s[1..], names);
      Success([s[0]] + rest)
  }

  /** `''.join(tree.split('\n'))`. */
  function RemoveNewlines(s: string): (r: string)
    ensures r == Filter(s, c => c != '\n')
  {
    var keep := (c: char) => c != '\n';
    JoinSplit(s, '\n');
    FilterJoin(Split(s, '\n'), '\n', keep);
    ConcatAvoids(Split(s, '\n'), '\n');
    FilterAll(Concat(Split(s, '\n')), keep);
    Concat(Split(s, '\n'))
  }

  /** Python `__rename_tree_nodes`. */
  function RenameTreeNodes(tree: string, names: seq<string>): Result<string, nat>
  {
    Substitute(RemoveNewlines(tree), names)
  }

  /** `p` in front of a successful result. */
  function Prefixed(p: string, r: Result<string, nat>): Result<string, nat>
  {
    if r.Success? then Success(p + r.value) else r
  }

  /** A numbered leaf `n` is renamed to the `n`-th name (1-based; 0 is
      Python's index -1, the last name) and the scan goes on after the `[`. */
  lemma RenameLeaf(open: char, n: nat, rest: string, names: seq<string>)
    requires open == '(' || open == ','
    requires PyIndex(names, n - 1).Some?
    ensures Substitute([open] + NatToString(n) + "[" + rest, names) ==
              Prefixed([open] + PyIndex(names, n - 1).value + "[", Substitute(rest, names))
  {
    LeafMatch(open, n, rest);
  }

  /** A numbered leaf `n` matches with its whole digit run, which reads as
      `n`, and the scan goes on after the `[`. */
  lemma LeafMatch(open: char, n: nat, rest: string)
    requires open == '(' || open == ','
    ensures var s := [open] + NatToString(n) + "[" + rest;
            && Numbered(s)
            && DigitRun(s[1..]) == |NatToString(n)|
            && DigitsValue(s[1..1 + |NatToString(n)|]) == n
            && s[2 + |NatToString(n)|..] == rest
  {
    var digits := NatToString(n);
    var s := [open] + digits + "[" + rest;
    assert s[1..] == digits + ("[" + rest);
    DigitRunOf(digits, "[" + rest);
    assert s[1..1 + |digits|] == digits;
    DigitsValueOfNatToString(n);
    assert s[2 + |digits|..] == rest;
  }

  lemma {:induction false} DigitRunOf(digits: string, rest: string)
    requires AllDigits(digits)
    requires rest == [] || !IsDigit(rest[0])
    ensures DigitRun(digits + rest) == |digits|
  {
    if digits != [] {
      assert (digits + rest)[1..] == digits[1..] + rest;
      DigitRunOf(digits[1..], rest);
    } else {
      assert digits + rest == rest;
    }
  }

  /** A leaf number past the names is the `IndexError`. */
  lemma RenameMissingLeaf(open: char, n: nat, rest: string, names: seq<string>)
    requires open == '(' || open == ','
    requires n > |names| || (n == 0 && names == [])
    ensures Substitute([open] + NatToString(n) + "[" + rest, names) == Failure(n)
  {
    LeafMatch(open, n, rest);
  }

  /** Text without `(` or `,` cannot start a numbered leaf and is copied
      as it stands; renaming goes on after it. */
  lemma {:induction false} RenameCopiesPlainPrefix(a: string, s: string, names: seq<string>)
    requires '(' !in a && ',' !in a
    ensures Substitute(a + s, names) == Prefixed(a, Substitute(s, names))
  {
    if a == [] {
      assert a + s == s;
      if Substitute(s, names).Success? {
        assert a + Substitute(s, names).value == Substitute(s, names).value;
      }
    } else {
      assert (a + s)[1..] == a[1..] + s;
      assert !Numbered(a + s);
      RenameCopiesPlainPrefix(a[1..], s, names);
      if Substitute(s, names).Success? {
        Regroup([a[0]], a[1..], Substitute(s, names).value);
        assert [a[0]] + a[1..] == a;
      }
    }
  }

  /** Text without `[` has no leaves to rename and comes back unchanged. */
  lemma {:induction false} RenameKeepsPlainText(s: string, names: seq<string>)
    requires '[' !in s
    ensures Substitute(s, names) == Success(s)
  {
    if s != [] {
      assert !Numbered(s) by {
        assert forall k :: 0 <= k < |s| ==> s[k] != '[';
      }
      RenameKeepsPlainText(s[1..], names);
      assert [s[0]] + s[1..] == s;
    }
  }
}
