# chantlab_backend core, modelled in Dafny

ChantLab aligns Gregorian chant melodies, written in Volpiano, with one another and with their texts. The project models the string and list logic underneath that as pure Dafny functions with proved contracts:

- the interval codec, which turns absolute pitches into up/down steps and back;
- the Volpiano separator rewriting (`---` → `~`, `--` → `|`) and the split into words of syllables;
- the batch syllable alignment, which pads every (word, syllable) cell to the same width;
- the token stream that pairs melody syllables with text syllables, in the current aligner and in its two older versions;
- the retry loop that re-aligns until every chant fits its text;
- the MAFFT record writer and output parser;
- the MrBayes serialisers: FASTA-safe names, `#` partitions and their check, the NEXUS matrix, charset ranges, Newick extraction and leaf renaming;
- the Cantus Index JSON → CSV converter.

Files and modules:

| file | module | models |
|---|---|---|
| outcomes.dfy | `Outcomes` | `Option` and `Result`, for Python's exceptions and `None` |
| strings.dfy | `Strings` | `str.split`, `join`, `replace`, `count`, `strip` and whitespace `split()` |
| numerals.dfy | `Numerals` | `str(n)` and `int(s)` for decimal integers |
| dicts.dfy | `Dicts` | insertion-ordered Python dictionaries and `{v: k for k, v in d.items()}` |
| interval_processor.dfy | `Intervals` | core/interval_processor.py |
| chant_processor.dfy | `ChantProcessor` | core/chant_processor.py |
| tokens.dfy | `Tokens` | the token builder shared by core/aligner.py, core/chant.py and core/alignment.py |
| aligner.dfy | `Aligner` | core/aligner.py |
| mafft.dfy | `Mafft` | core/mafft.py |
| chant.dfy | `ChantLegacy` | core/chant.py |
| alignment.dfy | `AlignmentLegacy` | core/alignment.py |
| mrbayes.dfy | `MrBayes` | the pure parts of core/mrbayes.py |
| cantus_json_to_csv.dfy | `CantusCsv` | scripts/cantus_json_to_csv.py |

Python exceptions become `Failure` values of a `Result`; Python `None` and a missing key become `None` of an `Option`. Mutable objects (the MAFFT wrapper, the lists the aligner extends in place) become values passed in and returned.

Two names in the source do not resolve, and both are modelled against the definitions in core/chant_processor.py:

- core/aligner.py calls `get_syllables_from_volpiano`, but the class defines `get_syllables_from_alpiano`. The model uses `ChantProcessor.GetSyllables`.
- core/alignment.py imports `insert_separator_chars`, `get_syllables_from_volpiano` and `check_volpiano_text_compatibility` from core/chant.py, which defines none of them. The model uses `ChantProcessor.InsertSeparators` and `ChantProcessor.GetSyllables`.

## Model

| member | source | states |
|---|---|---|
| Intervals.NoteIndex | core/interval_processor.py:115-118 | `volpiano_notes.index(c)` is the first position holding `c`; a lower-case pitch sits among the first 20 |
| Intervals.MarkerIndex | core/interval_processor.py:105-106 | `interval_markers.index(c)` is the first position holding `c`; a lower-case marker sits among the first 19 |
| Intervals.PitchMembership | core/interval_processor.py:21 | the pitch predicate holds exactly for the characters of `volpiano_notes` |
| Intervals.MarkerMembership | core/interval_processor.py:19 | the marker predicate holds exactly for the characters of `interval_markers` |
| Intervals.IndexIsFirstPosition | core/interval_processor.py:106-118 | the index functions agree with `str.index` on the two literal tables |
| Intervals.NoteValues | core/interval_processor.py:7-17 | `note_values` gives the k-th plain pitch the value k and its liquescent twin the same value |
| Intervals.NoteOrder | core/interval_processor.py:84 | the plain pitches `9a…s` are in increasing character order, so the `note_a > note_b` test is a pitch comparison for them |
| Intervals.CalculateInterval | core/interval_processor.py:79-86 | the interval size between two pitches is below 19, so it always indexes `interval_markers` |
| Intervals.MarkerFor | core/interval_processor.py:89-98 | the marker is a marker, upper case exactly when the step is negative |
| Intervals.IntervalFromMarker | core/interval_processor.py:101-110 | a marker reads back as a step in -18..18, negative only for upper case |
| Intervals.MarkerRoundTrip | core/interval_processor.py:89-110 | reading back the marker of a step of size s and sign d gives ±s |
| Intervals.MarkerOfInterval | core/interval_processor.py:89-110 | re-encoding the step a marker reads as gives back the marker |
| Intervals.PyNoteAt | core/interval_processor.py:119 | a Python index into `volpiano_notes` in -38..37, negative ones wrapping, always yields a pitch |
| Intervals.NextNote | core/interval_processor.py:113-122 | stepping from a pitch yields a pitch; from an upper-case (liquescent) start the result is upper case |
| Intervals.PlainStep | core/interval_processor.py:79-122 | between plain pitches i and j the signed step is j − i, and stepping by it from i lands on j |
| Intervals.EncodeFrom | core/interval_processor.py:33-48 | encoding keeps the length and every non-pitch character in place |
| Intervals.EncodeAt | core/interval_processor.py:33-48 | output character k is determined by input character k and the last pitch before it alone |
| Intervals.ToIntervals | core/interval_processor.py:25-50 | one output character per input character; non-pitches and everything up to and including the first pitch are copied |
| Intervals.EncodedMarker | core/interval_processor.py:35-41 | every pitch after the first becomes the marker of its step from the previous pitch, with the direction taken from the character comparison |
| Intervals.DecodeFrom | core/interval_processor.py:62-73 | decoding keeps the length and every character that is neither pitch nor marker |
| Intervals.ToVolpiano | core/interval_processor.py:54-75 | one output character per input character; characters that are neither pitches nor markers are copied |
| Intervals.WithoutPitches | core/interval_processor.py:47-48 | a string without pitches is left unchanged by both transforms |
| Intervals.RoundTripFrom | core/interval_processor.py:25-75 | decoding inverts encoding from any plain previous pitch for strings of plain pitches and non-markers |
| Intervals.RoundTrip | core/interval_processor.py:25-75 | `transform_intervals_to_volpiano(transform_volpiano_to_intervals(v)) == v` when every pitch of v is plain and no other character of v is a marker |
| Intervals.RisingAndFalling | core/interval_processor.py:25-75 | `9abcba` encodes to `9bbbBB` and decodes back |
| Intervals.LiquescentStep | core/interval_processor.py:113-122 | `aB` encodes to `aB` but decodes to `a9`: liquescents do not round-trip |
| Intervals.LiquescentNine | core/interval_processor.py:84-122 | `9)` encodes to `9A` (`)` sorts before `9`) and decodes to `99` |
| ChantProcessor.InsertSeparators | core/chant_processor.py:41-51 | the result contains no dash |
| ChantProcessor.LeadingDashes | core/chant_processor.py:47-49 | the length of the maximal dash run at the start of a string |
| ChantProcessor.WordPassOnRun | core/chant_processor.py:47 | the `---` pass turns a run of n dashes into n div 3 `~` followed by n mod 3 dashes |
| ChantProcessor.SyllablePassOnRun | core/chant_processor.py:48 | the `--` pass turns the leftover dashes into one `|` when two are left |
| ChantProcessor.DashPassOnRun | core/chant_processor.py:49 | the `-` pass drops the last leftover dash |
| ChantProcessor.DashRunThroughPasses | core/chant_processor.py:47-49 | the three passes turn a maximal run of n dashes into n div 3 `~` and one `\|` iff n mod 3 = 2 |
| ChantProcessor.InsertSeparatorsRewritesRuns | core/chant_processor.py:47-49 | the three chained `replace` calls equal the reading one maximal dash run at a time |
| ChantProcessor.InsertSeparatorsKeepsNotes | core/chant_processor.py:47-51 | every character other than `-`, `~` and `\|` survives, in order |
| ChantProcessor.Words | core/chant_processor.py:34-35 | the words are the `~`-pieces without the first and last: max(0, count(`~`) − 1) of them |
| ChantProcessor.GetSyllables | core/chant_processor.py:26-38 | max(0, count(`~`) − 1) words; word k has one more syllable than it has `\|`; no syllable holds a separator |
| ChantProcessor.SyllablesRecoverText | core/chant_processor.py:34-36 | joining the syllables with `\|` and the words with `~` gives back the text between the first and the last `~` |
| ChantProcessor.GetSyllablesOfJoin | core/chant_processor.py:34-36 | splitting `clef~words~bar` recovers the words of syllables it was built from |
| ChantProcessor.SyllablesExample | core/chant_processor.py:34-38 | `1~ab\|c~ab~4` splits into `[[ab, c], [ab]]` |
| ChantProcessor.JoinEachSplitWords | core/chant_processor.py:36 | joining each word's syllables with `\|` undoes splitting on `\|` |
| ChantProcessor.DummyWord | core/chant_processor.py:76 | a dummy word has one `#` per syllable of its melody word |
| ChantProcessor.FixCompatibility | core/chant_processor.py:62-79 | the melody is unchanged; a shorter text is extended by dummy words for the trailing melody words, keeping the original as a prefix; the pair is compatible afterwards iff the melody had at least as many words |
| ChantProcessor.OrDefault | core/chant_processor.py:125-127 | a falsy value (`None` or empty) is replaced by the default |
| ChantProcessor.UnderscoredKeepsText | core/chant_processor.py:126 | `'_'.join(s.split())` keeps every non-whitespace, non-underscore character in order |
| ChantProcessor.RemoveParentheses | core/chant_processor.py:128 | no parenthesis survives |
| ChantProcessor.IncipitName | core/chant_processor.py:125-126 | no whitespace; the non-underscore characters are those of the incipit, or of `[unnamed]` |
| ChantProcessor.SiglumName | core/chant_processor.py:127-128 | no whitespace or parentheses; the other non-underscore characters are those of the siglum, or of `[nosource]` |
| ChantProcessor.BuildNewickName | core/chant_processor.py:114-129 | the name has no whitespace, and its non-underscore characters are the incipit's followed by the siglum's |
| Tokens.MergeFrom | core/aligner.py:92-95 | keeps the first `cut` text syllables and joins the rest into one, preserving the joined text |
| Tokens.MergeFromLast | core/aligner.py:92-95 | merging from the last syllable changes nothing |
| Tokens.ReconcileText | core/aligner.py:90-100 | the text of a k-syllable word gets exactly k syllables with the same joined text: extra ones merged into the last, missing ones padded with `''` |
| Tokens.SyllableTokens | core/aligner.py:102-121 | a k-syllable word gives 2k − 1 tokens, an empty word none |
| Tokens.SyllableTokensAt | core/aligner.py:104-121 | token 2m is melody syllable m paired with text syllable m; token 2m + 1 is a syllable space unless m is the last syllable |
| Tokens.SyllableTokensRecover | core/aligner.py:104-121 | the syllable tokens hand back the melody word and its text syllables |
| Tokens.EmptySyllableStep | core/aligner.py:104-107 | an empty syllable lies in word i or later iff it lies in word i or in a word after it |
| Tokens.WordEntries | core/aligner.py:89-131 | fails with the empty-syllable error iff some melody word from i on has an empty syllable; otherwise one entry per word |
| Tokens.CombineTokens | core/aligner.py:76-140 | `len(volpiano) + 2` entries: clef and word space first, end-of-sequence last, one word entry per melody word; an empty syllable is the error |
| Tokens.EntryRecovers | core/aligner.py:76-140 | entry i + 1 of a successful token stream is non-empty and hands back melody word i and text word i |
| Tokens.WordEntryRecovers | core/aligner.py:89-121 | a word entry carries the word's melody syllables and all of its text |
| Tokens.WordEntryEnds | core/aligner.py:123-129 | a word entry ends with a word space iff it is not the last word; the last one ends with its last syllable |
| Tokens.CombineTokensRecovers | core/aligner.py:76-140 | each middle entry of the token stream recovers its melody word and text, and ends with a word space except the last |
| Aligner.Max | core/aligner.py:22 | `max` of a non-empty list bounds every element and is one of them |
| Aligner.MaxOfConstant | core/aligner.py:22-48 | the maximum of equal counts is that count |
| Aligner.WordCounts | core/aligner.py:21 | one word count per melody |
| Aligner.SyllableCounts | core/aligner.py:26-32 | the syllable count at word w, 0 for a melody with fewer words |
| Aligner.CharCounts | core/aligner.py:42-47 | the character count at a cell, 0 where the melody has no such cell |
| Aligner.PaddedCell | core/aligner.py:50-59 | every padded cell has the cell's maximum width |
| Aligner.SyllableAlignment | core/aligner.py:16-61 | one entry per melody with the batch's maximum word count and maximum syllable count per word; every cell is that melody's padded cell |
| Aligner.AlignmentPads | core/aligner.py:40-59 | every aligned cell has the maximum width at its position, starts with the melody's syllable there (empty where it has none) and is dashes after it |
| Aligner.AlignmentCoversOriginal | core/aligner.py:55-59 | every original cell is a prefix of its padded cell |
| Aligner.AlignmentUnpads | core/aligner.py:50-59 | for dash-free melodies, dropping the dashes from a padded cell gives back the original cell |
| Aligner.AlignmentIsUniform | core/aligner.py:24-52 | after alignment all melodies have the same shape at every word and cell |
| Aligner.AlignUniform | core/aligner.py:16-61 | a batch that already has a uniform shape is returned unchanged |
| Aligner.AlignmentIdempotent | core/aligner.py:16-61 | aligning twice is aligning once |
| Aligner.ExtendText | core/aligner.py:64-73 | only appends empty words and placeholder syllables (the empty string here); afterwards the text has at least as many words as the melody, and each word at least as many syllables |
| Aligner.AlignedTextRecovers | core/aligner.py:349-357 | raises the unequal-length error iff the word counts differ; otherwise fails only on an empty syllable, and every word entry hands back the melody word and the text word |
| Aligner.VolpianoStringRoundTrip | core/aligner.py:360-366 | splitting the built string with a bar line appended recovers the words of syllables |
| Aligner.VolpianoStringLosesLastWord | core/aligner.py:360-366 | without a bar line the built string splits back without its last word |
| Aligner.AlignedStringsHaveEqualLength | core/aligner.py:245-247 | all aligned melody strings of a batch have the same length |
| Aligner.AlignedStrings | core/aligner.py:245-247 | one string per aligned melody, all of one length |
| Aligner.Partition | core/aligner.py:231-243 | every chant lands in the fitting or the error list; the fitting ones have equal word counts |
| Aligner.FitPositions | core/aligner.py:231-243 | the positions whose chant does (or does not) fit, strictly increasing, containing every such position and no other |
| Aligner.PartitionSelectsFrom | core/aligner.py:231-243 | from any position on, the kept ids and chants are exactly those at the fitting positions and the errors exactly the sources at the other positions, each in input order |
| Aligner.PartitionSelects | core/aligner.py:231-243 | the split is a stable filter: kept ids and chants are those at the fitting positions, errors the sources at the others, in input order |
| Aligner.PartitionKeepsFits | core/aligner.py:231-245 | nothing is kept only when no chant fits |
| Aligner.MelodiesOf | core/aligner.py:232-233 | each melody is rewritten and split into words of syllables |
| Aligner.CombineAll | core/aligner.py:249-252 | one token stream per kept chant; the only error is the empty syllable |
| Aligner.CombineAllPairs | core/aligner.py:249-252 | token stream k is the one built from padded melody k and the text of chant k extended to it |
| Aligner.CombineAllFails | core/aligner.py:249-252 | combining fails iff some padded melody has an empty syllable |
| Aligner.SomeEmptyStep | core/aligner.py:249-252 | some melody of a batch has an empty syllable iff the first or a later one has |
| Aligner.AlignFitting | core/aligner.py:245-262 | the fitting chants keep their ids, sources and urls and the errors pass through; one token stream and one melody string per chant, the strings all of one length; the only error is the empty syllable |
| Aligner.AlignmentSyllables | core/aligner.py:219-265 | kept and error chants add up to the input; the kept melody strings all have one length; the empty-batch error comes exactly when no chant fits |
| Aligner.AlignmentSyllablesSelects | core/aligner.py:231-262 | a successful result holds exactly the ids, sources and urls of the fitting chants and, as errors, exactly the sources of the others, each in input order |
| Aligner.MsaInput | core/aligner.py:170-171 | the aligner hands MAFFT each chant's melody, interval-encoded in interval mode, after separator rewriting |
| Aligner.SourcesOf | core/aligner.py:163 | the sources of the chants with the given ids, in order |
| Aligner.ConsistentKeep | core/aligner.py:189-197 | adding a chant whose aligned melody fits its text keeps the pass's lists paired |
| Aligner.ConsistentDrop | core/aligner.py:198-201 | recording a failed chant's source keeps the pass's lists paired |
| Aligner.PassFrom | core/aligner.py:186-202 | every MAFFT output position ends up either kept with its paired source, id, melody and url, or recorded as an error |
| Aligner.PassStep | core/aligner.py:189-201 | each output position either puts its chant's id in front of the kept ids, or its id in front of the dropped ids and its source in front of the errors |
| Aligner.PassAccounts | core/aligner.py:186-202 | from any output position on, the kept and dropped ids together are exactly (as a multiset) the ids at the remaining positions, and the errors are the sources of the dropped ids in order |
| Aligner.PickWellFormed | core/aligner.py:183-189 | an order naming every input position once reaches every chant exactly once |
| Aligner.ConsistentPaired | core/aligner.py:186-202 | every chant of a consistent pass is paired with its id's source, url and fitting token stream |
| Aligner.RunPass | core/aligner.py:183-202 | one pass keeps or drops every chant it is given exactly once (kept plus dropped ids equal the given ids as a multiset); the errors are the sources of the dropped ids; kept ids come from the input and every kept chant is paired |
| Aligner.CarryProgress | core/aligner.py:186-205 | after a pass, the ids left and all ids dropped so far still make up the ids asked for, the accumulated errors stay the sources of the dropped ids, and the counts still add up |
| Aligner.AlignMelodies | core/aligner.py:143-216 | the retry loop terminates; every chant asked for ends up exactly once among the returned ids or the dropped ids (a multiset equation), and the errors are the sources of the dropped ids in order; every returned chant is paired with its id's source, url and fitting token stream; a malformed MAFFT answer is the MAFFT error |
| Mafft.NewMafft | core/mafft.py:10-18 | a fresh wrapper has the three default options, counter 0, no input and no process |
| Mafft.SetInput | core/mafft.py:26-29 | sets the input file and the guide tree file `input + ".tree"`, nothing else |
| Mafft.AddOption | core/mafft.py:36-39 | appends the flag, and the value only when it is truthy |
| Mafft.Preprocess | core/mafft.py:171-175 | `_preprocess_volpiano` is `insert_separator_chars` on every input |
| Mafft.AddVolpiano | core/mafft.py:46-55 | fails iff no input is set; otherwise appends `"> " + counter + "\n" + preprocessed + "\n"` and increments the counter |
| Mafft.TextLine | core/mafft.py:63 | a text line has its spaces replaced and holds none |
| Mafft.AddText | core/mafft.py:58-67 | fails iff no input is set; otherwise appends a `> sequence` record and increments the counter |
| Mafft.Run | core/mafft.py:148-168 | stores the process result and resets the counter, nothing else |
| Mafft.ParseLines | core/mafft.py:85-99 | the parsed sequences are never empty |
| Mafft.ParseFailsOnBadHeader | core/mafft.py:91-96 | parsing fails iff some header's number is not an integer |
| Mafft.DecodeProcess | core/mafft.py:70-102 | fails before a run and on non-empty stderr; otherwise parses stdout |
| Mafft.HeaderOfRecord | core/mafft.py:53 | a record header reads back as its number |
| Mafft.ParseRecords | core/mafft.py:53-54 | parsing written records yields the non-empty sequences and the numbers 0..n−1 |
| Mafft.RoundTrip | core/mafft.py:85-99 | parsing the records of non-empty single-line sequences gives back exactly those sequences and numbers 0..n−1 |
| Mafft.EmptySequenceMisaligns | core/mafft.py:87-96 | an empty sequence is dropped while its number is kept, so there are fewer sequences than numbers |
| Mafft.LastSequenceWithoutNewlineIsLost | core/mafft.py:85-99 | without the final newline the last sequence is lost, though its number is kept |
| Mafft.AddVolpianosWritesRecords | core/mafft.py:46-55 | adding melodies one by one writes their numbered, preprocessed records in order |
| Mafft.FreshWrapperIsReady | core/mafft.py:10-29 | a fresh wrapper with an input file accepts records |
| Mafft.WrapperRoundTrip | core/mafft.py:46-102 | with MAFFT echoing its input, decoding returns the preprocessed melodies and their numbers |
| ChantLegacy.AlignSyllablesAndVolpiano | core/chant.py:15-91 | no clef, a word-count mismatch and an empty syllable are the errors, in that order; otherwise a clef entry with `---`, one entry per word recovering its syllables and text, and the end entry |
| ChantLegacy.AlignWrittenMelody | core/chant.py:17-38 | a melody `1~words~bar` is accepted with a text of as many words |
| ChantLegacy.ClefFirst | core/chant.py:17-20 | a melody starting `1~` passes the clef check |
| AlignmentLegacy.Melodies | core/alignment.py:5-6 | each melody is rewritten and split into words of syllables |
| AlignmentLegacy.SyllableCountAt | core/alignment.py:17-21 | with the `word - 1` guard, reading word `word` fails exactly when the melody has `word - 1` or `word` words |
| AlignmentLegacy.CharCountAt | core/alignment.py:32-36 | with the `syllable - 1` guard, reading a cell fails exactly when the word has `syllable - 1` or `syllable` syllables |
| AlignmentLegacy.SyllableCountsFrom | core/alignment.py:15-21 | the syllable counts at a word, failing iff some melody's read fails |
| AlignmentLegacy.SyllableAlignmentAsWritten | core/alignment.py:3-50 | an empty batch fails; otherwise fails iff some melody is shorter than the batch somewhere; on success it equals the aligner's padding |
| AlignmentLegacy.RaggedIffFails | core/alignment.py:13-37 | the word loop fails exactly for a ragged batch |
| AlignmentLegacy.ShortChantFails | core/alignment.py:17-21 | a melody with fewer words than the longest makes the alignment fail |
| AlignmentLegacy.ShortWordFails | core/alignment.py:32-36 | a word with fewer syllables than the longest at that position makes the alignment fail |
| AlignmentLegacy.EvenBatchPasses | core/alignment.py:13-41 | a batch of identical shape passes every guard |
| AlignmentLegacy.ShorterChantRaises | core/alignment.py:17-21 | a two-melody batch with one and two words fails, while the corrected padding gives both two words |
| AlignmentLegacy.EntriesAsWritten | core/alignment.py:65-107 | word entries as written: the trailing word space follows the length of the word's last syllable |
| AlignmentLegacy.CombineAsWritten | core/alignment.py:53-116 | clef and end entries as in the aligner; fails iff a syllable is empty; middle entries as written |
| AlignmentLegacy.TrailingSpaceAsWritten | core/alignment.py:85-105 | word k ends with a word space iff k differs from its last syllable's length minus one |
| AlignmentLegacy.TrailingSpaceAfterLastWord | core/alignment.py:99-105 | for words `ab`, `c` the last word gets a trailing word space as written, but not in the corrected stream |
| AlignmentLegacy.AlignSyllablesAndVolpianoAsWritten | core/alignment.py:119-126 | word-count mismatch and empty syllable are the errors; middle entries as written |
| AlignmentLegacy.AlignSyllablesAndVolpiano | core/alignment.py:119-126 | corrected: same errors; each middle entry recovers its word and text and ends with a word space except the last |
| MrBayes.FirstRule | core/mrbayes.py:199-220 | the first replacement in the chain that targets a character |
| MrBayes.ReplaceChainAppend | core/mrbayes.py:199-220 | the chain of single-character replaces works piecewise on a concatenation |
| MrBayes.ChainIsMap | core/mrbayes.py:199-220 | when no replacement produces a later target, the chain of replaces is a per-character map |
| MrBayes.MapCharsClean | core/mrbayes.py:199-220 | after the map no target character is left |
| MrBayes.MapCharsFixes | core/mrbayes.py:199-220 | a string without target characters is unchanged |
| MrBayes.MapCharsShortens | core/mrbayes.py:199-220 | replacements of at most one character never lengthen the string |
| MrBayes.MapCharsPositions | core/mrbayes.py:44-47 | replacements of exactly one character keep the length and map position by position |
| MrBayes.SiglumRulesSettled | core/mrbayes.py:199-220 | no siglum replacement introduces a character a later one removes |
| MrBayes.SiglumRuleFor | core/mrbayes.py:199-220 | `. , / \ -` and space become `_`; `: ( ) < > " * # & % @ ! = ' ;` are deleted; other characters stay |
| MrBayes.HeaderName | core/mrbayes.py:194-221 | the FASTA name is the per-character map, no longer than the siglum, and holds none of the special characters |
| MrBayes.HeaderNameIsSiglumMap | core/mrbayes.py:199-220 | the replace chain equals the per-character siglum map |
| MrBayes.HeaderNameIdempotent | core/mrbayes.py:194-221 | normalising twice is normalising once |
| MrBayes.GapRuleFor | core/mrbayes.py:44-47 | `\|`, `~`, `1` and `4` become `-`; other characters stay |
| MrBayes.Gapped | core/mrbayes.py:44-47 | the gapped melody has the same length; position k is `-` iff the input's is one of `\|~14` |
| MrBayes.StoredIsFiltered | core/mrbayes.py:48-64 | the stored melody is the gapped one without `#` |
| MrBayes.StoredHasNoMarkers | core/mrbayes.py:44-64 | no stored melody holds `\|`, `~`, `1`, `4` or `#` |
| MrBayes.PartitionsFrom | core/mrbayes.py:49-53 | one partition per chunk |
| MrBayes.PartitionSteps | core/mrbayes.py:49-53 | each partition adds its chunk's length to the one before; the last is the total length |
| MrBayes.PartitionsOrdered | core/mrbayes.py:49-53 | the first melody's partitions are non-empty, non-decreasing, and end at its stored length |
| MrBayes.CheckAgrees | core/mrbayes.py:55-62 | a later melody passes iff its running totals equal the first `len(chunks)` partitions; it indexes past the partitions iff all of them matched and it has more chunks |
| MrBayes.ShorterMelodyPasses | core/mrbayes.py:55-62 | a later melody with fewer chunks of matching lengths passes: only the first `len(chunks)` partitions are compared |
| MrBayes.SameLengthsSamePartitions | core/mrbayes.py:49-62 | chunks of equal lengths give equal partitions |
| MrBayes.PartitionsPrefix | core/mrbayes.py:55-62 | the partitions of a prefix of the chunks are a prefix of the partitions |
| MrBayes.Step | core/mrbayes.py:44-64 | one pass of the loop keeps the names unique |
| MrBayes.CollectFrom | core/mrbayes.py:43-64 | the loop keeps the names unique (what it stores is stated by CollectValues, CollectKeyOrder and LaterKeepsPartitions) |
| MrBayes.HeaderNames | core/mrbayes.py:36-39 | every name is normalised, in order |
| MrBayes.AgreeingLength | core/mrbayes.py:55-62 | a melody that passes the partition comparison is no longer than the last partition |
| MrBayes.StepBounded | core/mrbayes.py:44-64 | one pass keeps every stored melody within the last partition |
| MrBayes.FirstStepBounded | core/mrbayes.py:48-53 | the first melody always succeeds, fixes non-empty ordered partitions and fits within the last |
| MrBayes.LaterStepBounded | core/mrbayes.py:55-64 | a later melody that agrees with the partitions keeps every stored melody within the last partition |
| MrBayes.CollectBounded | core/mrbayes.py:43-64 | after the loop every stored melody fits within the last partition, and partitions exist iff some melody was read |
| MrBayes.StepKeys | core/mrbayes.py:64 | a successful pass adds its name to the stored names |
| MrBayes.CollectKeys | core/mrbayes.py:43-64 | the stored names, as a set, are exactly the zipped names |
| MrBayes.LastAt | core/mrbayes.py:43-64 | the last position below a bound that holds a name: it holds the name and no later one does, and there is none exactly when no position holds it |
| MrBayes.LastStored | core/mrbayes.py:43-64 | reference value for one name: none exactly when the name is not among the zipped names, otherwise the stored sequence of a zipped melody under that name |
| MrBayes.LastAtFront | core/mrbayes.py:43-64 | the last position counted from the second name on is the same position, unless the name occurs only first |
| MrBayes.LastStoredFront | core/mrbayes.py:43-64 | the reference scan from the end agrees with replaying the zip from the front |
| MrBayes.CollectValues | core/mrbayes.py:43-64 | after the loop each name holds the sequence of the last zipped melody under it, so a later duplicate overwrites an earlier one; a name the loop never meets keeps its earlier value |
| MrBayes.LaterKeepsPartitions | core/mrbayes.py:49-63 | once the first melody has fixed the partitions, no later pass changes them |
| MrBayes.FirstOccurrences | core/mrbayes.py:64 | reference order of a dictionary's keys: the same members as the input, each once |
| MrBayes.StepKeyOrder | core/mrbayes.py:64 | a successful pass appends its name to the keys unless the name is already stored |
| MrBayes.CollectKeyOrder | core/mrbayes.py:43-64 | the keys after the loop are the zipped names in order of first occurrence |
| MrBayes.CollectedKeyOrder | core/mrbayes.py:34-64 | `run` stores the header names in order of first occurrence |
| MrBayes.CollectedValues | core/mrbayes.py:34-64 | under each header name `run` holds the sequence of the last melody zipped with it, and nothing under other names |
| MrBayes.CollectedPartitions | core/mrbayes.py:43-63 | the partitions `run` hands on are the cumulative chunk lengths of the first melody |
| MrBayes.CollectedShape | core/mrbayes.py:36-66 | NTAX, the number of stored melodies, is the number of distinct zipped names; partitions exist iff there were names; every melody fits within NCHAR |
| MrBayes.EmptyRunKeepsNoPartitions | core/mrbayes.py:40-43 | with no melodies nothing is stored and there are no partitions |
| MrBayes.SplitLines | core/mrbayes.py:111-123 | newline-terminated lines split back into those lines |
| MrBayes.Rows | core/mrbayes.py:119-120 | one `name\tmelody` row per stored melody |
| MrBayes.NexusLines | core/mrbayes.py:111-123 | the NEXUS text splits into the six header lines (`#NEXUS`, `BEGIN DATA;`, DIMENSIONS with NTAX and NCHAR, FORMAT, MATRIX, empty), one row per taxon in insertion order, `;` and `end;` |
| MrBayes.NexusOf | core/mrbayes.py:66 | `partitions[-1]` fails exactly when there was no melody to read |
| MrBayes.Ranges | core/mrbayes.py:148-150 | one charset range per partition |
| MrBayes.RangesTileChunks | core/mrbayes.py:148-150 | charset ranges start at 1, are contiguous, each spans its chunk, and the last ends at the stored length |
| MrBayes.CharsetLines | core/mrbayes.py:148-150 | one charset line per (code, partition) pair of the zip |
| MrBayes.PartitionSectionLines | core/mrbayes.py:140-153 | with distinct lower-case codes, one per partition, the partition section splits into one charset line per partition, a blank line, the comment, the `partition chants=` line and a blank line |
| MrBayes.PyIndex | core/mrbayes.py:106 | Python list indexing, negative indices from the end; out of range is `None` |
| MrBayes.ExtractNewick | core/mrbayes.py:105-108 | the third-from-last line is missing iff the tree file has fewer than two newlines |
| MrBayes.ExtractNewickOfTree | core/mrbayes.py:105-108 | from the third-from-last line, the text before its first `(` and its last character are cut off |
| MrBayes.DigitRun | core/mrbayes.py:187 | the length of the leading run of digits |
| MrBayes.RemoveNewlines | core/mrbayes.py:185 | joining the lines removes exactly the newlines |
| MrBayes.RenameLeaf | core/mrbayes.py:180-189 | `(` or `,`, then n, then `[` becomes the same with `names[n-1]` in place of the digits, Python indexing included |
| MrBayes.RenameMissingLeaf | core/mrbayes.py:181-183 | a leaf number beyond the names is the index error |
| MrBayes.RenameCopiesPlainPrefix | core/mrbayes.py:187-189 | text without `(` or `,` is copied unchanged |
| MrBayes.RenameKeepsPlainText | core/mrbayes.py:185-191 | a tree without `[` is returned unchanged |
| CantusCsv.FieldsOf | scripts/cantus_json_to_csv.py:179 | a field lookup is the JSON object's entry under the field's JSON name |
| CantusCsv.DefaultsOf | scripts/cantus_json_to_csv.py:169-174 | an unmapped column takes the externally supplied value, or `''` |
| CantusCsv.Translate | scripts/cantus_json_to_csv.py:103-140 | office, feast and genre names go through the inverted tables, an unknown or non-string name becoming `''`; other columns keep their value |
| CantusCsv.TranslateLooksUp | scripts/cantus_json_to_csv.py:107-134 | a translated name is the id of the last table row carrying that name |
| CantusCsv.CompleteUnblocked | scripts/cantus_json_to_csv.py:45-50 | an item has all four required fields exactly when no column stops it |
| CantusCsv.ColumnStep | scripts/cantus_json_to_csv.py:166-217 | a column stops the item iff it is required and its field is missing or falsy; corrected, it adds exactly its own cell |
| CantusCsv.FillSkips | scripts/cantus_json_to_csv.py:176-197 | the column loop skips the item iff some column from k on stops it |
| CantusCsv.FillExtends | scripts/cantus_json_to_csv.py:166-217 | the column loop only appends cells |
| CantusCsv.FillColumns | scripts/cantus_json_to_csv.py:166-217 | for an item nothing stops, the corrected loop appends exactly one cell per column |
| CantusCsv.CellsFromIndex | scripts/cantus_json_to_csv.py:166-217 | the cells from column k on, one per column |
| CantusCsv.RowSkips | scripts/cantus_json_to_csv.py:176-197 | an item is skipped, as written and corrected, iff a required field is missing or falsy |
| CantusCsv.RowColumns | scripts/cantus_json_to_csv.py:18-44 | a kept item's corrected row has 25 values, value k belonging to `CSV_KEYS[k]` |
| CantusCsv.FillAgreesWhenPresent | scripts/cantus_json_to_csv.py:178-217 | with every mapped field present, the loop as written gives the corrected row |
| CantusCsv.MissingModeShiftsRow | scripts/cantus_json_to_csv.py:186-217 | as written, a missing `mode` adds `''` and then the stale incipit, giving 26 values |
| CantusCsv.MissingModeKeepsColumns | scripts/cantus_json_to_csv.py:186-189 | corrected, a missing `mode` gives `''` in its column and 25 values |
| CantusCsv.Convert | scripts/cantus_json_to_csv.py:145-224 | never more rows than items |
| CantusCsv.ConvertKeepsComplete | scripts/cantus_json_to_csv.py:158-222 | one 25-value row per complete item, in input order |
| CantusCsv.Header | scripts/cantus_json_to_csv.py:18-44 | the header has the 25 CSV keys |
| CantusCsv.WriteCsvData | scripts/cantus_json_to_csv.py:228-239 | the header row comes first, then the rows in order |
| CantusCsv.LoadMapping | scripts/cantus_json_to_csv.py:88-100 | a loaded mapping has each key once |
| CantusCsv.LoadRowsSome | scripts/cantus_json_to_csv.py:94-99 | loading the rows succeeds iff every row is long enough for both columns |
| CantusCsv.LoadRowsLookup | scripts/cantus_json_to_csv.py:94-99 | for readable rows, a key maps to the value of the last row holding it, else to its earlier entry |
| CantusCsv.LoadMappingLookup | scripts/cantus_json_to_csv.py:88-100 | the header row is skipped, later rows override earlier ones, and a short row is the index error |
| Dicts.Put | core/mrbayes.py:64 | keys stay unique; an existing key keeps its place in the key order and a new key goes last |
| Dicts.PutGet | core/mrbayes.py:64 | after an assignment the key reads the new value and other keys are unchanged |
| Dicts.InvertLookup | scripts/cantus_json_to_csv.py:107 | the inverted dictionary maps a value to the last key holding it |
| Numerals.NatToString | core/mafft.py:53 | `str(n)` is non-empty, all digits, and starts with `0` only for 0 |
| Numerals.DigitsValueOfNatToString | core/mafft.py:53 | reading back the printed digits of n gives n |
| Numerals.NatToStringOfDigitsValue | core/mrbayes.py:187 | a digit string without a leading zero is what `str` prints for its value |
| Numerals.ParseIntOfNatToString | core/mafft.py:96 | `int(str(n)) == n` |

## Left out

- Django views, URLs, database queries and HTTP responses (`_get_alignment_data_from_db`, core/uploader.py, core/export.py) are not part of this model. The aligner reads chant data through a `fetch` function parameter.
- The text syllabifier (`get_syllables_from_text`, core/chant.py `get_syllables`) is an external library. Texts arrive already split into words of syllables.
- `get_stressed_syllables` and `get_JSON` are left out because they depend on the cltk and chant21 libraries.
- Files, temporary directories, `os.remove` and `subprocess.run` are left out:
  - MAFFT's input file is the `contents` string of the wrapper state;
  - the MAFFT process result is a parameter;
  - MrBayes is not run at all.
- `Mafft.run`'s command line, `set_output`, `set_prefix` and the guide-tree loader are left out. The guide tree is never parsed in the source.
- Aligner.ExtendText: the source pads missing words and syllables with empty lists (`[]`), and such a placeholder reaches the syllable token's `text` field as `[]`, where the model writes the empty string `""`. The padded positions are exactly those the contract names, and a padded word is exactly as long as its melody word, so the merge of surplus syllables never meets a placeholder; only the JSON value of the placeholder differs.
- Aligner.AlignMelodies: MAFFT is a function parameter. An answer whose order is not a rearrangement of the input positions, or that has fewer sequences than chants, becomes the MAFFT error (MAFFT's `--reorder` output always is such a rearrangement). The source does not check this: an out-of-range position raises an `IndexError`, a short order silently leaves the missing chants out of both the result and the errors, and a repeated position handles the same chant twice.
- The `_first_note` class attribute written by the interval encoder is left out: it does not affect any result.
- MrBayes: the fixed text of the MrBayes script outside the partition section is left out, including the `mcmcp` line and its settings.
- MrBayes: the wording of the "not aligned" message and the logging are left out. A mismatch returns the partitions and no outputs.
- MrBayes: the random partition codes are a `codes` parameter. The codes are distinct, lower-case and one per partition, as the generator guarantees. The order of a Python `set` turned into a list is not modelled.
- CantusCsv.Convert: uses the corrected rows. The source's row for an item that lacks an optional mapped field is `RowAsWritten` (see Findings).
- CantusCsv: JSON values are scalars. Lists, objects and floats as chant fields are left out, and so is an item whose `chant` is not an object.
- CantusCsv: the CSV writer's conversion of values to text is left out. Rows are lists of JSON values.
- CantusCsv: reading the JSON and CSV files, argument parsing and logging are left out. Lookup tables arrive as the rows of their CSV files.
- Numerals.ParseInt: Python's `int` also accepts underscores between digits and non-ASCII digits. The model does not.
- Intervals.ToVolpiano: a stored interval string starting with a marker of the wrong case is decoded as the source does, but only the round trip for plain pitches is proved.
- `scripts/scrape_hymnologica_volpiano.py` and `core/text_functions.py` are left out: they are network scraping and music21 glue.

## Findings

| source | as written | input that shows it | evidently intended | confidence | as-written member | corrected member |
|---|---|---|---|---|---|---|
| core/alignment.py:18-36 | the shape guards test `len(...) < word - 1` and `< syllable - 1`, so a melody with fewer words, or fewer syllables at some word, than the batch is indexed past its end | two melodies, one with one word and one with two | `word + 1` and `syllable + 1`, as in core/aligner.py:29 and :44, padding the shorter melody | high (not executed) | AlignmentLegacy.ShorterChantRaises | Aligner.SyllableAlignment |
| core/alignment.py:85-100 | `volpiano` is rebound to the last syllable's characters at line 85, so the word space after word i is emitted iff i differs from that length minus one | words `ab` and `c` with any two-word text: the last word gets a trailing word space | a word space after every word but the last, as in core/aligner.py:124 and core/chant.py:75 | high (not executed) | AlignmentLegacy.TrailingSpaceAfterLastWord | AlignmentLegacy.AlignSyllablesAndVolpiano |
| scripts/cantus_json_to_csv.py:186-217 | after a missing optional field appends `''`, control falls through and appends the previous field's value too, so the row grows by one and every later column shifts | a complete chant without `mode`: 26 values, `finalis` holding the incipit | one `''` for the missing field and 25 values | high (not executed) | CantusCsv.MissingModeShiftsRow | CantusCsv.MissingModeKeepsColumns |
