/** The interval representation of a volpiano melody
    (core/interval_processor.py): the first pitch is kept as an anchor and
    every later pitch is replaced by a marker for the step from the pitch
    before it; every other character passes through. */
module Intervals {
  import opened Outcomes

  // ---------------------------------------------------------------------------
  // the three tables

  /** `volpiano_notes`: the characters treated as pitches, the plain ones low
      to high, then `)` and the liquescent (upper-case) forms. */
  const VolpianoNotes: string := "9abcdefghjklmnopqrs)ABCDEFGHJKLMNOPQRS"

  /** `interval_markers`: the marker of a step of size k is the k-th
      character; its upper-case form marks a downward step. */
  const IntervalMarkers: string := "abcdefghjklmnopqrstABCDEFGHJKLMNOPQRST"

  /** `volpiano_notes[k]`, position by position (`NotesTable` shows the two
      agree). */
  function NoteAt(k: int): char
  {
    match k
    case 0 => '9' case 1 => 'a' case 2 => 'b' case 3 => 'c' case 4 => 'd'
    case 5 => 'e' case 6 => 'f' case 7 => 'g' case 8 => 'h' case 9 => 'j'
    case 10 => 'k' case 11 => 'l' case 12 => 'm' case 13 => 'n' case 14 => 'o'
    case 15 => 'p' case 16 => 'q' case 17 => 'r' case 18 => 's'
    case 19 => ')' case 20 => 'A' case 21 => 'B' case 22 => 'C' case 23 => 'D'
    case 24 => 'E' case 25 => 'F' case 26 => 'G' case 27 => 'H' case 28 => 'J'
    case 29 => 'K' case 30 => 'L' case 31 => 'M' case 32 => 'N' case 33 => 'O'
    case 34 => 'P' case 35 => 'Q' case 36 => 'R' case _ => 'S'
  }

  /** `interval_markers[k]`, position by position (`MarkersTable` shows the
      two agree). */
  function MarkerAt(k: int): char
  {
    match k
    case 0 => 'a' case 1 => 'b' case 2 => 'c' case 3 => 'd' case 4 => 'e'
    case 5 => 'f' case 6 => 'g' case 7 => 'h' case 8 => 'j' case 9 => 'k'
    case 10 => 'l' case 11 => 'm' case 12 => 'n' case 13 => 'o' case 14 => 'p'
    case 15 => 'q' case 16 => 'r' case 17 => 's' case 18 => 't'
    case 19 => 'A' case 20 => 'B' case 21 => 'C' case 22 => 'D' case 23 => 'E'
    case 24 => 'F' case 25 => 'G' case 26 => 'H' case 27 => 'J' case 28 => 'K'
    case 29 => 'L' case 30 => 'M' case 31 => 'N' case 32 => 'O' case 33 => 'P'
    case 34 => 'Q' case 35 => 'R' case 36 => 'S' case _ => 'T'
  }

  /** `c in volpiano_notes` (`PitchMembership` shows the two agree). */
  predicate IsPitch(c: char)
  {
    c == '9' || c == ')' || ('a' <= c <= 's' && c != 'i') || ('A' <= c <= 'S' && c != 'I')
  }

  /** `c in interval_markers` (`MarkerMembership` shows the two agree). */
  predicate IsMarker(c: char)
  {
    ('a' <= c <= 't' && c != 'i') || ('A' <= c <= 'T' && c != 'I')
  }

  /** The plain (non-liquescent) pitches: the first nineteen characters of
      `volpiano_notes`, `9abcdefghjklmnopqrs` (`PlainMembership`). */
  predicate IsPlainPitch(c: char)
  {
    c == '9' || ('a' <= c <= 's' && c != 'i')
  }

  /** `note_values`: the scale step of every pitch. The liquescent forms share
      their plain twin's step; `)` is the liquescent form of `9`. The table's
      keys are exactly the pitches. */
  function NoteValue(c: char): nat
    requires IsPitch(c)
  {
    match c
    case '9' => 0 case 'a' => 1 case 'b' => 2 case 'c' => 3 case 'd' => 4
    case 'e' => 5 case 'f' => 6 case 'g' => 7 case 'h' => 8 case 'j' => 9
    case 'k' => 10 case 'l' => 11 case 'm' => 12 case 'n' => 13 case 'o' => 14
    case 'p' => 15 case 'q' => 16 case 'r' => 17 case 's' => 18
    case ')' => 0 case 'A' => 1 case 'B' => 2 case 'C' => 3 case 'D' => 4
    case 'E' => 5 case 'F' => 6 case 'G' => 7 case 'H' => 8 case 'J' => 9
    case 'K' => 10 case 'L' => 11 case 'M' => 12 case 'N' => 13 case 'O' => 14
    case 'P' => 15 case 'Q' => 16 case 'R' => 17 case 'S' => 18
    case _ => 0
  }

  // ---------------------------------------------------------------------------
  // Python character primitives, on the ASCII characters of the tables

  /** `c.isupper()` */
  predicate IsUpper(c: char)
  {
    'A' <= c <= 'Z'
  }

  /** `c.upper()` */
  function ToUpper(c: char): char
  {
    if 'a' <= c <= 'z' then (c as int - 32) as char else c
  }

  /** `c.lower()` */
  function ToLower(c: char): char
  {
    if 'A' <= c <= 'Z' then (c as int + 32) as char else c
  }

  /** `volpiano_notes.index(c)`: the first position holding `c`. */
  function NoteIndex(c: char): (k: nat)
    requires IsPitch(c)
    ensures k < 38 && NoteAt(k) == c
    ensures forall j :: 0 <= j < k ==> NoteAt(j) != c
    ensures !IsUpper(c) ==> k < 20
  {
    if c == '9' then 0
    else if c == ')' then 19
    else if 'a' <= c <= 'h' then c as int - 'a' as int + 1
    else if 'j' <= c <= 's' then c as int - 'a' as int
    else if 'A' <= c <= 'H' then c as int - 'A' as int + 20
    else c as int - 'A' as int + 19
  }

  /** `interval_markers.index(c)`: the first position holding `c`. */
  function MarkerIndex(c: char): (k: nat)
    requires IsMarker(c)
    ensures k < 38 && MarkerAt(k) == c
    ensures forall j :: 0 <= j < k ==> MarkerAt(j) != c
    ensures !IsUpper(c) ==> k < 19
  {
    if 'a' <= c <= 'h' then c as int - 'a' as int
    else if 'j' <= c <= 't' then c as int - 'a' as int - 1
    else if 'A' <= c <= 'H' then c as int - 'A' as int + 19
    else c as int - 'A' as int + 18
  }

  /** `volpiano_notes[k]` with Python's reading of a negative index as
      counting from the end. */
  function PyNoteAt(k: int): (c: char)
    requires -38 <= k < 38
    ensures IsPitch(c)
  {
    NotesArePitches();
    if k < 0 then NoteAt(38 + k) else NoteAt(k)
  }

  // ---------------------------------------------------------------------------
  // facts about the tables

  lemma NotesTable()
    ensures |VolpianoNotes| == 38
    ensures forall k :: 0 <= k < 19 ==> VolpianoNotes[k] == NoteAt(k)
    ensures forall k :: 19 <= k < 38 ==> VolpianoNotes[k] == NoteAt(k)
  {
  }

  lemma MarkersTable()
    ensures |IntervalMarkers| == 38
    ensures forall k :: 0 <= k < 19 ==> IntervalMarkers[k] == MarkerAt(k)
    ensures forall k :: 19 <= k < 38 ==> IntervalMarkers[k] == MarkerAt(k)
  {
  }

  lemma NotesArePitches()
    ensures forall k :: 0 <= k < 38 ==> IsPitch(NoteAt(k))
    ensures forall k :: 0 <= k < 19 ==> IsPlainPitch(NoteAt(k))
  {
  }

  lemma MarkersAreMarkers()
    ensures forall k :: 0 <= k < 38 ==> IsMarker(MarkerAt(k))
  {
  }

  /** The range predicates describe exactly the characters of the tables. */
  lemma PitchMembership(c: char)
    ensures IsPitch(c) <==> c in VolpianoNotes
  {
    NotesTable();
    NotesArePitches();
    if c in VolpianoNotes {
      var k :| 0 <= k < |VolpianoNotes| && VolpianoNotes[k] == c;
    }
    if IsPitch(c) {
      assert VolpianoNotes[NoteIndex(c)] == c;
    }
  }

  lemma MarkerMembership(c: char)
    ensures IsMarker(c) <==> c in IntervalMarkers
  {
    MarkersTable();
    MarkersAreMarkers();
    if c in IntervalMarkers {
      var k :| 0 <= k < |IntervalMarkers| && IntervalMarkers[k] == c;
    }
    if IsMarker(c) {
      assert IntervalMarkers[MarkerIndex(c)] == c;
    }
  }

  lemma PlainMembership(c: char)
    ensures IsPlainPitch(c) <==> c in VolpianoNotes[..19]
  {
    NotesTable();
    NotesArePitches();
    if c in VolpianoNotes[..19] {
      var k :| 0 <= k < 19 && VolpianoNotes[..19][k] == c;
    }
    if IsPlainPitch(c) {
      assert VolpianoNotes[..19][NoteIndex(c)] == c;
    }
  }

  /** `NoteIndex` and `MarkerIndex` are Python's `index` on the tables. */
  lemma IndexIsFirstPosition(c: char)
    ensures IsPitch(c) ==> VolpianoNotes[NoteIndex(c)] == c
                           && forall j :: 0 <= j < NoteIndex(c) ==> VolpianoNotes[j] != c
    ensures IsMarker(c) ==> IntervalMarkers[MarkerIndex(c)] == c
                            && forall j :: 0 <= j < MarkerIndex(c) ==> IntervalMarkers[j] != c
  {
    NotesTable();
    MarkersTable();
  }

  lemma NoteValues()
    ensures forall k :: 0 <= k < 19 ==> IsPitch(NoteAt(k)) && NoteValue(NoteAt(k)) == k
    ensures forall k :: 19 <= k < 38 ==> IsPitch(NoteAt(k)) && NoteValue(NoteAt(k)) == k - 19
  {
    forall k | 0 <= k < 38
      ensures IsPitch(NoteAt(k)) && NoteValue(NoteAt(k)) == if k < 19 then k else k - 19
    {
      NoteValueAt(k);
    }
  }

  lemma NoteValueAt(k: int)
    requires 0 <= k < 38
    ensures IsPitch(NoteAt(k)) && NoteValue(NoteAt(k)) == if k < 19 then k else k - 19
  {
    if k < 10 { NoteValuesFrom0(k); }
    else if k < 19 { NoteValuesFrom10(k); }
    else if k < 24 { NoteValuesFrom19(k); }
    else if k < 29 { NoteValuesFrom24(k); }
    else if k < 34 { NoteValuesFrom29(k); }
    else { NoteValuesFrom34(k); }
  }

  lemma NoteValuesFrom0(k: int)
    requires 0 <= k < 10
    ensures IsPitch(NoteAt(k)) && NoteValue(NoteAt(k)) == if k < 19 then k else k - 19
  {
    match k
    case 0 => {} case 1 => {} case 2 => {} case 3 => {} case 4 => {} case 5 => {}
    case 6 => {} case 7 => {} case 8 => {} case _ => {}
  }

  lemma NoteValuesFrom10(k: int)
    requires 10 <= k < 19
    ensures IsPitch(NoteAt(k)) && NoteValue(NoteAt(k)) == if k < 19 then k else k - 19
  {
    match k
    case 10 => {} case 11 => {} case 12 => {} case 13 => {} case 14 => {} case 15 => {}
    case 16 => {} case 17 => {} case _ => {}
  }

  lemma NoteValuesFrom19(k: int)
    requires 19 <= k < 24
    ensures IsPitch(NoteAt(k)) && NoteValue(NoteAt(k)) == if k < 19 then k else k - 19
  {
    match k
    case 19 => {} case 20 => {} case 21 => {} case 22 => {} case _ => {}
  }

  lemma NoteValuesFrom24(k: int)
    requires 24 <= k < 29
    ensures IsPitch(NoteAt(k)) && NoteValue(NoteAt(k)) == if k < 19 then k else k - 19
  {
    match k
    case 24 => {} case 25 => {} case 26 => {} case 27 => {} case _ => {}
  }

  lemma NoteValuesFrom29(k: int)
    requires 29 <= k < 34
    ensures IsPitch(NoteAt(k)) && NoteValue(NoteAt(k)) == if k < 19 then k else k - 19
  {
    match k
    case 29 => {} case 30 => {} case 31 => {} case 32 => {} case _ => {}
  }

  lemma NoteValuesFrom34(k: int)
    requires 34 <= k < 38
    ensures IsPitch(NoteAt(k)) && NoteValue(NoteAt(k)) == if k < 19 then k else k - 19
  {
    match k
    case 34 => {} case 35 => {} case 36 => {} case _ => {}
  }

  lemma NoteOrder()
    ensures forall i, j :: 0 <= i < j < 19 ==> NoteAt(i) < NoteAt(j)
  {
  }

  lemma NoteCase()
    ensures forall k :: 0 <= k < 19 ==> !IsUpper(NoteAt(k)) && ToLower(NoteAt(k)) == NoteAt(k)
  {
  }

  lemma NoteIndices()
    ensures forall k :: 0 <= k < 38 ==> IsPitch(NoteAt(k)) && NoteIndex(NoteAt(k)) == k
  {
  }

  lemma MarkerIndices()
    ensures forall k :: 0 <= k < 19 ==> IsMarker(MarkerAt(k)) && MarkerIndex(MarkerAt(k)) == k
  {
  }

  lemma MarkerCase()
    ensures forall k :: 0 <= k < 19 ==> !IsUpper(MarkerAt(k)) && ToLower(MarkerAt(k)) == MarkerAt(k)
    ensures forall k :: 0 <= k < 19 ==> IsUpper(ToUpper(MarkerAt(k))) && ToLower(ToUpper(MarkerAt(k))) == MarkerAt(k)
  {
  }

  /** Changing the case of a pitch or a marker gives a pitch or a marker. */
  lemma CaseClosed(c: char)
    ensures IsPitch(c) ==> IsPitch(ToUpper(c)) && IsPitch(ToLower(c)) && !IsUpper(ToLower(c))
    ensures IsMarker(c) ==> IsMarker(ToUpper(c)) && IsMarker(ToLower(c)) && !IsUpper(ToLower(c))
  {
  }

  // ---------------------------------------------------------------------------
  // one step

  /** `_calculate_interval`: the size of the step between two pitches, and
      whether it counts as downward. The direction is a comparison of the
      characters, not of their steps. */
  function CalculateInterval(a: char, b: char): (r: (nat, bool))
    requires IsPitch(a) && IsPitch(b)
    ensures r.0 < 19
  {
    var d := NoteValue(b) as int - NoteValue(a);
    (if d < 0 then -d else d, a > b)
  }

  /** `_interval_to_marker` */
  function MarkerFor(size: nat, negative: bool): (m: char)
    requires size < 19
    ensures IsMarker(m)
    ensures IsUpper(m) <==> negative
  {
    MarkerCase();
    MarkersAreMarkers();
    var marker := MarkerAt(size);
    if negative then ToUpper(marker) else marker
  }

  /** `_get_interval_from_marker` */
  function IntervalFromMarker(m: char): (iv: int)
    requires IsMarker(m)
    ensures -18 <= iv <= 18
    ensures iv < 0 ==> IsUpper(m)
  {
    CaseClosed(m);
    var size: int := MarkerIndex(ToLower(m));
    if IsUpper(m) then -size else size
  }

  /** Decoding a marker gives back the signed step it was made from. */
  lemma MarkerRoundTrip(size: nat, negative: bool)
    requires size < 19
    ensures IntervalFromMarker(MarkerFor(size, negative)) == if negative then -(size as int) else size
  {
    MarkerCase();
    MarkerIndices();
  }

  /** Every marker is the marker of the step it decodes to. */
  lemma MarkerOfInterval(m: char)
    requires IsMarker(m)
    ensures var iv := IntervalFromMarker(m);
            MarkerFor(if iv < 0 then -iv else iv, IsUpper(m)) == m
  {
    CaseClosed(m);
    MarkerCase();
  }

  /** `_get_next_note_in_interval`. The index `start + interval` may be
      negative, in which case Python counts it from the end of the table; it
      is always a valid index, so the step never fails. */
  function NextNote(start: char, interval: int): (n: char)
    requires IsPitch(start) && -18 <= interval <= 18
    ensures IsPitch(n)
    ensures IsUpper(start) ==> ToUpper(n) == n
  {
    CaseClosed(start);
    var liquescent := IsUpper(start);
    var next := PyNoteAt(NoteIndex(ToLower(start)) + interval);
    CaseClosed(next);
    if liquescent then ToUpper(next) else next
  }

  /** Between plain pitches, a step and its inverse agree with the steps of
      `note_values`, and the direction test agrees with them. */
  lemma PlainStep(i: nat, j: nat)
    requires i < 19 && j < 19
    ensures IsPitch(NoteAt(i)) && IsPitch(NoteAt(j))
    ensures var (size, negative) := CalculateInterval(NoteAt(i), NoteAt(j));
            (if negative then -(size as int) else size) == j - i
    ensures NextNote(NoteAt(i), j as int - i) == NoteAt(j)
  {
    NoteValues();
    NoteOrder();
    NoteCase();
    NoteIndices();
  }

  // ---------------------------------------------------------------------------
  // the two transforms

  /** The output for one character of a melody, given the previous pitch (if
      any). */
  function EncodeChar(previous: Option<char>, c: char): char
    requires previous.Some? ==> IsPitch(previous.value)
  {
    if !IsPitch(c) then c
    else if previous.None? then c
    else
      var (size, negative) := CalculateInterval(previous.value, c);
      MarkerFor(size, negative)
  }

  /** The previous pitch after reading `c`. */
  function AfterPitch(previous: Option<char>, c: char): Option<char>
  {
    if IsPitch(c) then Some(c) else previous
  }

  /** The loop of `transform_volpiano_to_intervals` from a given state. */
  function EncodeFrom(v: string, previous: Option<char>): (r: string)
    requires previous.Some? ==> IsPitch(previous.value)
    ensures |r| == |v|
    ensures forall k :: 0 <= k < |v| && !IsPitch(v[k]) ==> r[k] == v[k]
  {
    if v == [] then ""
    else [EncodeChar(previous, v[0])] + EncodeFrom(v[1..], AfterPitch(previous, v[0]))
  }

  /** No pitch occurs in `s`. */
  predicate NoPitch(s: string)
  {
    forall k :: 0 <= k < |s| ==> !IsPitch(s[k])
  }

  /** The last pitch of `s`, or `previous` if `s` has none. */
  function LastPitchOr(s: string, previous: Option<char>): (p: Option<char>)
    ensures p.Some? ==> IsPitch(p.value) || p == previous
    ensures NoPitch(s) ==> p == previous
  {
    if s == [] then previous
    else if IsPitch(s[|s| - 1]) then Some(s[|s| - 1])
    else LastPitchOr(s[..|s| - 1], previous)
  }

  lemma {:induction false} LastPitchCons(c: char, s: string, previous: Option<char>)
    ensures LastPitchOr([c] + s, previous) == LastPitchOr(s, AfterPitch(previous, c))
  {
    if s != [] {
      assert ([c] + s)[..|[c] + s| - 1] == [c] + s[..|s| - 1];
      LastPitchCons(c, s[..|s| - 1], previous);
    }
  }

  /** Position by position, a pitch is encoded from the last pitch before it:
      the state the loop threads through is exactly "the previous pitch". */
  lemma {:induction false} EncodeAt(v: string, previous: Option<char>, k: nat)
    requires previous.Some? ==> IsPitch(previous.value)
    requires k < |v|
    ensures LastPitchOr(v[..k], previous).Some? ==> IsPitch(LastPitchOr(v[..k], previous).value)
    ensures EncodeFrom(v, previous)[k] == EncodeChar(LastPitchOr(v[..k], previous), v[k])
  {
    if k > 0 {
      EncodeAt(v[1..], AfterPitch(previous, v[0]), k - 1);
      assert v[..k] == [v[0]] + v[1..][..k - 1];
      LastPitchCons(v[0], v[1..][..k - 1], previous);
    }
  }

  /** `transform_volpiano_to_intervals`: same length; every non-pitch
      character, every character before the first pitch and the first pitch
      itself are copied. */
  function ToIntervals(v: string): (r: string)
    ensures |r| == |v|
    ensures forall k :: 0 <= k < |v| && !IsPitch(v[k]) ==> r[k] == v[k]
    ensures forall k :: 0 <= k < |v| && NoPitch(v[..k]) ==> r[k] == v[k]
  {
    var r := EncodeFrom(v, None);
    assert forall k | 0 <= k < |v| && NoPitch(v[..k]) :: r[k] == v[k] by {
      forall k | 0 <= k < |v| && NoPitch(v[..k])
        ensures r[k] == v[k]
      {
        EncodeAt(v, None, k);
      }
    }
    r
  }

  /** Each later pitch becomes the marker of the step from the last pitch
      before it. */
  lemma EncodedMarker(v: string, k: nat)
    requires k < |v| && IsPitch(v[k]) && LastPitchOr(v[..k], None).Some?
    ensures IsPitch(LastPitchOr(v[..k], None).value)
    ensures var (size, negative) := CalculateInterval(LastPitchOr(v[..k], None).value, v[k]);
            ToIntervals(v)[k] == MarkerFor(size, negative)
  {
    EncodeAt(v, None, k);
  }

  /** The loop of `transform_intervals_to_volpiano` from a given state: the
      previous decoded pitch, if any. */
  function DecodeFrom(s: string, previous: Option<char>): (r: string)
    requires previous.Some? ==> IsPitch(previous.value)
    ensures |r| == |s|
    ensures forall k :: 0 <= k < |s| && !IsPitch(s[k]) && !IsMarker(s[k]) ==> r[k] == s[k]
  {
    if s == [] then ""
    else
      var c := s[0];
      if IsMarker(c) && previous.Some? then
        var note := NextNote(previous.value, IntervalFromMarker(c));
        [note] + DecodeFrom(s[1..], Some(note))
      else if IsPitch(c) && previous.None? then
        [c] + DecodeFrom(s[1..], Some(c))
      else
        [c] + DecodeFrom(s[1..], previous)
  }

  /** `transform_intervals_to_volpiano` */
  function ToVolpiano(s: string): (r: string)
    ensures |r| == |s|
    ensures forall k :: 0 <= k < |s| && !IsPitch(s[k]) && !IsMarker(s[k]) ==> r[k] == s[k]
    ensures forall k :: 0 <= k < |s| && NoPitch(s[..k]) ==> r[k] == s[k]
  {
    var r := DecodeFrom(s, None);
    assert forall k | 0 <= k < |s| && NoPitch(s[..k]) :: r[k] == s[k] by {
      forall k | 0 <= k < |s| && NoPitch(s[..k])
        ensures r[k] == s[k]
      {
        DecodeCopiesUntilPitch(s, k);
      }
    }
    r
  }

  /** Before the first pitch has been read nothing is decoded, so the first
      pitch and everything in front of it are copied. */
  lemma {:induction false} DecodeCopiesUntilPitch(s: string, k: nat)
    requires k < |s| && NoPitch(s[..k])
    ensures DecodeFrom(s, None)[k] == s[k]
  {
    if k > 0 {
      assert s[..k][0] == s[0];
      assert s[1..][..k - 1] == s[..k][1..];
      DecodeCopiesUntilPitch(s[1..], k - 1);
    }
  }

  /** Until a pitch has been read, decoding copies its input. */
  lemma {:induction false} DecodeWithoutPitches(s: string)
    requires NoPitch(s)
    ensures DecodeFrom(s, None) == s
  {
    if s != [] {
      DecodeWithoutPitches(s[1..]);
    }
  }

  /** A string without pitches is returned unchanged by both transforms. */
  lemma WithoutPitches(s: string)
    requires NoPitch(s)
    ensures ToIntervals(s) == s && ToVolpiano(s) == s
  {
    DecodeWithoutPitches(s);
    assert forall k :: 0 <= k < |s| ==> NoPitch(s[..k]);
  }

  // ---------------------------------------------------------------------------
  // round trip

  /** The melodies the two transforms invert each other on: every pitch is
      plain, and no other character could be read as a marker. */
  predicate Plain(v: string)
  {
    forall k :: 0 <= k < |v| ==> (IsPitch(v[k]) ==> IsPlainPitch(v[k])) && (!IsPitch(v[k]) ==> !IsMarker(v[k]))
  }

  lemma {:induction false} RoundTripFrom(v: string, previous: Option<char>)
    requires previous.Some? ==> IsPlainPitch(previous.value)
    requires Plain(v)
    ensures previous.Some? ==> IsPitch(previous.value)
    ensures DecodeFrom(EncodeFrom(v, previous), previous) == v
  {
    if v != [] {
      var c := v[0];
      var rest := EncodeFrom(v[1..], AfterPitch(previous, c));
      assert EncodeFrom(v, previous) == [EncodeChar(previous, c)] + rest;
      assert Plain(v[1..]) by {
        assert forall k :: 0 <= k < |v[1..]| ==> v[1..][k] == v[k + 1];
      }
      DecodeStep(previous, c, rest);
      RoundTripFrom(v[1..], AfterPitch(previous, c));
      assert v == [c] + v[1..];
    }
  }

  /** Decoding the code of one plain character gives it back and moves on
      with the same previous pitch as encoding. */
  lemma DecodeStep(previous: Option<char>, c: char, rest: string)
    requires previous.Some? ==> IsPlainPitch(previous.value)
    requires IsPitch(c) ==> IsPlainPitch(c)
    requires !IsPitch(c) ==> !IsMarker(c)
    ensures previous.Some? ==> IsPitch(previous.value)
    ensures DecodeFrom([EncodeChar(previous, c)] + rest, previous) == [c] + DecodeFrom(rest, AfterPitch(previous, c))
  {
    var s := [EncodeChar(previous, c)] + rest;
    assert s[1..] == rest;
    if IsPitch(c) && previous.Some? {
      MarkerStep(previous.value, c, rest);
    } else if IsPitch(c) {
      assert s[0] == c;
    } else {
      assert s[0] == c;
    }
  }

  /** A later plain pitch is encoded as a marker that decodes back to it. */
  lemma MarkerStep(p: char, c: char, rest: string)
    requires IsPlainPitch(p) && IsPlainPitch(c)
    ensures IsPitch(p) && IsPitch(c)
    ensures DecodeFrom([EncodeChar(Some(p), c)] + rest, Some(p)) == [c] + DecodeFrom(rest, Some(c))
  {
    var m := EncodeChar(Some(p), c);
    MarkerDecodes(p, c);
    DecodeMarker(p, m, rest);
  }

  lemma MarkerDecodes(p: char, c: char)
    requires IsPlainPitch(p) && IsPlainPitch(c)
    ensures IsPitch(p) && IsPitch(c)
    ensures IsMarker(EncodeChar(Some(p), c))
    ensures NextNote(p, IntervalFromMarker(EncodeChar(Some(p), c))) == c
  {
    var i, j := NoteIndex(p), NoteIndex(c);
    PlainStep(i, j);
    var r := CalculateInterval(p, c);
    MarkerRoundTrip(r.0, r.1);
    assert EncodeChar(Some(p), c) == MarkerFor(r.0, r.1);
    assert IntervalFromMarker(MarkerFor(r.0, r.1)) == j as int - i;
  }

  /** One step of the decoding loop at a marker after a pitch. */
  lemma DecodeMarker(p: char, m: char, rest: string)
    requires IsPitch(p) && IsMarker(m)
    ensures DecodeFrom([m] + rest, Some(p)) == [NextNote(p, IntervalFromMarker(m))] + DecodeFrom(rest, Some(NextNote(p, IntervalFromMarker(m))))
  {
    assert ([m] + rest)[1..] == rest;
  }

  /** Decoding inverts encoding on melodies of plain pitches. */
  lemma RoundTrip(v: string)
    requires Plain(v)
    ensures ToVolpiano(ToIntervals(v)) == v
  {
    RoundTripFrom(v, None);
  }

  /** The example of the module's design notes: a rising and falling line. */
  lemma RisingAndFalling()
    ensures ToIntervals("9abcba") == "9bbbBB"
    ensures ToVolpiano("9bbbBB") == "9abcba"
  {
    RisingAndFallingEncodes();
    RisingAndFallingPlain();
    RoundTrip("9abcba");
  }

  lemma RisingAndFallingPlain()
    ensures Plain("9abcba")
  {
    var v := "9abcba";
    forall k | 0 <= k < |v|
      ensures IsPlainPitch(v[k])
    {
      assert v[k] in ['9', 'a', 'b', 'c'];
    }
  }

  lemma RisingAndFallingEncodes()
    ensures ToIntervals("9abcba") == "9bbbBB"
  {
    RiseEncodes();
  }

  lemma RiseEncodes()
    ensures EncodeFrom("abcba", Some('9')) == "bbbBB"
  {
    TopEncodes();
    assert MarkerFor(1, false) == 'b';
  }

  lemma TopEncodes()
    ensures EncodeFrom("bcba", Some('a')) == "bbBB"
  {
    FallingEncodes();
    assert MarkerFor(1, false) == 'b';
  }

  lemma FallingEncodes()
    ensures EncodeFrom("cba", Some('b')) == "bBB"
  {
    assert MarkerFor(1, false) == 'b' && MarkerFor(1, true) == 'B';
    assert EncodeFrom("a", Some('b')) == "B";
    assert EncodeFrom("ba", Some('c')) == "BB";
  }

  /** Liquescent pitches do not round-trip: the step from `a` up to `B` is
      marked as downward because `'a' > 'B'` as characters, and decodes to
      the pitch below `a`. */
  lemma LiquescentStep()
    ensures ToIntervals("aB") == "aB"
    ensures ToVolpiano("aB") == "a9"
  {
    assert CalculateInterval('a', 'B') == (1, true);
    assert MarkerFor(1, true) == 'B';
    assert EncodeFrom("B", Some('a')) == "B";
    assert EncodeFrom("aB", None) == "aB";
    assert IntervalFromMarker('B') == -1;
    assert NextNote('a', -1) == '9';
    assert DecodeFrom("B", Some('a')) == "9";
    assert DecodeFrom("aB", None) == "a9";
  }

  /** `)` has the step of `9` but sorts below it, so it is encoded as a
      downward step of size zero and decodes to `9`. */
  lemma LiquescentNine()
    ensures ToIntervals("9)") == "9A"
    ensures ToVolpiano("9A") == "99"
  {
    assert CalculateInterval('9', ')') == (0, true);
    assert MarkerFor(0, true) == 'A';
    assert EncodeFrom(")", Some('9')) == "A";
    assert IntervalFromMarker('A') == 0;
    assert NextNote('9', 0) == '9';
    assert DecodeFrom("A", Some('9')) == "9";
  }
}
