/** Python string primitives the source relies on (`str.split`, `str.join`,
    `str.replace`, `str.count`, `str.split()` on whitespace), written out so
    that the modules modelling the source can state what they do. Every
    string is a `seq<char>`; Python's string operations work on code points,
    and so do these. */
module Strings {

  /** Number of occurrences of `c` in `s` (Python `s.count(c)`). */
  function Count(s: string, c: char): nat
  {
    if s == [] then 0 else (if s[0] == c then 1 else 0) + Count(s[1..], c)
  }

  /** `n` copies of `c` (Python `c * n`). */
  function Repeat(c: char, n: nat): (r: string)
    ensures |r| == n
    ensures forall k :: 0 <= k < n ==> r[k] == c
  {
    if n == 0 then "" else [c] + Repeat(c, n - 1)
  }

  /** Concatenation regroups freely. */
  lemma Regroup<T>(a: seq<T>, b: seq<T>, c: seq<T>)
    ensures a + (b + c) == (a + b) + c
  {
  }

  /** The characters of `s` that satisfy `keep`, in order. */
  function Filter(s: string, keep: char -> bool): (r: string)
    ensures |r| <= |s|
    ensures forall k :: 0 <= k < |r| ==> keep(r[k])
  {
    if s == [] then "" else (if keep(s[0]) then [s[0]] else "") + Filter(s[1..], keep)
  }

  lemma {:induction false} FilterAppend(a: string, b: string, keep: char -> bool)
    ensures Filter(a + b, keep) == Filter(a, keep) + Filter(b, keep)
  {
    if a != [] {
      assert (a + b)[0] == a[0];
      assert (a + b)[1..] == a[1..] + b;
      FilterAppend(a[1..], b, keep);
    } else {
      assert a + b == b;
    }
  }

  /** Filtering a string whose characters all pass leaves it unchanged. */
  lemma {:induction false} FilterAll(s: string, keep: char -> bool)
    requires forall k :: 0 <= k < |s| ==> keep(s[k])
    ensures Filter(s, keep) == s
  {
    if s != [] {
      FilterAll(s[1..], keep);
    }
  }

  /** Filtering a string none of whose characters pass gives the empty string. */
  lemma {:induction false} FilterNone(s: string, keep: char -> bool)
    requires forall k :: 0 <= k < |s| ==> !keep(s[k])
    ensures Filter(s, keep) == ""
  {
    if s != [] {
      FilterNone(s[1..], keep);
    }
  }

  /** Two filters in a row are one filter by the conjunction. */
  lemma {:induction false} FilterFilter(s: string, first: char -> bool, second: char -> bool, both: char -> bool)
    requires forall c :: both(c) == (first(c) && second(c))
    ensures Filter(Filter(s, first), second) == Filter(s, both)
  {
    if s != [] {
      FilterFilter(s[1..], first, second, both);
      FilterAppend(if first(s[0]) then [s[0]] else "", Filter(s[1..], first), second);
    }
  }

  // ---------------------------------------------------------------------------
  // split / join on a one-character separator

  /** Python `s.split(sep)` for a one-character separator: the pieces between
      separators, always at least one (`"".split("~") == [""]`). */
  function Split(s: string, sep: char): (r: seq<string>)
    ensures |r| == Count(s, sep) + 1
    ensures forall k :: 0 <= k < |r| ==> sep !in r[k]
  {
    if s == [] then [""]
    else
      var rest := Split(s[1..], sep);
      if s[0] == sep then [""] + rest
      else [[s[0]] + rest[0]] + rest[1..]
  }

  /** Python `sep.join(parts)`. */
  function Join(parts: seq<string>, sep: string): string
  {
    if |parts| == 0 then ""
    else if |parts| == 1 then parts[0]
    else parts[0] + sep + Join(parts[1..], sep)
  }

  /** Python `"".join(parts)`. */
  function Concat(parts: seq<string>): string
  {
    if parts == [] then "" else parts[0] + Concat(parts[1..])
  }

  lemma {:induction false} ConcatAppend(a: seq<string>, b: seq<string>)
    ensures Concat(a + b) == Concat(a) + Concat(b)
  {
    if a != [] {
      assert (a + b)[0] == a[0];
      assert (a + b)[1..] == a[1..] + b;
      ConcatAppend(a[1..], b);
    } else {
      assert a + b == b;
    }
  }

  /** Joining the pieces of a split with the separator gives back the string. */
  lemma {:induction false} JoinSplit(s: string, sep: char)
    ensures Join(Split(s, sep), [sep]) == s
  {
    if s != [] {
      var rest := Split(s[1..], sep);
      JoinSplit(s[1..], sep);
      if s[0] == sep {
        assert Split(s, sep) == [""] + rest;
        assert (["" ] + rest)[1..] == rest;
      } else {
        var r := Split(s, sep);
        assert r == [[s[0]] + rest[0]] + rest[1..];
        if |rest| > 1 {
          assert r[1..] == rest[1..];
          assert Join(rest, [sep]) == rest[0] + [sep] + Join(rest[1..], [sep]);
        }
      }
    }
  }

  /** Splitting at one separator splits the two sides independently. */
  lemma {:induction false} SplitAppend(a: string, b: string, sep: char)
    ensures Split(a + [sep] + b, sep) == Split(a, sep) + Split(b, sep)
  {
    if a == [] {
      assert (a + [sep] + b)[1..] == b;
    } else {
      assert (a + [sep] + b)[1..] == a[1..] + [sep] + b;
      SplitAppend(a[1..], b, sep);
    }
  }

  lemma {:induction false} SplitWithoutSeparator(s: string, sep: char)
    requires sep !in s
    ensures Split(s, sep) == [s]
  {
    if s != [] {
      SplitWithoutSeparator(s[1..], sep);
      assert [s[0]] + s[1..] == s;
    }
  }

  /** Joining pieces that avoid `c` with a separator that avoids `c` avoids `c`. */
  lemma {:induction false} JoinAvoids(parts: seq<string>, sep: string, c: char)
    requires c !in sep
    requires forall k :: 0 <= k < |parts| ==> c !in parts[k]
    ensures c !in Join(parts, sep)
  {
    if |parts| > 1 {
      JoinAvoids(parts[1..], sep, c);
    }
  }

  /** Every piece of a split avoids the characters the whole string avoids. */
  lemma {:induction false} SplitAvoids(s: string, sep: char, c: char)
    requires c !in s
    ensures forall k :: 0 <= k < |Split(s, sep)| ==> c !in Split(s, sep)[k]
  {
    if s != [] {
      SplitAvoids(s[1..], sep, c);
    }
  }

  /** Joining with one more piece at the end adds the separator and the piece. */
  lemma {:induction false} JoinSnoc(parts: seq<string>, last: string, sep: string)
    requires |parts| > 0
    ensures Join(parts + [last], sep) == Join(parts, sep) + sep + last
  {
    if |parts| == 1 {
      assert parts + [last] == [parts[0], last];
    } else {
      assert (parts + [last])[1..] == parts[1..] + [last];
      JoinSnoc(parts[1..], last, sep);
    }
  }

  /** Filtering out a one-character separator from a join keeps the filtered
      pieces, in order. */
  lemma {:induction false} FilterJoin(parts: seq<string>, sep: char, keep: char -> bool)
    requires !keep(sep)
    ensures Filter(Join(parts, [sep]), keep) == Filter(Concat(parts), keep)
  {
    if |parts| == 1 {
      assert parts[1..] == [];
      assert Concat(parts) == parts[0] + "" == parts[0];
    } else if |parts| > 1 {
      FilterJoin(parts[1..], sep, keep);
      FilterAppend(parts[0] + [sep], Join(parts[1..], [sep]), keep);
      FilterAppend(parts[0], [sep], keep);
      FilterAppend(parts[0], Concat(parts[1..]), keep);
      assert Filter([sep], keep) == "";
    }
  }

  /** Splitting a join of separator-free pieces gives back the pieces. */
  lemma {:induction false} SplitJoin(parts: seq<string>, sep: char)
    requires |parts| > 0
    requires forall k :: 0 <= k < |parts| ==> sep !in parts[k]
    ensures Split(Join(parts, [sep]), sep) == parts
  {
    SplitWithoutSeparator(parts[0], sep);
    if |parts| > 1 {
      SplitJoin(parts[1..], sep);
      SplitAppend(parts[0], Join(parts[1..], [sep]), sep);
      assert Join(parts, [sep]) == parts[0] + [sep] + Join(parts[1..], [sep]);
    }
  }

  // ---------------------------------------------------------------------------
  // replace

  /** Python `s.replace(pat, rep)`: scans left to right and replaces every
      non-overlapping occurrence of `pat`. */
  function Replace(s: string, pat: string, rep: string): string
    requires |pat| > 0
    decreases |s|
  {
    if |s| < |pat| then s
    else if s[..|pat|] == pat then rep + Replace(s[|pat|..], pat, rep)
    else [s[0]] + Replace(s[1..], pat, rep)
  }

  /** A leading character that cannot start the pattern is copied and the
      scan goes on after it. */
  lemma ReplaceSkipsHead(c: char, rest: string, pat: string, rep: string)
    requires |pat| > 0 && c != pat[0]
    ensures Replace([c] + rest, pat, rep) == [c] + Replace(rest, pat, rep)
  {
    var s := [c] + rest;
    assert s[1..] == rest;
    if |s| >= |pat| {
      assert s[..|pat|][0] == c;
    }
  }

  /** A prefix none of whose characters can start the pattern is copied. */
  lemma {:induction false} ReplaceSkipsPrefix(a: string, rest: string, pat: string, rep: string)
    requires |pat| > 0 && pat[0] !in a
    ensures Replace(a + rest, pat, rep) == a + Replace(rest, pat, rep)
  {
    if a != [] {
      assert a + rest == [a[0]] + (a[1..] + rest);
      ReplaceSkipsHead(a[0], a[1..] + rest, pat, rep);
      ReplaceSkipsPrefix(a[1..], rest, pat, rep);
    } else {
      assert a + rest == rest;
    }
  }

  /** Replacing a character by nothing deletes it. */
  lemma {:induction false} ReplaceCharByNothing(s: string, c: char, keep: char -> bool)
    requires forall x :: keep(x) == (x != c)
    ensures Replace(s, [c], "") == Filter(s, keep)
  {
    if s != [] {
      ReplaceCharByNothing(s[1..], c, keep);
      assert s[..1] == [s[0]];
    }
  }

  /** Replacing a character by a string without `d` cannot bring `d` in. */
  lemma {:induction false} ReplaceCharKeepsAbsent(s: string, c: char, rep: string, d: char)
    requires d !in s && d !in rep
    ensures d !in Replace(s, [c], rep)
  {
    if s != [] {
      ReplaceCharKeepsAbsent(s[1..], c, rep, d);
    }
  }

  /** Replacing one character works character by character. */
  lemma {:induction false} ReplaceCharAppend(a: string, b: string, c: char, rep: string)
    ensures Replace(a + b, [c], rep) == Replace(a, [c], rep) + Replace(b, [c], rep)
  {
    if a != [] {
      assert (a + b)[..1] == a[..1] == [a[0]];
      assert (a + b)[1..] == a[1..] + b;
      ReplaceCharAppend(a[1..], b, c, rep);
      if a[0] == c {
        assert Replace(a + b, [c], rep) == rep + Replace(a[1..] + b, [c], rep);
        assert Replace(a, [c], rep) == rep + Replace(a[1..], [c], rep);
      } else {
        assert Replace(a + b, [c], rep) == [a[0]] + Replace(a[1..] + b, [c], rep);
        assert Replace(a, [c], rep) == [a[0]] + Replace(a[1..], [c], rep);
      }
    } else {
      assert a + b == b;
    }
  }

  /** Replacing a character removes every occurrence of it when the
      replacement does not contain it. */
  lemma {:induction false} ReplaceCharRemoves(s: string, c: char, rep: string)
    requires c !in rep
    ensures c !in Replace(s, [c], rep)
  {
    if s != [] {
      ReplaceCharRemoves(s[1..], c, rep);
    }
  }

  /** A string without the pattern's character is left unchanged. */
  lemma {:induction false} ReplaceCharAbsent(s: string, c: char, rep: string)
    requires c !in s
    ensures Replace(s, [c], rep) == s
  {
    if s != [] {
      ReplaceCharAbsent(s[1..], c, rep);
      assert s[..1] == [s[0]] != [c];
      assert [s[0]] + s[1..] == s;
    }
  }

  // ---------------------------------------------------------------------------
  // whitespace

  /** Python's `str.isspace` for one character (the set `str.split()` and
      `str.strip()` treat as whitespace). */
  predicate IsPyWhitespace(c: char)
  {
    || ('\t' <= c <= '\r')
    || ('\U{001C}' <= c <= ' ')
    || c == '\U{0085}' || c == '\U{00A0}' || c == '\U{1680}'
    || ('\U{2000}' <= c <= '\U{200A}')
    || c == '\U{2028}' || c == '\U{2029}' || c == '\U{202F}'
    || c == '\U{205F}' || c == '\U{3000}'
  }

  predicate NoWhitespace(s: string)
  {
    forall k :: 0 <= k < |s| ==> !IsPyWhitespace(s[k])
  }

  /** Length of the leading run of non-whitespace characters. */
  function LeadingWord(s: string): (n: nat)
    ensures n <= |s|
    ensures NoWhitespace(s[..n])
    ensures n < |s| ==> IsPyWhitespace(s[n])
  {
    if s == [] || IsPyWhitespace(s[0]) then 0
    else
      var m := LeadingWord(s[1..]);
      assert s[..1 + m] == [s[0]] + s[1..][..m];
      1 + m
  }

  /** Python `s.split()`: the maximal runs of non-whitespace characters. */
  function WhitespaceSplit(s: string): (r: seq<string>)
    ensures forall k :: 0 <= k < |r| ==> |r[k]| > 0 && NoWhitespace(r[k])
    decreases |s|
  {
    if s == [] then []
    else if IsPyWhitespace(s[0]) then WhitespaceSplit(s[1..])
    else
      var n := LeadingWord(s);
      [s[..n]] + WhitespaceSplit(s[n..])
  }

  /** The words of `s.split()`, put back together, are the non-whitespace
      characters of `s` in order. */
  lemma {:induction false} WhitespaceSplitKeepsText(s: string)
    ensures Concat(WhitespaceSplit(s)) == Filter(s, c => !IsPyWhitespace(c))
    decreases |s|
  {
    var keep := c => !IsPyWhitespace(c);
    if s != [] {
      if IsPyWhitespace(s[0]) {
        WhitespaceSplitKeepsText(s[1..]);
      } else {
        var n := LeadingWord(s);
        WhitespaceSplitKeepsText(s[n..]);
        assert s == s[..n] + s[n..];
        FilterAppend(s[..n], s[n..], keep);
        FilterAll(s[..n], keep);
      }
    }
  }

  /** The words of `s.split()` avoid every character `s` avoids. */
  lemma {:induction false} WhitespaceSplitAvoids(s: string, c: char)
    requires c !in s
    ensures forall k :: 0 <= k < |WhitespaceSplit(s)| ==> c !in WhitespaceSplit(s)[k]
    decreases |s|
  {
    if s != [] {
      if IsPyWhitespace(s[0]) {
        WhitespaceSplitAvoids(s[1..], c);
      } else {
        var n := LeadingWord(s);
        WhitespaceSplitAvoids(s[n..], c);
        assert forall k :: 0 <= k < n ==> s[..n][k] == s[k];
      }
    }
  }

  /** Joining whitespace-free words with a whitespace-free separator yields a
      whitespace-free string. */
  lemma {:induction false} JoinNoWhitespace(parts: seq<string>, sep: string)
    requires NoWhitespace(sep)
    requires forall k :: 0 <= k < |parts| ==> NoWhitespace(parts[k])
    ensures NoWhitespace(Join(parts, sep))
  {
    if |parts| > 1 {
      JoinNoWhitespace(parts[1..], sep);
    }
  }

  /** Python `s.strip()`: drops leading and trailing whitespace. */
  function Strip(s: string): (r: string)
    ensures |r| <= |s|
    ensures |r| > 0 ==> !IsPyWhitespace(r[0]) && !IsPyWhitespace(r[|r| - 1])
    decreases |s|
  {
    if s == [] then s
    else if IsPyWhitespace(s[0]) then Strip(s[1..])
    else if IsPyWhitespace(s[|s| - 1]) then Strip(s[..|s| - 1])
    else s
  }
}
