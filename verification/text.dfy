/**
 The string operations the dashboard applies to its free-text columns, with
 the semantics of Python's `str` methods: `strip()`, `upper()`, `split()`,
 `split(sep)`, `sep.join(parts)`, and the character-class deletion done by
 `re.sub(r"[\"\'.,;:!?()\-]", '', text)`.
 */
module Text {
  import opened Sequences
  import opened Optional

  /** Python's `str.isspace`: the characters `split()` and `strip()` treat as whitespace. */
  predicate IsSpace(c: char) {
    c == ' ' || ('\t' <= c <= '\r') || ('\U{1C}' <= c <= '\U{1F}') ||
    c == '\U{85}' || c == '\U{A0}' || c == '\U{1680}' || ('\U{2000}' <= c <= '\U{200A}') ||
    c == '\U{2028}' || c == '\U{2029}' || c == '\U{202F}' || c == '\U{205F}' || c == '\U{3000}'
  }

  predicate AllSpace(s: string) {
    forall i :: 0 <= i < |s| ==> IsSpace(s[i])
  }

  /** No whitespace at either end: the shape `strip()` returns. */
  predicate IsStripped(s: string) {
    s == [] || (!IsSpace(s[0]) && !IsSpace(s[|s| - 1]))
  }

  // ---------------------------------------------------------------- strip

  /** Number of whitespace characters at the start of `s`. */
  function LeadingSpaces(s: string): (n: nat)
    ensures n <= |s|
    ensures forall i :: 0 <= i < n ==> IsSpace(s[i])
    ensures n == |s| || !IsSpace(s[n])
  {
    if s != [] && IsSpace(s[0]) then 1 + LeadingSpaces(s[1..]) else 0
  }

  /** Number of whitespace characters at the end of `s`. */
  function TrailingSpaces(s: string): (n: nat)
    ensures n <= |s|
    ensures forall i :: |s| - n <= i < |s| ==> IsSpace(s[i])
    ensures n == |s| || !IsSpace(s[|s| - n - 1])
  {
    if s != [] && IsSpace(s[|s| - 1]) then
      var n := TrailingSpaces(s[..|s| - 1]);
      assert forall i :: |s| - 1 - n <= i < |s| - 1 ==> s[..|s| - 1][i] == s[i];
      1 + n
    else 0
  }

  /** `lstrip()`: the longest suffix that does not start with whitespace. */
  function TrimStart(s: string): (r: string)
    ensures |r| <= |s| && r == s[|s| - |r|..]
    ensures AllSpace(s[..|s| - |r|])
    ensures r == [] || !IsSpace(r[0])
  {
    s[LeadingSpaces(s)..]
  }

  /** `rstrip()`: the longest prefix that does not end with whitespace. */
  function TrimEnd(s: string): (r: string)
    ensures |r| <= |s| && r == s[..|r|]
    ensures AllSpace(s[|r|..])
    ensures r == [] || !IsSpace(r[|r| - 1])
  {
    s[..|s| - TrailingSpaces(s)]
  }

  /** `strip()`: `s` with its leading and trailing whitespace removed. */
  function Strip(s: string): (r: string)
    ensures |r| <= |s|
    ensures IsStripped(r)
  {
    var t := TrimStart(s);
    var r := TrimEnd(t);
    assert IsStripped(r) by {
      if r != [] {
        assert r[0] == t[0];
      }
    }
    r
  }

  /** What `strip()` removes is whitespace at the two ends, and only that. */
  lemma StripShape(s: string)
    ensures var r := Strip(s);
      exists i :: 0 <= i <= |s| - |r| && r == s[i..i + |r|] && AllSpace(s[..i]) && AllSpace(s[i + |r|..])
  {
    var t := TrimStart(s);
    var r := TrimEnd(t);
    var i := |s| - |t|;
    assert t == s[i..];
    assert r == s[i..][..|r|];
    assert r == s[i..i + |r|];
    assert s[i + |r|..] == t[|r|..];
  }

  /** Stripping a string that is already stripped changes nothing. */
  lemma StripIdempotent(s: string)
    requires IsStripped(s)
    ensures Strip(s) == s
  {
  }

  // ---------------------------------------------------------------- upper

  /** The characters `upper()` changes, within ASCII and Latin-1. */
  predicate IsLower(c: char) {
    ('a' <= c <= 'z') || ('\U{E0}' <= c <= '\U{FE}' && c != '\U{F7}') || c == '\U{B5}' || c == '\U{FF}'
  }

  /** The upper-case form of one character, as `str.upper` gives it. */
  function UpperChar(c: char): (u: char)
    ensures !IsLower(u)
    ensures IsSpace(u) == IsSpace(c)
    ensures !IsLower(c) ==> u == c
  {
    if 'a' <= c <= 'z' || ('\U{E0}' <= c <= '\U{FE}' && c != '\U{F7}') then (c as int - 32) as char
    else if c == '\U{B5}' then '\U{39C}'
    else if c == '\U{FF}' then '\U{178}'
    else c
  }

  /** The capitals `UpperChar` produces from a letter that has a Latin-1 capital. */
  predicate IsCapital(c: char) {
    ('A' <= c <= 'Z') || ('\U{C0}' <= c <= '\U{DE}' && c != '\U{D7}') || c == '\U{178}'
  }

  /** `str.lower` on one of those capitals; any other character is kept. */
  function LowerChar(c: char): char {
    if 'A' <= c <= 'Z' || ('\U{C0}' <= c <= '\U{DE}' && c != '\U{D7}') then (c as int + 32) as char
    else if c == '\U{178}' then '\U{FF}'
    else c
  }

  /**
   Upper- and lower-casing are inverse on letters with a Latin-1 capital:
   each such letter becomes a different character, its own capital, and
   each capital comes back from its own lower-case letter. (`µ` goes to the
   Greek capital U+039C, whose lower case is not `µ`.)
   */
  lemma UpperLowerRoundTrip(c: char)
    ensures IsLower(c) && c != '\U{B5}' ==> IsCapital(UpperChar(c)) && LowerChar(UpperChar(c)) == c
    ensures IsCapital(c) ==> IsLower(LowerChar(c)) && UpperChar(LowerChar(c)) == c
  {
  }

  /** No character left that `upper()` would change. */
  predicate IsUpperCased(s: string) {
    forall i :: 0 <= i < |s| ==> !IsLower(s[i])
  }

  /** `upper()`: character by character, keeping length and whitespace positions. */
  function Upper(s: string): (r: string)
    ensures |r| == |s|
    ensures forall i :: 0 <= i < |s| ==> r[i] == UpperChar(s[i])
    ensures IsUpperCased(r)
    ensures forall i :: 0 <= i < |s| ==> IsSpace(r[i]) == IsSpace(s[i])
    ensures IsUpperCased(s) ==> r == s
  {
    seq(|s|, i requires 0 <= i < |s| => UpperChar(s[i]))
  }

  /** Upper-casing twice is upper-casing once. */
  lemma UpperIdempotent(s: string)
    ensures Upper(Upper(s)) == Upper(s)
  {
  }

  /** Upper-casing a stripped string leaves it stripped. */
  lemma UpperKeepsStripped(s: string)
    requires IsStripped(s)
    ensures IsStripped(Upper(s))
  {
  }

  // ---------------------------------------------------------------- split(sep) / join

  /** `sep` occurs in `s` starting at index `j`. */
  predicate OccursAt(s: string, sep: string, j: int) {
    0 <= j && j + |sep| <= |s| && s[j..j + |sep|] == sep
  }

  predicate Contains(s: string, sep: string) {
    exists j :: 0 <= j <= |s| && OccursAt(s, sep, j)
  }

  /** The first index at or after `from` where `sep` occurs, as `str.find` scans. */
  function FindFrom(s: string, sep: string, from: nat): (r: Option<nat>)
    decreases |s| - from
    ensures r.Some? ==> from <= r.value && OccursAt(s, sep, r.value)
    ensures r.Some? ==> forall k :: from <= k < r.value ==> !OccursAt(s, sep, k)
    ensures r.None? ==> forall k :: from <= k ==> !OccursAt(s, sep, k)
  {
    if from + |sep| > |s| then None
    else if s[from..from + |sep|] == sep then Some(from)
    else FindFrom(s, sep, from + 1)
  }

  /** `s.split(sep)`: the pieces between non-overlapping occurrences found left to right. */
  function Split(s: string, sep: string): (parts: seq<string>)
    requires |sep| > 0
    decreases |s|
    ensures |parts| >= 1
  {
    match FindFrom(s, sep, 0)
    case None => [s]
    case Some(j) => [s[..j]] + Split(s[j + |sep|..], sep)
  }

  /** No piece of a split contains the separator. */
  lemma {:induction false} SplitPiecesFree(s: string, sep: string)
    requires |sep| > 0
    decreases |s|
    ensures forall i :: 0 <= i < |Split(s, sep)| ==> !Contains(Split(s, sep)[i], sep)
  {
    match FindFrom(s, sep, 0)
    case None =>
    case Some(j) =>
      PrefixBeforeFirst(s, sep, j);
      SplitPiecesFree(s[j + |sep|..], sep);
  }

  /** The text before the first occurrence of `sep` does not contain `sep`. */
  lemma PrefixBeforeFirst(s: string, sep: string, j: nat)
    requires |sep| > 0 && j <= |s|
    requires forall k :: 0 <= k < j ==> !OccursAt(s, sep, k)
    ensures !Contains(s[..j], sep)
  {
    forall k | 0 <= k <= j && OccursAt(s[..j], sep, k) ensures false {
      assert s[..j][k..k + |sep|] == s[k..k + |sep|];
      assert OccursAt(s, sep, k);
    }
  }

  /** Combined length of the parts. */
  function TotalLength(parts: seq<string>): nat {
    if parts == [] then 0 else |parts[0]| + TotalLength(parts[1..])
  }

  /**
   `sep.join(parts)`: the parts with one separator between each neighbouring
   pair, so `n` parts take `n - 1` separators and no part is lost.
   */
  function Join(parts: seq<string>, sep: string): (r: string)
    ensures parts == [] ==> r == []
    ensures parts != [] ==> |r| + |sep| == TotalLength(parts) + |parts| * |sep|
  {
    if parts == [] then []
    else if |parts| == 1 then parts[0]
    else
      var rest := Join(parts[1..], sep);
      assert |parts| * |sep| == |sep| + |parts[1..]| * |sep|;
      parts[0] + sep + rest
  }

  lemma JoinCons(a: string, tail: seq<string>, sep: string)
    requires tail != []
    ensures Join([a] + tail, sep) == a + sep + Join(tail, sep)
  {
    assert ([a] + tail)[1..] == tail;
  }

  /** Cutting `s` around an occurrence of `sep` and gluing it back with `sep` gives `s`. */
  lemma Reglue(s: string, sep: string, j: nat)
    requires OccursAt(s, sep, j)
    ensures s[..j] + sep + s[j + |sep|..] == s
  {
    assert s == s[..j] + s[j..j + |sep|] + s[j + |sep|..];
  }

  /** Joining the pieces of a split with the same separator restores the string. */
  lemma {:induction false} JoinSplit(s: string, sep: string)
    requires |sep| > 0
    decreases |s|
    ensures Join(Split(s, sep), sep) == s
  {
    match FindFrom(s, sep, 0)
    case None =>
    case Some(j) =>
      var rest := s[j + |sep|..];
      JoinSplit(rest, sep);
      JoinCons(s[..j], Split(rest, sep), sep);
      Reglue(s, sep, j);
  }

  /** Without an occurrence of the separator, the split is the whole string. */
  lemma SplitWithout(s: string, sep: string)
    requires |sep| > 0 && !Contains(s, sep)
    ensures Split(s, sep) == [s]
  {
  }

  /** `r` is a suffix of `s`. */
  predicate IsSuffix(r: string, s: string) {
    |r| <= |s| && r == s[|s| - |r|..]
  }

  /** In `s`, the suffix `r` comes right after an occurrence of `sep`. */
  predicate SepBefore(r: string, s: string, sep: string) {
    |r| + |sep| <= |s| && s[|s| - |r| - |sep|..|s| - |r|] == sep
  }

  lemma SuffixOfTail(s: string, k: nat, r: string)
    requires k <= |s| && IsSuffix(r, s[k..])
    ensures IsSuffix(r, s)
  {
    assert s[k..][|s| - k - |r|..] == s[|s| - |r|..];
  }

  lemma SepBeforeOfTail(s: string, k: nat, r: string, sep: string)
    requires k <= |s| && SepBefore(r, s[k..], sep)
    ensures SepBefore(r, s, sep)
  {
    var t := s[k..];
    assert t[|t| - |r| - |sep|..|t| - |r|] == s[|s| - |r| - |sep|..|s| - |r|];
  }

  /**
   The left-to-right scan decides the last piece: past the first occurrence
   of `sep`, the last piece is that of the rest of the text.
   */
  lemma {:induction false} LastPieceAfterFirst(s: string, sep: string)
    requires |sep| > 0
    ensures FindFrom(s, sep, 0).Some? ==>
      var j := FindFrom(s, sep, 0).value;
      LastPiece(s, sep) == LastPiece(s[j + |sep|..], sep)
  {
    SplitLastAfterFirst(s, sep);
  }

  lemma {:induction false} SplitLastAfterFirst(s: string, sep: string)
    requires |sep| > 0
    ensures FindFrom(s, sep, 0).Some? ==>
      var parts, rest := Split(s, sep), Split(s[FindFrom(s, sep, 0).value + |sep|..], sep);
      parts[|parts| - 1] == rest[|rest| - 1]
  {
    if FindFrom(s, sep, 0).Some? {
      var j := FindFrom(s, sep, 0).value;
      var rest := Split(s[j + |sep|..], sep);
      assert Split(s, sep) == [s[..j]] + rest;
    }
  }

  /** The last piece of `s.split(sep)` (`.str[-1]`). */
  function LastPiece(s: string, sep: string): (r: string)
    requires |sep| > 0
    ensures IsSuffix(r, s)
    ensures !Contains(r, sep)
    ensures !Contains(s, sep) ==> r == s
    ensures Contains(s, sep) ==> SepBefore(r, s, sep)
  {
    var parts := Split(s, sep);
    LastIsSuffix(s, sep);
    SplitPiecesFree(s, sep);
    if !Contains(s, sep) then
      SplitWithout(s, sep);
      parts[|parts| - 1]
    else
      assert FindFrom(s, sep, 0).Some?;
      LastAfterSep(s, sep);
      parts[|parts| - 1]
  }

  /** What follows an occurrence of `sep` is a suffix preceded by `sep`. */
  lemma AfterOccurrence(s: string, sep: string, j: nat)
    requires OccursAt(s, sep, j)
    ensures SepBefore(s[j + |sep|..], s, sep)
  {
  }

  /** The last piece of a split is a suffix of the string. */
  lemma {:induction false} LastIsSuffix(s: string, sep: string)
    requires |sep| > 0
    decreases |s|
    ensures IsSuffix(Split(s, sep)[|Split(s, sep)| - 1], s)
  {
    match FindFrom(s, sep, 0)
    case None =>
    case Some(j) =>
      var rest := s[j + |sep|..];
      LastIsSuffix(rest, sep);
      var tail := Split(rest, sep);
      assert Split(s, sep) == [s[..j]] + tail;
      SuffixOfTail(s, j + |sep|, tail[|tail| - 1]);
  }

  /** When `s` contains `sep`, its last piece comes right after an occurrence of `sep`. */
  lemma {:induction false} LastAfterSep(s: string, sep: string)
    requires |sep| > 0 && FindFrom(s, sep, 0).Some?
    decreases |s|
    ensures SepBefore(Split(s, sep)[|Split(s, sep)| - 1], s, sep)
  {
    var j := FindFrom(s, sep, 0).value;
    var rest := s[j + |sep|..];
    var tail := Split(rest, sep);
    assert Split(s, sep) == [s[..j]] + tail;
    if FindFrom(rest, sep, 0).Some? {
      LastAfterSep(rest, sep);
      var r := tail[|tail| - 1];
      assert SepBefore(r, rest, sep);
      SepBeforeOfTail(s, j + |sep|, r, sep);
      var parts := Split(s, sep);
      assert parts[|parts| - 1] == r;
    } else {
      AfterOccurrence(s, sep, j);
    }
  }

  // ---------------------------------------------------------------- split() / word count

  /** Length of the run of non-whitespace characters at the front of `s`. */
  function RunLength(s: string): (n: nat)
    ensures n <= |s|
    ensures forall i :: 0 <= i < n ==> !IsSpace(s[i])
    ensures n == |s| || IsSpace(s[n])
  {
    if s == [] || IsSpace(s[0]) then 0 else 1 + RunLength(s[1..])
  }

  /** `s.split()`: the maximal runs of non-whitespace characters, in order. */
  function Words(s: string): (ws: seq<string>)
    decreases |s|
    ensures forall i :: 0 <= i < |ws| ==> ws[i] != [] && !exists k :: 0 <= k < |ws[i]| && IsSpace(ws[i][k])
  {
    if s == [] then []
    else if IsSpace(s[0]) then Words(s[1..])
    else
      var n := RunLength(s);
      [s[..n]] + Words(s[n..])
  }

  /**
   Independent count of the words of `s`: positions holding a non-whitespace
   character whose predecessor is whitespace (or absent), scanned from the
   left; `afterSpace` says whether the character before `s` was whitespace.
   */
  function WordStarts(s: string, afterSpace: bool): nat
    decreases |s|
  {
    if s == [] then 0
    else (if afterSpace && !IsSpace(s[0]) then 1 else 0) + WordStarts(s[1..], IsSpace(s[0]))
  }

  lemma {:induction false} StartsSkipRun(s: string, n: nat)
    requires n <= |s|
    requires forall i :: 0 <= i < n ==> !IsSpace(s[i])
    ensures WordStarts(s, false) == WordStarts(s[n..], false)
  {
    if n > 0 {
      StartsSkipRun(s[1..], n - 1);
      assert s[1..][n - 1..] == s[n..];
    }
  }

  /** `Words` splits out exactly as many words as there are word starts. */
  lemma {:induction false} WordsCount(s: string)
    decreases |s|
    ensures |Words(s)| == WordStarts(s, true)
  {
    if s != [] {
      if IsSpace(s[0]) {
        WordsCount(s[1..]);
      } else {
        var n := RunLength(s);
        WordsCount(s[n..]);
        StartsSkipRun(s[1..], n - 1);
        assert s[1..][n - 1..] == s[n..];
        if n < |s| {
          assert s[n..][1..] == s[n + 1..];
        }
      }
    }
  }

  /** Blank text (empty or only whitespace) has no words, and any other text has at least one. */
  lemma {:induction false} WordsBlank(s: string)
    decreases |s|
    ensures Words(s) == [] <==> AllSpace(s)
  {
    if s != [] && IsSpace(s[0]) {
      WordsBlank(s[1..]);
      if !AllSpace(s) {
        var k :| 0 <= k < |s| && !IsSpace(s[k]);
        assert s[1..][k - 1] == s[k];
      }
    }
  }

  /** Word starts of `a + b`: those of `a`, then those of `b` read after `a`'s last character. */
  lemma {:induction false} WordStartsAppend(a: string, b: string, afterSpace: bool)
    decreases |a|
    ensures WordStarts(a + b, afterSpace) == WordStarts(a, afterSpace) + WordStarts(b, if a == [] then afterSpace else IsSpace(a[|a| - 1]))
  {
    if a == [] {
      assert a + b == b;
    } else {
      assert (a + b)[0] == a[0];
      assert (a + b)[1..] == a[1..] + b;
      WordStartsAppend(a[1..], b, IsSpace(a[0]));
    }
  }

  /** Number of words of each text, added up. */
  function WordTotal(texts: seq<string>): nat {
    if texts == [] then 0 else |Words(texts[0])| + WordTotal(texts[1..])
  }

  /**
   Joining texts with a single space neither merges nor splits words: the
   joined text has as many words as the texts have together.
   */
  lemma {:induction false} WordsJoin(texts: seq<string>)
    ensures |Words(Join(texts, " "))| == WordTotal(texts)
  {
    if |texts| == 1 {
      assert WordTotal(texts[1..]) == 0;
    } else if |texts| > 1 {
      var a, rest := texts[0], Join(texts[1..], " ");
      WordsJoin(texts[1..]);
      assert Join(texts, " ") == a + (" " + rest);
      WordStartsAppend(a, " " + rest, true);
      assert (" " + rest)[1..] == rest;
      WordsCount(Join(texts, " "));
      WordsCount(a);
      WordsCount(rest);
    }
  }

  // ---------------------------------------------------------------- punctuation

  /** The character class `["'.,;:!?()\-]`. */
  predicate IsPunct(c: char) {
    c == '"' || c == '\'' || c == '.' || c == ',' || c == ';' || c == ':' ||
    c == '!' || c == '?' || c == '(' || c == ')' || c == '-'
  }

  /** The text with every punctuation character deleted. */
  function StripPunctuation(s: string): (r: string)
    ensures forall i :: 0 <= i < |r| ==> !IsPunct(r[i])
    ensures IsSubseq(r, s)
    ensures forall c :: Count(r, c) == if IsPunct(c) then 0 else Count(s, c)
  {
    var keep := (c: char) => !IsPunct(c);
    WhereIsSubseq(s, keep);
    forall c ensures Count(Where(s, keep), c) == if IsPunct(c) then 0 else Count(s, c) {
      WhereCount(s, keep, c);
    }
    Where(s, keep)
  }

  /** Deleting the punctuation of `a + b` deletes it from each part. */
  lemma {:induction false} StripPunctuationAppend(a: string, b: string)
    ensures StripPunctuation(a + b) == StripPunctuation(a) + StripPunctuation(b)
  {
    if a == [] {
      assert a + b == b;
    } else {
      assert (a + b)[1..] == a[1..] + b;
      StripPunctuationAppend(a[1..], b);
    }
  }

  /** Text without punctuation is left unchanged. */
  lemma StripPunctuationClean(s: string)
    requires forall i :: 0 <= i < |s| ==> !IsPunct(s[i])
    ensures StripPunctuation(s) == s
  {
    WhereAll(s, (c: char) => !IsPunct(c));
  }
}
