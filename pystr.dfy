/**
 * The parts of Python's `str` that the chat parser relies on: `strip()`,
 * `split(sep)` with a non-empty separator, `sep.join(parts)` and `int(s)`,
 * all over ASCII characters.  Next to each builtin stands an independent
 * description (first occurrence, left-to-right replacement, character count)
 * and the lemmas connecting the two.
 */
module PyStr {
  import opened Wrappers

  /** Python's whitespace (`str.isspace`, regex `\s`) on the ASCII range. */
  predicate IsSpace(c: char)
  {
    c == ' ' || ('\t' <= c <= '\r') || ('\U{1c}' <= c <= '\U{1f}')
  }

  predicate IsDigit(c: char)
  {
    '0' <= c <= '9'
  }

  function DigitValue(c: char): (d: int)
    requires IsDigit(c)
    ensures 0 <= d <= 9
  {
    c as int - '0' as int
  }

  // ---------------------------------------------------------------------------
  // strip()
  // ---------------------------------------------------------------------------

  /** `s.lstrip()`: the longest suffix of `s` that does not start with whitespace. */
  function TrimStart(s: string): (r: string)
    ensures |r| <= |s| && r == s[|s| - |r|..]
    ensures forall k :: 0 <= k < |s| - |r| ==> IsSpace(s[k])
    ensures |r| > 0 ==> !IsSpace(r[0])
  {
    if |s| > 0 && IsSpace(s[0]) then TrimStart(s[1..]) else s
  }

  /** `s.rstrip()`: the longest prefix of `s` that does not end with whitespace. */
  function TrimEnd(s: string): (r: string)
    ensures |r| <= |s| && r == s[..|r|]
    ensures forall k :: |r| <= k < |s| ==> IsSpace(s[k])
    ensures |r| > 0 ==> !IsSpace(r[|r| - 1])
  {
    if |s| > 0 && IsSpace(s[|s| - 1]) then TrimEnd(s[..|s| - 1]) else s
  }

  /** `s.strip()`. */
  function Strip(s: string): (r: string)
    ensures |r| <= |s|
    ensures |r| > 0 ==> !IsSpace(r[0]) && !IsSpace(r[|r| - 1])
    ensures |s| == 0 || (!IsSpace(s[0]) && !IsSpace(s[|s| - 1])) ==> r == s
  {
    TrimEnd(TrimStart(s))
  }

  /**
   * `strip()` cuts a slice out of `s` and drops only whitespace around it:
   * the leading run `lstrip()` removes and a trailing run.
   */
  lemma StripIsSlice(s: string)
    ensures var r := Strip(s);
            var i := |s| - |TrimStart(s)|;
            i + |r| <= |s| && (forall k :: 0 <= k < |r| ==> r[k] == s[i + k]) &&
            (forall k :: 0 <= k < i ==> IsSpace(s[k])) &&
            (forall k :: i + |r| <= k < |s| ==> IsSpace(s[k]))
  {
    var t := TrimStart(s);
    var r := Strip(s);
    assert r == TrimEnd(t);
    SliceOfSuffix(s, t, r);
  }

  /** A prefix `r` of a suffix `t` of `s`, followed in `t` only by whitespace. */
  lemma SliceOfSuffix(s: string, t: string, r: string)
    requires |t| <= |s| && t == s[|s| - |t|..] && |r| <= |t| && r == t[..|r|]
    requires forall k :: |r| <= k < |t| ==> IsSpace(t[k])
    ensures var i := |s| - |t|;
            (forall k :: 0 <= k < |r| ==> r[k] == s[i + k]) &&
            (forall k :: i + |r| <= k < |s| ==> IsSpace(s[k]))
  {
    var i := |s| - |t|;
    forall k | i + |r| <= k < |s|
      ensures IsSpace(s[k])
    {
      assert s[k] == t[k - i];
    }
  }

  // ---------------------------------------------------------------------------
  // Occurrences of a separator
  // ---------------------------------------------------------------------------

  /** `sep` occurs in `s` starting at index `j`. */
  predicate OccursAt(s: string, sep: string, j: nat)
  {
    j + |sep| <= |s| && s[j..j + |sep|] == sep
  }

  /** Python's `sep in s`. */
  ghost predicate Contains(s: string, sep: string)
  {
    exists j: nat :: OccursAt(s, sep, j)
  }

  /** The first occurrence of `sep` in `s` at or after index `k`. */
  function FindFrom(s: string, sep: string, k: nat): (r: Option<nat>)
    ensures r.Some? ==> k <= r.value && OccursAt(s, sep, r.value)
    ensures r.Some? ==> forall j: nat :: k <= j < r.value ==> !OccursAt(s, sep, j)
    ensures r.None? ==> forall j: nat :: k <= j ==> !OccursAt(s, sep, j)
    decreases |s| - k
  {
    if |s| < k + |sep| then None
    else if OccursAt(s, sep, k) then Some(k)
    else FindFrom(s, sep, k + 1)
  }

  /** Python's `s.find(sep)`, with None for -1. */
  function Find(s: string, sep: string): (r: Option<nat>)
    ensures r.Some? ==> OccursAt(s, sep, r.value)
    ensures r.Some? ==> forall j: nat :: j < r.value ==> !OccursAt(s, sep, j)
    ensures r.None? <==> !Contains(s, sep)
  {
    FindFrom(s, sep, 0)
  }

  // ---------------------------------------------------------------------------
  // split and join
  // ---------------------------------------------------------------------------

  /** Python's `s.split(sep)` for a non-empty separator. */
  function Split(s: string, sep: string): (parts: seq<string>)
    requires |sep| > 0
    ensures |parts| >= 1
    decreases |s|
  {
    match Find(s, sep)
    case None => [s]
    case Some(i) => [s[..i]] + Split(s[i + |sep|..], sep)
  }

  /** Python's `sep.join(parts)`. */
  function Join(sep: string, parts: seq<string>): string
  {
    if |parts| == 0 then ""
    else if |parts| == 1 then parts[0]
    else parts[0] + sep + Join(sep, parts[1..])
  }

  /**
   * Python's `s.replace(pat, by)`, defined on its own: scan left to right and
   * replace each non-overlapping occurrence of `pat`.
   */
  function Replace(s: string, pat: string, repl: string): string
    requires |pat| > 0
    decreases |s|
  {
    if |s| < |pat| then s
    else if s[..|pat|] == pat then repl + Replace(s[|pat|..], pat, repl)
    else [s[0]] + Replace(s[1..], pat, repl)
  }

  /** The number of occurrences of `c` in `s`. */
  function Count(s: string, c: char): nat
  {
    if s == [] then 0 else (if s[0] == c then 1 else 0) + Count(s[1..], c)
  }

  /** Joining the pieces of a split with the same separator gives the string back. */
  lemma {:induction false} JoinSplit(s: string, sep: string)
    requires |sep| > 0
    ensures Join(sep, Split(s, sep)) == s
    decreases |s|
  {
    match Find(s, sep)
    case None =>
    case Some(i) =>
      var rest := s[i + |sep|..];
      JoinSplit(rest, sep);
      JoinCons(sep, s[..i], Split(rest, sep));
      SliceAround(s, i, |sep|);
  }

  /** Joining a piece in front of a non-empty list of pieces puts one separator between. */
  lemma JoinCons(sep: string, a: string, parts: seq<string>)
    requires |parts| >= 1
    ensures Join(sep, [a] + parts) == a + sep + Join(sep, parts)
  {
    assert ([a] + parts)[1..] == parts;
  }

  /** An occurrence inside a suffix is an occurrence in the whole string, shifted. */
  lemma OccursInSuffix(s: string, sep: string, n: nat, j: nat)
    requires n <= |s|
    ensures OccursAt(s[n..], sep, j) <==> OccursAt(s, sep, n + j)
  {
    if j + |sep| <= |s| - n {
      assert s[n..][j..j + |sep|] == s[n + j..n + j + |sep|];
    }
  }

  /** The text before the first separator never contains the separator. */
  lemma PrefixBeforeFirstAvoids(s: string, sep: string, i: nat)
    requires |sep| > 0 && i <= |s|
    requires forall j: nat :: j < i ==> !OccursAt(s, sep, j)
    ensures !Contains(s[..i], sep)
  {
    forall j: nat
      ensures !OccursAt(s[..i], sep, j)
    {
      if j + |sep| <= i {
        assert !OccursAt(s, sep, j);
        assert s[..i][j..j + |sep|] == s[j..j + |sep|];
      }
    }
  }

  /** A split gives a single piece exactly when there is no separator; that piece is the whole string. */
  lemma SplitSingle(s: string, sep: string)
    requires |sep| > 0
    ensures |Split(s, sep)| == 1 <==> !Contains(s, sep)
    ensures !Contains(s, sep) ==> Split(s, sep) == [s]
  {
  }

  /**
   * A split into several pieces: the first piece is the text before the first
   * separator, which it does not contain, and the other pieces split the rest.
   */
  lemma SplitHead(s: string, sep: string)
    requires |sep| > 0 && |Split(s, sep)| >= 2
    ensures Find(s, sep).Some?
    ensures Split(s, sep)[0] == s[..Find(s, sep).value]
    ensures Split(s, sep)[1..] == Split(s[Find(s, sep).value + |sep|..], sep)
    ensures !Contains(Split(s, sep)[0], sep)
  {
    var i := Find(s, sep).value;
    PrefixBeforeFirstAvoids(s, sep, i);
  }

  /**
   * A split into exactly two pieces: the string is the first piece, the
   * separator and the second piece, and neither piece contains the separator.
   */
  lemma SplitPair(s: string, sep: string)
    requires |sep| > 0 && |Split(s, sep)| == 2
    ensures s == Split(s, sep)[0] + sep + Split(s, sep)[1]
    ensures !Contains(Split(s, sep)[0], sep) && !Contains(Split(s, sep)[1], sep)
  {
    SplitHead(s, sep);
    var i := Find(s, sep).value;
    var rest := s[i + |sep|..];
    SplitSingle(rest, sep);
    assert Split(s, sep)[1] == Split(s, sep)[1..][0] == rest;
    SliceAround(s, i, |sep|);
  }

  /** A string is the text before a slice, the slice, and the text after it. */
  lemma SliceAround(s: string, i: nat, n: nat)
    requires i + n <= |s|
    ensures s == s[..i] + s[i..i + n] + s[i + n..]
  {
  }

  /**
   * Two non-overlapping occurrences of the separator make at least three
   * pieces.
   */
  lemma SplitAtLeastThree(s: string, sep: string, i: nat, j: nat)
    requires |sep| > 0
    requires OccursAt(s, sep, i) && OccursAt(s, sep, j) && i + |sep| <= j
    ensures |Split(s, sep)| >= 3
  {
    var f := Find(s, sep).value;
    assert f <= i;
    var rest := s[f + |sep|..];
    OccursInSuffix(s, sep, f + |sep|, j - f - |sep|);
    assert Find(rest, sep).Some?;
  }

  /** No occurrence starts before `n` when one character of `sep` is missing where it would have to be. */
  lemma NoOccurrenceByChar(s: string, sep: string, m: nat, n: nat)
    requires m < |sep|
    requires forall k :: m <= k < n + m && k < |s| ==> s[k] != sep[m]
    ensures forall j: nat :: j < n ==> !OccursAt(s, sep, j)
  {
    forall j: nat | j < n
      ensures !OccursAt(s, sep, j)
    {
      if j + |sep| <= |s| {
        assert s[j..j + |sep|][m] == s[j + m];
      }
    }
  }

  /** A string that lacks one of the separator's characters does not contain it. */
  lemma NotContainsByChar(s: string, sep: string, m: nat)
    requires m < |sep|
    requires forall k :: 0 <= k < |s| ==> s[k] != sep[m]
    ensures !Contains(s, sep)
  {
    NoOccurrenceByChar(s, sep, m, |s|);
  }

  /**
   * When `sep` first occurs right after `a`, splitting `a + sep + b` cuts off
   * `a` and goes on splitting `b`.
   */
  lemma SplitAtFirst(a: string, sep: string, b: string)
    requires |sep| > 0
    requires forall j: nat :: j < |a| ==> !OccursAt(a + sep + b, sep, j)
    ensures Split(a + sep + b, sep) == [a] + Split(b, sep)
  {
    var s := a + sep + b;
    assert s[|a|..|a| + |sep|] == sep;
    assert OccursAt(s, sep, |a|);
    assert Find(s, sep) == Some(|a|);
    assert s[..|a|] == a;
    assert s[|a| + |sep|..] == b;
  }

  /**
   * Splitting `a + sep + b` where `sep` starts nowhere inside `a` and does
   * not occur in `b` gives back `[a, b]`.
   */
  lemma SplitOfPair(a: string, sep: string, b: string)
    requires |sep| > 0
    requires forall j: nat :: j < |a| ==> !OccursAt(a + sep + b, sep, j)
    requires !Contains(b, sep)
    ensures Split(a + sep + b, sep) == [a, b]
  {
    SplitAtFirst(a, sep, b);
    assert Find(b, sep).None?;
    assert Split(b, sep) == [b];
  }

  /** Replacing in a string with no occurrence before `i` keeps the prefix up to `i`. */
  lemma {:induction false} ReplaceKeepsPrefix(s: string, pat: string, repl: string, i: nat)
    requires |pat| > 0 && i <= |s|
    requires forall j: nat :: j < i ==> !OccursAt(s, pat, j)
    ensures Replace(s, pat, repl) == s[..i] + Replace(s[i..], pat, repl)
    decreases i
  {
    if i > 0 {
      if |s| < |pat| {
        assert Replace(s[i..], pat, repl) == s[i..];
        assert s == s[..i] + s[i..];
      } else {
        assert !OccursAt(s, pat, 0);
        var tail := s[1..];
        assert Replace(s, pat, repl) == [s[0]] + Replace(tail, pat, repl);
        NoOccurrenceInTail(s, pat, i);
        ReplaceKeepsPrefix(tail, pat, repl, i - 1);
        assert tail[i - 1..] == s[i..];
        assert s[..i] == [s[0]] + tail[..i - 1];
      }
    }
  }

  /** Dropping the first character shifts the occurrence-free prefix down by one. */
  lemma NoOccurrenceInTail(s: string, pat: string, i: nat)
    requires 0 < i <= |s|
    requires forall j: nat :: j < i ==> !OccursAt(s, pat, j)
    ensures forall j: nat :: j < i - 1 ==> !OccursAt(s[1..], pat, j)
  {
    forall j: nat | j < i - 1
      ensures !OccursAt(s[1..], pat, j)
    {
      OccursInSuffix(s, pat, 1, j);
    }
  }

  /** Python's `by.join(s.split(pat))` is `s.replace(pat, by)`. */
  lemma {:induction false} JoinSplitIsReplace(s: string, pat: string, repl: string)
    requires |pat| > 0
    ensures Join(repl, Split(s, pat)) == Replace(s, pat, repl)
    decreases |s|
  {
    match Find(s, pat)
    case None =>
      ReplaceKeepsPrefix(s, pat, repl, |s|);
      assert s[|s|..] == [];
      assert s[..|s|] == s;
    case Some(i) =>
      var rest := s[i + |pat|..];
      JoinSplitIsReplace(rest, pat, repl);
      ReplaceKeepsPrefix(s, pat, repl, i);
      assert s[i..][..|pat|] == pat;
      assert s[i..][|pat|..] == rest;
  }

  /** Counting is additive over concatenation. */
  lemma {:induction false} CountConcat(a: string, b: string, c: char)
    ensures Count(a + b, c) == Count(a, c) + Count(b, c)
    decreases |a|
  {
    if a == [] {
      assert a + b == b;
    } else {
      assert (a + b)[1..] == a[1..] + b;
      CountConcat(a[1..], b, c);
    }
  }

  /** A string that lacks `c` counts no `c`. */
  lemma {:induction false} CountAbsent(s: string, c: char)
    requires forall k :: 0 <= k < |s| ==> s[k] != c
    ensures Count(s, c) == 0
    decreases |s|
  {
    if s != [] {
      CountAbsent(s[1..], c);
    }
  }

  /** Where the one-character separator `[c]` does not occur, the character `c` is absent. */
  lemma CharAbsentBefore(s: string, c: char, i: nat)
    requires i <= |s|
    requires forall j: nat :: j < i ==> !OccursAt(s, [c], j)
    ensures forall k :: 0 <= k < i ==> s[k] != c
  {
    forall k | 0 <= k < i
      ensures s[k] != c
    {
      assert s[k..k + 1] == [s[k]];
      assert !OccursAt(s, [c], k);
    }
  }

  /** Splitting on a single character gives one more piece than it has occurrences. */
  lemma {:induction false} SplitCharCount(s: string, c: char)
    ensures |Split(s, [c])| == Count(s, c) + 1
    decreases |s|
  {
    match Find(s, [c])
    case None =>
      CharAbsentBefore(s, c, |s|);
      CountAbsent(s, c);
    case Some(i) =>
      var rest := s[i + 1..];
      SplitCharCount(rest, c);
      CharAbsentBefore(s, c, i);
      CountAbsent(s[..i], c);
      CountAfterFirst(s, c, i);
  }

  /** The count of `c` in a string whose first `c` is at `i`. */
  lemma CountAfterFirst(s: string, c: char, i: nat)
    requires i < |s| && s[i] == c && Count(s[..i], c) == 0
    ensures Count(s, c) == 1 + Count(s[i + 1..], c)
  {
    var rest := s[i + 1..];
    assert s == s[..i] + ([c] + rest);
    CountConcat(s[..i], [c] + rest, c);
    assert ([c] + rest)[1..] == rest;
  }

  /**
   * Joining pieces that lack `c` with `c` and splitting on `c` gives the
   * pieces back.
   */
  lemma {:induction false} SplitJoinChar(parts: seq<string>, c: char)
    requires |parts| >= 1
    requires forall i, k :: 0 <= i < |parts| && 0 <= k < |parts[i]| ==> parts[i][k] != c
    ensures Split(Join([c], parts), [c]) == parts
    decreases |parts|
  {
    var p := parts[0];
    if |parts| == 1 {
      NotContainsByChar(p, [c], 0);
      assert Find(p, [c]).None?;
    } else {
      var rest := Join([c], parts[1..]);
      SplitJoinChar(parts[1..], c);
      assert Join([c], parts) == p + [c] + rest;
      SplitAfterCharFree(p, c, rest);
    }
  }

  /** Splitting on `c` cuts a first piece free of `c` off at the first `c`. */
  lemma SplitAfterCharFree(p: string, c: char, rest: string)
    requires forall k :: 0 <= k < |p| ==> p[k] != c
    ensures Split(p + [c] + rest, [c]) == [p] + Split(rest, [c])
  {
    var s := p + [c] + rest;
    assert forall k :: 0 <= k < |p| ==> s[k] == p[k];
    assert [c][0] == c;
    NoOccurrenceByChar(s, [c], 0, |p|);
    SplitAtFirst(p, [c], rest);
  }

  // ---------------------------------------------------------------------------
  // int()
  // ---------------------------------------------------------------------------

  predicate AllDigits(s: string)
  {
    forall k :: 0 <= k < |s| ==> IsDigit(s[k])
  }

  /** The decimal value of a string of digits. */
  function DigitsValue(s: string): (v: nat)
    requires AllDigits(s)
  {
    if s == [] then 0 else DigitsValue(s[..|s| - 1]) * 10 + DigitValue(s[|s| - 1])
  }

  /** An optional sign followed by one or more digits. */
  predicate IsIntText(t: string)
  {
    |t| > 0 &&
    if t[0] == '+' || t[0] == '-' then |t| > 1 && AllDigits(t[1..]) else AllDigits(t)
  }

  /**
   * Python's `int(s)` in base 10: surrounding whitespace is ignored, an
   * optional sign is followed by one or more digits; anything else is a
   * ValueError (None here).
   */
  function ParseInt(s: string): (r: Option<int>)
    ensures r.Some? <==> IsIntText(Strip(s))
    ensures |s| > 0 && AllDigits(s) ==> r == Some(DigitsValue(s))
    ensures (forall k :: 0 <= k < |s| ==> !IsDigit(s[k])) ==> r.None?
    ensures r.Some? && r.value < 0 ==> Strip(s)[0] == '-'
    ensures r.Some? && Strip(s)[0] != '+' && Strip(s)[0] != '-' ==> r.value == DigitsValue(Strip(s))
    ensures r.Some? && Strip(s)[0] == '+' ==> r.value == DigitsValue(Strip(s)[1..])
    ensures r.Some? && Strip(s)[0] == '-' ==> r.value == -(DigitsValue(Strip(s)[1..]) as int)
  {
    var t := Strip(s);
    if |t| > 0 && (t[0] == '+' || t[0] == '-') then
      var digits := t[1..];
      if |digits| > 0 && AllDigits(digits) then
        var v: int := DigitsValue(digits);
        Some(if t[0] == '-' then -v else v)
      else None
    else if |t| > 0 && AllDigits(t) then Some(DigitsValue(t))
    else None
  }

  /** A sign directly followed by digits is read with that sign. */
  lemma ParseIntOfSigned(sign: char, d: string)
    requires sign == '+' || sign == '-'
    requires |d| > 0 && AllDigits(d)
    ensures ParseInt([sign] + d) == Some(if sign == '-' then -(DigitsValue(d) as int) else DigitsValue(d))
  {
    var t := [sign] + d;
    SignedText(sign, d);
    assert IsIntText(Strip(t));
    assert ParseInt(t).Some?;
    if sign == '-' {
      assert ParseInt(t).value == -(DigitsValue(Strip(t)[1..]) as int);
    } else {
      assert ParseInt(t).value == DigitsValue(Strip(t)[1..]);
    }
  }

  lemma SignedText(sign: char, d: string)
    requires sign == '+' || sign == '-'
    requires |d| > 0 && AllDigits(d)
    ensures var t := [sign] + d;
            Strip(t) == t && IsIntText(t) && t[0] == sign && t[1..] == d
  {
    var t := [sign] + d;
    assert t[1..] == d;
    DigitIsNotSpace(d[|d| - 1]);
    assert t[|t| - 1] == d[|d| - 1];
  }

  /** Blanks before the digits are dropped. */
  lemma ParseIntOfBlankPadded(d: string)
    requires |d| > 0 && AllDigits(d)
    ensures ParseInt(" " + d) == Some(DigitsValue(d))
  {
    var t := " " + d;
    DigitIsNotSpace(d[0]);
    DigitIsNotSpace(d[|d| - 1]);
    assert t[1..] == d;
    assert TrimStart(t) == TrimStart(d) == d;
    assert Strip(t) == TrimEnd(d) == d;
    assert IsIntText(d) by {
      assert d[0] != '+' && d[0] != '-';
    }
  }

  lemma DigitIsNotSpace(c: char)
    requires IsDigit(c)
    ensures !IsSpace(c) && c != '+' && c != '-'
  {
  }
}
