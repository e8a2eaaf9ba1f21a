/**
 * The line-level helpers of util.py (main.py carries identical copies):
 * recognising a date stamp and an author prefix, splitting a boundary line
 * into its fields, and turning a time of day into an hour.  The regular
 * expressions are written out as predicates over ASCII characters.
 */
module Util {
  import opened Wrappers
  import opened PyStr

  // ---------------------------------------------------------------------------
  // startsWithDateTime
  // ---------------------------------------------------------------------------

  /** The number written by the two digits `a` and `b`. */
  function TwoDigits(a: char, b: char): int
    requires IsDigit(a) && IsDigit(b)
  {
    10 * DigitValue(a) + DigitValue(b)
  }

  /**
   * The pattern `([0-2][0-9]|(3)[0-1])/(((0)[0-9])|((1)[0-2]))/(\d{2})`
   * matched at the start of `s`, alternative by alternative.  Its meaning: a
   * `DD/MM/YY` stamp with day 00-31 and month 00-12, no calendar check, and
   * nothing after the eighth character looked at.
   */
  function StartsWithDateTime(s: string): (r: bool)
    ensures r <==>
      |s| >= 8 && s[2] == '/' && s[5] == '/' &&
      IsDigit(s[0]) && IsDigit(s[1]) && IsDigit(s[3]) && IsDigit(s[4]) &&
      IsDigit(s[6]) && IsDigit(s[7]) &&
      TwoDigits(s[0], s[1]) <= 31 && TwoDigits(s[3], s[4]) <= 12
  {
    |s| >= 8 &&
    (('0' <= s[0] <= '2' && IsDigit(s[1])) || (s[0] == '3' && '0' <= s[1] <= '1')) &&
    s[2] == '/' &&
    ((s[3] == '0' && IsDigit(s[4])) || (s[3] == '1' && '0' <= s[4] <= '2')) &&
    s[5] == '/' &&
    IsDigit(s[6]) && IsDigit(s[7])
  }

  // ---------------------------------------------------------------------------
  // startsWithAuthor
  // ---------------------------------------------------------------------------

  /** Regex `\w` on ASCII. */
  predicate IsWordChar(c: char)
  {
    ('a' <= c <= 'z') || ('A' <= c <= 'Z') || IsDigit(c) || c == '_'
  }

  predicate ColonAt(s: string, i: nat)
  {
    i < |s| && s[i] == ':'
  }

  /** `s[i..j]` is a non-empty run of word characters (`[\w]+`). */
  ghost predicate WordRun(s: string, i: nat, j: nat)
  {
    i < j <= |s| && forall k :: i <= k < j ==> IsWordChar(s[k])
  }

  /** `s[i..j]` is a non-empty run of whitespace (`[\s]+`). */
  ghost predicate SpaceRun(s: string, i: nat, j: nat)
  {
    i < j <= |s| && forall k :: i <= k < j ==> IsSpace(s[k])
  }

  /** `([\w]+):` at the start of `s`. */
  ghost predicate OneWordName(s: string)
  {
    exists w1: nat :: WordRun(s, 0, w1) && ColonAt(s, w1)
  }

  /** `([\w]+[\s]+[\w]+):` at the start of `s`. */
  ghost predicate TwoWordName(s: string)
  {
    exists w1: nat, s1: nat, w2: nat ::
      WordRun(s, 0, w1) && SpaceRun(s, w1, s1) && WordRun(s, s1, w2) && ColonAt(s, w2)
  }

  /** `([\w]+[\s]+[\w]+[\s]+[\w]+):` at the start of `s`. */
  ghost predicate ThreeWordName(s: string)
  {
    exists w1: nat, s1: nat, w2: nat, s2: nat, w3: nat ::
      WordRun(s, 0, w1) && SpaceRun(s, w1, s1) && WordRun(s, s1, w2) &&
      SpaceRun(s, w2, s2) && WordRun(s, s2, w3) && ColonAt(s, w3)
  }

  /** Phone-number patterns; each 'D' stands for `\d`.  The European one has no colon. */
  const IndiaNumber := "+DD DDDDD DDDDD:"
  const UsNumber := "+DD DDD DDD DDDD:"
  const EuropeNumber := "+DD DDDD DDDDDDD"

  /** `s` starts with `shape`, reading each 'D' of the shape as any digit. */
  predicate MatchesShape(s: string, shape: string)
  {
    |shape| <= |s| &&
    forall k :: 0 <= k < |shape| ==> if shape[k] == 'D' then IsDigit(s[k]) else s[k] == shape[k]
  }

  /** The author regex: any of its six alternatives matches at the start of `s`. */
  ghost predicate AuthorPattern(s: string)
  {
    OneWordName(s) || TwoWordName(s) || ThreeWordName(s) ||
    MatchesShape(s, IndiaNumber) || MatchesShape(s, UsNumber) || MatchesShape(s, EuropeNumber)
  }

  /** The end of the longest run of word characters starting at `i`. */
  function WordEnd(s: string, i: nat): (e: nat)
    requires i <= |s|
    ensures i <= e <= |s|
    ensures forall k :: i <= k < e ==> IsWordChar(s[k])
    ensures e < |s| ==> !IsWordChar(s[e])
    decreases |s| - i
  {
    if i < |s| && IsWordChar(s[i]) then WordEnd(s, i + 1) else i
  }

  /** The end of the longest run of whitespace starting at `i`. */
  function SpaceEnd(s: string, i: nat): (e: nat)
    requires i <= |s|
    ensures i <= e <= |s|
    ensures forall k :: i <= k < e ==> IsSpace(s[k])
    ensures e < |s| ==> !IsSpace(s[e])
    decreases |s| - i
  {
    if i < |s| && IsSpace(s[i]) then SpaceEnd(s, i + 1) else i
  }

  /**
   * The author check, run as a scanner: since word characters, whitespace and
   * ':' are disjoint classes, the regex never needs to backtrack, so taking
   * each run as long as it goes decides every alternative.
   */
  predicate StartsWithAuthor(s: string)
    ensures StartsWithAuthor(s) ==> |s| > 0 && (IsWordChar(s[0]) || s[0] == '+')
    ensures StartsWithAuthor(s) && s[0] != '+' ==> ':' in s
  {
    var w1 := WordEnd(s, 0);
    var s1 := SpaceEnd(s, w1);
    var w2 := WordEnd(s, s1);
    var s2 := SpaceEnd(s, w2);
    var w3 := WordEnd(s, s2);
    (0 < w1 && ColonAt(s, w1)) ||
    (0 < w1 < s1 < w2 && ColonAt(s, w2)) ||
    (0 < w1 < s1 < w2 < s2 < w3 && ColonAt(s, w3)) ||
    MatchesShape(s, IndiaNumber) || MatchesShape(s, UsNumber) || MatchesShape(s, EuropeNumber)
  }

  lemma WordEndAt(s: string, i: nat, e: nat)
    requires i <= e <= |s|
    requires forall k :: i <= k < e ==> IsWordChar(s[k])
    requires e < |s| ==> !IsWordChar(s[e])
    ensures WordEnd(s, i) == e
  {
  }

  lemma SpaceEndAt(s: string, i: nat, e: nat)
    requires i <= e <= |s|
    requires forall k :: i <= k < e ==> IsSpace(s[k])
    requires e < |s| ==> !IsSpace(s[e])
    ensures SpaceEnd(s, i) == e
  {
  }

  /** Whitespace is never a word character. */
  lemma SpaceIsNotWord(c: char)
    requires IsSpace(c)
    ensures !IsWordChar(c)
  {
  }

  /** A word run followed by whitespace is scanned to its end. */
  lemma WordThenSpace(s: string, i: nat, a: nat, b: nat)
    requires WordRun(s, i, a) && SpaceRun(s, a, b)
    ensures WordEnd(s, i) == a
  {
    SpaceIsNotWord(s[a]);
    WordEndAt(s, i, a);
  }

  /** A whitespace run followed by a word character is scanned to its end. */
  lemma SpaceThenWord(s: string, a: nat, b: nat, c: nat)
    requires SpaceRun(s, a, b) && WordRun(s, b, c)
    ensures SpaceEnd(s, a) == b
  {
    assert IsWordChar(s[b]);
    SpaceEndAt(s, a, b);
  }

  /** A word run followed by ':' is scanned to its end. */
  lemma WordThenColon(s: string, i: nat, e: nat)
    requires WordRun(s, i, e) && ColonAt(s, e)
    ensures WordEnd(s, i) == e
  {
    WordEndAt(s, i, e);
  }

  lemma OneWordNameScanned(s: string)
    ensures OneWordName(s) <==> 0 < WordEnd(s, 0) && ColonAt(s, WordEnd(s, 0))
  {
    var w1 := WordEnd(s, 0);
    if OneWordName(s) {
      var a: nat :| WordRun(s, 0, a) && ColonAt(s, a);
      WordThenColon(s, 0, a);
    }
    if 0 < w1 && ColonAt(s, w1) {
      assert WordRun(s, 0, w1);
    }
  }

  lemma TwoWordNameScanned(s: string)
    ensures var w1 := WordEnd(s, 0);
            var s1 := SpaceEnd(s, w1);
            var w2 := WordEnd(s, s1);
            TwoWordName(s) <==> 0 < w1 < s1 < w2 && ColonAt(s, w2)
  {
    var w1 := WordEnd(s, 0);
    var s1 := SpaceEnd(s, w1);
    var w2 := WordEnd(s, s1);
    if TwoWordName(s) {
      var a: nat, b: nat, c: nat :|
        WordRun(s, 0, a) && SpaceRun(s, a, b) && WordRun(s, b, c) && ColonAt(s, c);
      WordThenSpace(s, 0, a, b);
      SpaceThenWord(s, a, b, c);
      WordThenColon(s, b, c);
    }
    if 0 < w1 < s1 < w2 && ColonAt(s, w2) {
      assert WordRun(s, 0, w1) && SpaceRun(s, w1, s1) && WordRun(s, s1, w2);
    }
  }

  /** Each run of a three-word name is found by the scanner. */
  lemma ThreeWordRunsScanned(s: string, a: nat, b: nat, c: nat, d: nat, e: nat)
    requires WordRun(s, 0, a) && SpaceRun(s, a, b) && WordRun(s, b, c)
    requires SpaceRun(s, c, d) && WordRun(s, d, e) && ColonAt(s, e)
    ensures WordEnd(s, 0) == a && SpaceEnd(s, a) == b && WordEnd(s, b) == c
    ensures SpaceEnd(s, c) == d && WordEnd(s, d) == e
  {
    WordThenSpace(s, 0, a, b);
    SpaceThenWord(s, a, b, c);
    WordThenSpace(s, b, c, d);
    SpaceThenWord(s, c, d, e);
    WordThenColon(s, d, e);
  }

  lemma ThreeWordNameScanned(s: string)
    ensures var w1 := WordEnd(s, 0);
            var s1 := SpaceEnd(s, w1);
            var w2 := WordEnd(s, s1);
            var s2 := SpaceEnd(s, w2);
            var w3 := WordEnd(s, s2);
            ThreeWordName(s) <==> 0 < w1 < s1 < w2 < s2 < w3 && ColonAt(s, w3)
  {
    var w1 := WordEnd(s, 0);
    var s1 := SpaceEnd(s, w1);
    var w2 := WordEnd(s, s1);
    var s2 := SpaceEnd(s, w2);
    var w3 := WordEnd(s, s2);
    if ThreeWordName(s) {
      var a: nat, b: nat, c: nat, d: nat, e: nat :|
        WordRun(s, 0, a) && SpaceRun(s, a, b) && WordRun(s, b, c) &&
        SpaceRun(s, c, d) && WordRun(s, d, e) && ColonAt(s, e);
      ThreeWordRunsScanned(s, a, b, c, d, e);
    }
    if 0 < w1 < s1 < w2 < s2 < w3 && ColonAt(s, w3) {
      assert WordRun(s, 0, w1) && SpaceRun(s, w1, s1) && WordRun(s, s1, w2);
      assert SpaceRun(s, w2, s2) && WordRun(s, s2, w3);
    }
  }

  /** The scanner accepts exactly the strings the author regex matches at their start. */
  lemma StartsWithAuthorMatchesPattern(s: string)
    ensures StartsWithAuthor(s) <==> AuthorPattern(s)
  {
    OneWordNameScanned(s);
    TwoWordNameScanned(s);
    ThreeWordNameScanned(s);
  }

  /**
   * The European phone alternative needs no colon: a body that starts with
   * such a number counts as having an author whatever follows it.
   */
  lemma EuropeNumberNeedsNoColon(s: string)
    requires MatchesShape(s, EuropeNumber)
    ensures StartsWithAuthor(s)
    ensures AuthorPattern(s)
  {
    StartsWithAuthorMatchesPattern(s);
  }

  // ---------------------------------------------------------------------------
  // getDataPoint
  // ---------------------------------------------------------------------------

  /** The four values getDataPoint returns; `author` is None for a notice. */
  datatype DataPoint = DataPoint(date: string, time: string, author: Option<string>, message: string)

  /**
   * `date, time = dateTime.split(', ')` raised ValueError: the split gave
   * `fields` parts instead of two.
   */
  datatype DataPointError = UnpackError(fields: nat)

  const LineSep := " - "
  const HeaderSep := ", "
  const AuthorSep := ": "

  /** `s.split(sep)[0]`. */
  function FirstField(s: string, sep: string): string
    requires |sep| > 0
  {
    Split(s, sep)[0]
  }

  /** `' '.join(s.split(sep)[1:])`. */
  function OtherFields(s: string, sep: string): string
    requires |sep| > 0
  {
    Join(" ", Split(s, sep)[1..])
  }

  /**
   * The first field is the text before the first separator, or all of `s`
   * when there is none; it never contains the separator.
   */
  lemma FirstFieldIsBeforeFirst(s: string, sep: string)
    requires |sep| > 0
    ensures Find(s, sep).None? ==> FirstField(s, sep) == s
    ensures Find(s, sep).Some? ==> FirstField(s, sep) == s[..Find(s, sep).value]
    ensures !Contains(FirstField(s, sep), sep)
  {
    if Find(s, sep).Some? {
      PrefixBeforeFirstAvoids(s, sep, Find(s, sep).value);
    }
  }

  /**
   * The other fields are the text after the first separator with every later
   * separator replaced by a single space, or "" when there is no separator.
   */
  lemma OtherFieldsReplaceLater(s: string, sep: string)
    requires |sep| > 0
    ensures Find(s, sep).None? ==> OtherFields(s, sep) == ""
    ensures Find(s, sep).Some? ==>
      OtherFields(s, sep) == Replace(s[Find(s, sep).value + |sep|..], sep, " ")
  {
    if Find(s, sep).Some? {
      JoinSplitIsReplace(s[Find(s, sep).value + |sep|..], sep, " ");
    }
  }

  /** The `dateTime` part of a line: everything before the first " - ". */
  function Header(line: string): string
  {
    FirstField(line, LineSep)
  }

  /** The `message` part of a line before the author is split off. */
  function Body(line: string): string
  {
    OtherFields(line, LineSep)
  }

  /** `getDataPoint(line)`; Err where the Python code raises. */
  function GetDataPoint(line: string): (r: Result<DataPoint, DataPointError>)
  {
    var dateTime := Split(Header(line), HeaderSep);
    if |dateTime| != 2 then Err(UnpackError(|dateTime|))
    else
      var message := Body(line);
      if StartsWithAuthor(message) then
        Ok(DataPoint(dateTime[0], dateTime[1], Some(FirstField(message, AuthorSep)), OtherFields(message, AuthorSep)))
      else
        Ok(DataPoint(dateTime[0], dateTime[1], None, message))
  }

  /**
   * What getDataPoint returns, stated without split and join: the header must
   * hold exactly one ", " (none at all fails); the author is present exactly
   * when the body starts with an author prefix; then it is the text before
   * the first ": " (the whole body when there is none, leaving an empty
   * message) and the message is the rest with every later ": " replaced by a
   * space; otherwise the message is the body unchanged.
   */
  lemma GetDataPointFields(line: string)
    ensures var r := GetDataPoint(line);
      && (!Contains(Header(line), HeaderSep) ==> r.Err?)
      && (r.Ok? ==> Header(line) == r.value.date + HeaderSep + r.value.time)
      && (r.Ok? ==> !Contains(r.value.date, HeaderSep) && !Contains(r.value.time, HeaderSep))
      && (r.Ok? ==> (r.value.author.None? <==> !StartsWithAuthor(Body(line))))
      && (r.Ok? && r.value.author.None? ==> r.value.message == Body(line))
      && (r.Ok? && r.value.author.Some? && Find(Body(line), AuthorSep).None? ==>
            r.value.author.value == Body(line) && r.value.message == "")
      && (r.Ok? && r.value.author.Some? && Find(Body(line), AuthorSep).Some? ==>
            var k := Find(Body(line), AuthorSep).value;
            r.value.author.value == Body(line)[..k] &&
            r.value.message == Replace(Body(line)[k + 2..], AuthorSep, " "))
  {
    var h := Header(line);
    if Find(h, HeaderSep).None? {
      assert Split(h, HeaderSep) == [h];
    }
    if |Split(h, HeaderSep)| == 2 {
      SplitPair(h, HeaderSep);
    }
    FirstFieldIsBeforeFirst(Body(line), AuthorSep);
    OtherFieldsReplaceLater(Body(line), AuthorSep);
  }

  /** A header with two separate ", " splits into too many values: the call fails. */
  lemma GetDataPointTooManyFields(line: string, i: nat, j: nat)
    requires OccursAt(Header(line), HeaderSep, i) && OccursAt(Header(line), HeaderSep, j)
    requires i + 2 <= j
    ensures GetDataPoint(line).Err?
  {
    SplitAtLeastThree(Header(line), HeaderSep, i, j);
  }

  /**
   * Header and body are the text before the first " - " (the whole line when
   * there is none) and the rest with every later " - " replaced by a space
   * ("" when there is none).
   */
  lemma HeaderAndBody(line: string)
    ensures Find(line, LineSep).None? ==> Header(line) == line && Body(line) == ""
    ensures Find(line, LineSep).Some? ==>
      var i := Find(line, LineSep).value;
      Header(line) == line[..i] && Body(line) == Replace(line[i + 3..], LineSep, " ")
  {
    FirstFieldIsBeforeFirst(line, LineSep);
    OtherFieldsReplaceLater(line, LineSep);
  }

  /** A date or time field as exports write them: no ',' and no '-'. */
  predicate IsStampField(s: string)
  {
    forall k :: 0 <= k < |s| ==> s[k] != ',' && s[k] != '-'
  }

  /** A one-word author name. */
  predicate IsWord(s: string)
  {
    |s| > 0 && forall k :: 0 <= k < |s| ==> IsWordChar(s[k])
  }

  /** Splitting `date, time - body` at its first " - " and its ", ". */
  lemma SplitStampedLine(date: string, time: string, body: string)
    requires IsStampField(date) && IsStampField(time) && !Contains(body, LineSep)
    ensures Header(date + HeaderSep + time + LineSep + body) == date + HeaderSep + time
    ensures Body(date + HeaderSep + time + LineSep + body) == body
    ensures Split(date + HeaderSep + time, HeaderSep) == [date, time]
  {
    var h := date + HeaderSep + time;
    var line := h + LineSep + body;
    assert forall k :: 0 <= k < |h| ==> h[k] != '-';
    assert forall k :: 0 <= k < |h| ==> line[k] == h[k];
    assert line[|h|] == ' ';
    NoOccurrenceByChar(line, LineSep, 1, |h|);
    SplitOfPair(h, LineSep, body);
    assert Split(line, LineSep)[1..] == [body];
    assert forall k :: 0 <= k < |date| ==> h[k] == date[k];
    NoOccurrenceByChar(h, HeaderSep, 0, |date|);
    NotContainsByChar(time, HeaderSep, 0);
    SplitOfPair(date, HeaderSep, time);
  }

  /**
   * A one-word author: the body `author: text` starts with an author, the
   * name holds no ": ", and the body holds no " - " when `" " + text` holds none.
   */
  lemma OneWordAuthorBody(author: string, text: string)
    requires IsWord(author) && !Contains(" " + text, LineSep)
    ensures StartsWithAuthor(author + AuthorSep + text)
    ensures !Contains(author, AuthorSep)
    ensures !Contains(author + AuthorSep + text, LineSep)
  {
    var body := author + AuthorSep + text;
    assert ColonAt(body, |author|);
    WordEndAt(body, 0, |author|);
    NotContainsByChar(author, AuthorSep, 0);
    assert body == author + ":" + (" " + text);
    assert forall k :: 0 <= k < |author| + 1 ==> body[k] != '-';
    NoOccurrenceByChar(body, LineSep, 1, |author| + 1);
    forall j: nat
      ensures !OccursAt(body, LineSep, j)
    {
      if j >= |author| + 1 {
        OccursInSuffix(body, LineSep, |author| + 1, j - |author| - 1);
        assert body[|author| + 1..] == " " + text;
      }
    }
  }

  /** The body `author: text` splits on ": " into the author and the text when neither holds one. */
  lemma MessageBodySplit(author: string, text: string)
    requires !Contains(author, AuthorSep) && !Contains(text, AuthorSep)
    ensures Split(author + AuthorSep + text, AuthorSep) == [author, text]
  {
    var body := author + AuthorSep + text;
    forall j: nat | j < |author|
      ensures !OccursAt(body, AuthorSep, j)
    {
      if j + 1 < |author| {
        assert body[j..j + 2] == author[j..j + 2];
        assert !OccursAt(author, AuthorSep, j);
      } else {
        assert body[j + 1] == ':';
      }
    }
    SplitOfPair(author, AuthorSep, text);
  }

  /**
   * Round trip: a line written as `date, time - author: text` is read back
   * as exactly those four fields, provided the body starts with an author
   * prefix and no field holds a separator (util.py:26-39 gives one such line).
   */
  lemma GetDataPointOfMessageLine(date: string, time: string, author: string, text: string)
    requires IsStampField(date) && IsStampField(time)
    requires StartsWithAuthor(author + AuthorSep + text)
    requires !Contains(author, AuthorSep) && !Contains(text, AuthorSep)
    requires !Contains(author + AuthorSep + text, LineSep)
    ensures GetDataPoint(date + HeaderSep + time + LineSep + author + AuthorSep + text)
         == Ok(DataPoint(date, time, Some(author), text))
  {
    var body := author + AuthorSep + text;
    var line := date + HeaderSep + time + LineSep + body;
    assert date + HeaderSep + time + LineSep + author + AuthorSep + text == line;
    MessageBodySplit(author, text);
    SplitStampedLine(date, time, body);
    GetDataPointOfAuthoredParts(line, date, time, author, text);
  }

  /** getDataPoint on a line whose header and body split into the given fields. */
  lemma GetDataPointOfAuthoredParts(line: string, date: string, time: string, author: string, text: string)
    requires Split(Header(line), HeaderSep) == [date, time]
    requires StartsWithAuthor(Body(line)) && Split(Body(line), AuthorSep) == [author, text]
    ensures GetDataPoint(line) == Ok(DataPoint(date, time, Some(author), text))
  {
    assert Split(Body(line), AuthorSep)[1..] == [text];
  }

  /**
   * A notice line `date, time - text` whose text has no author prefix is read
   * back with no author and the text as its message.
   */
  lemma GetDataPointOfNotice(date: string, time: string, text: string)
    requires IsStampField(date) && IsStampField(time)
    requires !Contains(text, LineSep) && !StartsWithAuthor(text)
    ensures GetDataPoint(date + HeaderSep + time + LineSep + text) == Ok(DataPoint(date, time, None, text))
  {
    SplitStampedLine(date, time, text);
  }

  // ---------------------------------------------------------------------------
  // change_format
  // ---------------------------------------------------------------------------

  /** `time[1]` raised IndexError, or `int(time[:2])` raised ValueError. */
  datatype TimeError = IndexError | NotAnInteger(prefix: string)

  /** The time with a one-digit hour padded by a leading '0'. */
  function Padded(time: string): (t: string)
    requires |time| >= 2
    ensures |t| >= 2
    ensures t == time || t == "0" + time
    ensures t != time <==> time[1] == ':'
  {
    if time[1] == ':' then "0" + time else time
  }

  /** `change_format(time)`: the hour of the day a time falls in. */
  function ChangeFormat(time: string): (r: Result<int, TimeError>)
    ensures |time| < 2 <==> r == Err(IndexError)
    ensures |time| >= 2 && AllDigits(Padded(time)[..2]) ==> r.Ok?
    ensures |time| >= 2 ==>
      (r.Err? <==> Padded(time)[..2] != "12" && ParseInt(Padded(time)[..2]).None?)
    ensures |time| >= 2 && r.Err? ==> r == Err(NotAnInteger(Padded(time)[..2]))
  {
    if |time| < 2 then Err(IndexError)
    else
      var t := Padded(time);
      var hour := t[..2];
      if t[|t| - 2..] == "pm" then
        if hour == "12" then Ok(12)
        else match ParseInt(hour)
          case Some(h) => Ok(h + 12)
          case None => Err(NotAnInteger(hour))
      else if hour == "12" then Ok(0)
      else match ParseInt(hour)
        case Some(h) => Ok(h)
        case None => Err(NotAnInteger(hour))
  }

  /** An hour written with one or two digits, as exports write it. */
  predicate IsHourText(hour: string)
  {
    (|hour| == 1 || |hour| == 2) && AllDigits(hour)
  }

  /** The two-character prefix change_format reads is the padded hour, with the same value. */
  lemma PaddedHour(hour: string, time: string)
    requires IsHourText(hour) && |hour| < |time| && time[..|hour|] == hour && time[|hour|] == ':'
    ensures AllDigits(Padded(time)[..2])
    ensures DigitsValue(Padded(time)[..2]) == DigitsValue(hour)
  {
    var p := Padded(time)[..2];
    if |hour| == 1 {
      assert p == ['0', hour[0]];
      assert p[..1] == "0";
      assert hour[..0] == [];
    } else {
      assert p == hour;
    }
  }

  /** Padding leaves the last two characters, where "pm" is looked for, alone. */
  lemma PaddedKeepsEnding(time: string)
    requires |time| >= 2
    ensures Padded(time)[|Padded(time)| - 2..] == time[|time| - 2..]
  {
  }

  /** A two-digit prefix is "12" exactly when its value is 12. */
  lemma TwelveText(p: string)
    requires |p| == 2 && AllDigits(p)
    ensures DigitsValue(p) == TwoDigits(p[0], p[1])
    ensures p == "12" <==> DigitsValue(p) == 12
  {
    assert p[..1][..0] == [];
    assert DigitsValue(p[..1]) == DigitValue(p[0]);
    if DigitsValue(p) == 12 {
      assert p == [p[0], p[1]];
    }
  }

  /**
   * When the padded hour is two digits, change_format succeeds: "12" gives 12
   * with a "pm" ending and 0 otherwise, any other hour is its value, plus 12
   * with a "pm" ending.
   */
  lemma ChangeFormatOfDigits(time: string)
    requires |time| >= 2 && AllDigits(Padded(time)[..2])
    ensures var t := Padded(time);
            var h := DigitsValue(t[..2]);
            ChangeFormat(time) == Ok(if t[|t| - 2..] == "pm" then (if h == 12 then 12 else h + 12)
                                     else (if h == 12 then 0 else h))
  {
    var t := Padded(time);
    TwelveText(t[..2]);
  }

  /**
   * change_format on a time that starts with a one- or two-digit hour and a
   * ':': the hour of the day, with 12 counted as 0, moved on by 12 exactly
   * when the time ends in "pm".
   */
  lemma ChangeFormatOfHour(time: string, hour: string, pm: bool)
    requires IsHourText(hour) && |hour| < |time| && time[..|hour|] == hour && time[|hour|] == ':'
    requires (time[|time| - 2..] == "pm") == pm
    ensures ChangeFormat(time) == Ok((if DigitsValue(hour) == 12 then 0 else DigitsValue(hour)) + (if pm then 12 else 0))
  {
    PaddedHour(hour, time);
    PaddedKeepsEnding(time);
    ChangeFormatOfDigits(time);
  }

  /** change_format on `hour:minutes` followed by a two-letter ending, "pm" or not. */
  lemma ChangeFormatOfClock(hour: string, minutes: string, ending: string, pm: bool)
    requires IsHourText(hour) && |ending| == 2 && (ending == "pm") == pm
    ensures ChangeFormat(hour + ":" + minutes + ending)
         == Ok((if DigitsValue(hour) == 12 then 0 else DigitsValue(hour)) + (if pm then 12 else 0))
  {
    var time := hour + ":" + minutes + ending;
    assert time[..|hour|] == hour && time[|hour|] == ':';
    assert time[|time| - 2..] == ending;
    ChangeFormatOfHour(time, hour, pm);
  }

  /** A 12-hour clock time `h:MMpm` is hour h + 12, except that 12pm is 12. */
  lemma ChangeFormatPm(hour: string, minutes: string)
    requires IsHourText(hour)
    ensures ChangeFormat(hour + ":" + minutes + "pm")
         == Ok((if DigitsValue(hour) == 12 then 0 else DigitsValue(hour)) + 12)
  {
    ChangeFormatOfClock(hour, minutes, "pm", true);
  }

  /** A 12-hour clock time `h:MMam` is hour h, except that 12am is 0. */
  lemma ChangeFormatAm(hour: string, minutes: string)
    requires IsHourText(hour)
    ensures ChangeFormat(hour + ":" + minutes + "am")
         == Ok(if DigitsValue(hour) == 12 then 0 else DigitsValue(hour))
  {
    assert "am"[0] != "pm"[0];
    ChangeFormatOfClock(hour, minutes, "am", false);
  }

  /**
   * A 24-hour time `HH:MM` with no suffix passes through as its hour, except
   * that hour 12 becomes 0: noon is counted in the midnight bucket.
   */
  lemma ChangeFormatTwentyFourHour(hour: string, minutes: string)
    requires IsHourText(hour) && |minutes| == 2 && AllDigits(minutes)
    ensures ChangeFormat(hour + ":" + minutes) == Ok(if DigitsValue(hour) == 12 then 0 else DigitsValue(hour))
  {
    var time := hour + ":" + minutes;
    assert time[..|hour|] == hour && time[|hour|] == ':';
    assert time[|time| - 2..] == minutes;
    assert minutes[0] != "pm"[0];
    ChangeFormatOfHour(time, hour, false);
  }

  /** "9:05pm" is hour 21. */
  lemma ChangeFormatPmExample()
    ensures ChangeFormat("9:05pm") == Ok(21)
  {
    assert "9:05pm" == "9" + ":" + "05" + "pm";
    assert DigitsValue("9") == 9 by {
      assert "9"[..0] == [];
    }
    ChangeFormatPm("9", "05");
  }

  /** "12:00am" is hour 0. */
  lemma ChangeFormatMidnightExample()
    ensures ChangeFormat("12:00am") == Ok(0)
  {
    assert "12:00am" == "12" + ":" + "00" + "am";
    assert DigitsValue("12") == 12 by {
      assert "12"[..1] == "1" && "1"[..0] == [];
    }
    ChangeFormatAm("12", "00");
  }

  /** "12:30pm" is hour 12. */
  lemma ChangeFormatNoonExample()
    ensures ChangeFormat("12:30pm") == Ok(12)
  {
    assert "12:30pm" == "12" + ":" + "30" + "pm";
    assert DigitsValue("12") == 12 by {
      assert "12"[..1] == "1" && "1"[..0] == [];
    }
    ChangeFormatPm("12", "30");
  }

  /**
   * Any hour prefix `int()` accepts other than "12", signed or blank-padded
   * ones included, is taken at its value, plus 12 when the time ends in "pm".
   */
  lemma ChangeFormatOfParsedHour(time: string)
    requires |time| >= 2
    requires Padded(time)[..2] != "12" && ParseInt(Padded(time)[..2]).Some?
    ensures var t := Padded(time);
            ChangeFormat(time) == Ok(ParseInt(t[..2]).value + (if t[|t| - 2..] == "pm" then 12 else 0))
  {
  }

  /** A leading blank is stripped by `int()`: " 5:00" is hour 5. */
  lemma ChangeFormatBlankHourExample(time: string)
    requires time == " 5:00"
    ensures ChangeFormat(time) == Ok(5)
  {
    assert time[1] != ':' && time[..2] == " " + "5" && time[|time| - 2..] == "00";
    assert DigitsValue("5") == 5 by {
      assert "5"[..0] == [];
    }
    ParseIntOfBlankPadded("5");
    ChangeFormatOfParsedHour(time);
  }

  /** A minus sign is read as part of the hour: "-5:00" is hour -5, not an error. */
  lemma ChangeFormatSignedHourExample(time: string)
    requires time == "-5:00"
    ensures ChangeFormat(time) == Ok(-5)
  {
    assert time[1] != ':' && time[..2] == ['-'] + "5" && time[|time| - 2..] == "00";
    assert DigitsValue("5") == 5 by {
      assert "5"[..0] == [];
    }
    ParseIntOfSigned('-', "5");
    ChangeFormatOfParsedHour(time);
  }

  /** "23:59" passes through as hour 23. */
  lemma ChangeFormatEveningExample()
    ensures ChangeFormat("23:59") == Ok(23)
  {
    assert "23:59" == "23" + ":" + "59";
    assert DigitsValue("23") == 23 by {
      assert "23"[..1] == "2" && "2"[..0] == [];
    }
    ChangeFormatTwentyFourHour("23", "59");
  }

  /** "12:30" without a suffix lands on hour 0. */
  lemma ChangeFormatBareNoonExample()
    ensures ChangeFormat("12:30") == Ok(0)
  {
    assert "12:30" == "12" + ":" + "30";
    assert DigitsValue("12") == 12 by {
      assert "12"[..1] == "1" && "1"[..0] == [];
    }
    ChangeFormatTwentyFourHour("12", "30");
  }

  /** The line quoted in getDataPoint's comments is read as its four fields. */
  lemma GetDataPointExample()
    ensures GetDataPoint("18/06/17" + HeaderSep + "22:47" + LineSep + "Loki" + AuthorSep +
                         "Why do you have 2 numbers, Banner?")
         == Ok(DataPoint("18/06/17", "22:47", Some("Loki"), "Why do you have 2 numbers, Banner?"))
  {
    var text := "Why do you have 2 numbers, Banner?";
    NotContainsByChar(text, AuthorSep, 0);
    NotContainsByChar(" " + text, LineSep, 1);
    OneWordAuthorBody("Loki", text);
    GetDataPointOfMessageLine("18/06/17", "22:47", "Loki", text);
  }
}
