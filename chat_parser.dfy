/**
 * The loop of `load_data` (main.py:54-69): every uploaded line is stripped
 * and either starts a new message (a date/time stamp) or continues the one
 * being buffered.  The state is the output list, the line buffer and the
 * date, time and author held for the buffered message.
 *
 * `Step` and `Run` are the specification of the loop, one line and a whole
 * sequence of lines at a time; `LoadData` is the loop itself, proved equal to
 * `Parse`.  `BySegments` is an independent description of the same parse,
 * one message at a time.
 */
module ChatParser {
  import opened Wrappers
  import opened PyStr
  import opened Util

  /** One row `[date, time, author, message]` of `parsedData`. */
  datatype Record = Record(date: Option<string>, time: Option<string>, author: Option<string>, message: string)

  /** What the loop holds between two lines. */
  datatype ParseState = ParseState(
    parsed: seq<Record>,
    buffer: seq<string>,
    date: Option<string>,
    time: Option<string>,
    author: Option<string>)

  /** The state before the first line: nothing parsed, nothing buffered, nothing held. */
  const Start := ParseState([], [], None, None, None)

  /** The record a non-empty buffer is saved as, with the fields held for it. */
  function Pending(st: ParseState): Record
  {
    Record(st.date, st.time, st.author, Join(" ", st.buffer))
  }

  /** `parsedData` after the buffer is saved, when it holds anything. */
  function Saved(st: ParseState): seq<Record>
  {
    if |st.buffer| > 0 then st.parsed + [Pending(st)] else st.parsed
  }

  /** One pass of the loop body on an already stripped line. */
  function Step(st: ParseState, line: string): (r: Result<ParseState, DataPointError>)
    ensures r.Ok? ==> r.value.parsed == st.parsed || r.value.parsed == st.parsed + [Pending(st)]
    ensures r.Ok? ==> |r.value.buffer| > 0
  {
    if StartsWithDateTime(line) then
      match GetDataPoint(line)
      case Err(e) => Err(e)
      case Ok(dp) => Ok(ParseState(Saved(st), [dp.message], Some(dp.date), Some(dp.time), dp.author))
    else
      Ok(st.(buffer := st.buffer + [line]))
  }

  /** The loop over the remaining lines; the first failing getDataPoint ends it. */
  function Run(st: ParseState, lines: seq<string>): (r: Result<ParseState, DataPointError>)
    ensures r.Ok? ==> st.parsed <= r.value.parsed
    ensures r.Ok? && |lines| > 0 ==> |r.value.buffer| > 0
    decreases |lines|
  {
    if lines == [] then Ok(st)
    else
      match Step(st, lines[0])
      case Err(e) => Err(e)
      case Ok(next) => Run(next, lines[1..])
  }

  /** Every line stripped, as the loop does before looking at it. */
  function Stripped(lines: seq<string>): (r: seq<string>)
    ensures |r| == |lines|
    ensures forall i :: 0 <= i < |lines| ==> r[i] == Strip(lines[i])
  {
    seq(|lines|, i requires 0 <= i < |lines| => Strip(lines[i]))
  }

  /**
   * What `load_data` returns for a file of lines: `parsedData`, with no final
   * save.  An empty file gives no record, and any other file fewer records
   * than lines, since the last message is still buffered at the end.
   */
  function Parse(lines: seq<string>): (r: Result<seq<Record>, DataPointError>)
    ensures lines == [] ==> r == Ok([])
    ensures r.Ok? && lines != [] ==> |r.value| < |lines|
  {
    RecordsPerLine(Stripped(lines));
    match Run(Start, Stripped(lines))
    case Err(e) => Err(e)
    case Ok(st) => Ok(st.parsed)
  }

  /**
   * `load_data()`: None when no file was uploaded, otherwise the records of
   * the file's lines (Err when getDataPoint raises on one of them).
   */
  method LoadData(chatFile: Option<seq<string>>) returns (data: Option<Result<seq<Record>, DataPointError>>)
    ensures chatFile.None? ==> data.None?
    ensures chatFile.Some? ==> data == Some(Parse(chatFile.value))
  {
    if chatFile.None? {
      return None;
    }
    var lines := chatFile.value;
    ghost var stripped := Stripped(lines);
    var parsedData: seq<Record> := [];
    var messageBuffer: seq<string> := [];
    var date: Option<string>, time: Option<string>, author: Option<string> := None, None, None;
    for i := 0 to |lines|
      invariant Run(ParseState(parsedData, messageBuffer, date, time, author), stripped[i..]) == Run(Start, stripped)
    {
      var line := Strip(lines[i]);
      ghost var st := ParseState(parsedData, messageBuffer, date, time, author);
      RunFirst(st, stripped, i);
      StepCases(st, line);
      if StartsWithDateTime(line) {
        if |messageBuffer| > 0 {
          parsedData := parsedData + [Record(date, time, author, Join(" ", messageBuffer))];
        }
        messageBuffer := [];
        var point := GetDataPoint(line);
        if point.Err? {
          return Some(Err(point.error));
        }
        date, time, author := Some(point.value.date), Some(point.value.time), point.value.author;
        messageBuffer := messageBuffer + [point.value.message];
        assert messageBuffer == [point.value.message];
        assert parsedData == Saved(st);
      } else {
        messageBuffer := messageBuffer + [line];
      }
      assert Step(st, line) == Ok(ParseState(parsedData, messageBuffer, date, time, author));
    }
    assert stripped[|lines|..] == [];
    return Some(Ok(parsedData));
  }

  // ---------------------------------------------------------------------------
  // Composition
  // ---------------------------------------------------------------------------

  /** The three ways one line can go. */
  lemma StepCases(st: ParseState, line: string)
    ensures !StartsWithDateTime(line) ==> Step(st, line) == Ok(st.(buffer := st.buffer + [line]))
    ensures StartsWithDateTime(line) && GetDataPoint(line).Err? ==> Step(st, line) == Err(GetDataPoint(line).error)
    ensures StartsWithDateTime(line) && GetDataPoint(line).Ok? ==>
      var dp := GetDataPoint(line).value;
      Step(st, line) == Ok(ParseState(Saved(st), [dp.message], Some(dp.date), Some(dp.time), dp.author))
  {
  }

  /** Running from line `i` is one step on line `i`, then running from line `i + 1`. */
  lemma RunFirst(st: ParseState, lines: seq<string>, i: nat)
    requires i < |lines|
    ensures Run(st, lines[i..]) == (match Step(st, lines[i]) case Err(e) => Err(e) case Ok(next) => Run(next, lines[i + 1..]))
  {
    assert lines[i..][0] == lines[i] && lines[i..][1..] == lines[i + 1..];
  }

  /** Running over `a + b` is running over `a`, then over `b` from where `a` left off. */
  lemma {:induction false} RunAppend(st: ParseState, a: seq<string>, b: seq<string>)
    ensures Run(st, a + b) == (match Run(st, a) case Err(e) => Err(e) case Ok(mid) => Run(mid, b))
    decreases |a|
  {
    if a == [] {
      assert a + b == b;
    } else {
      assert (a + b)[0] == a[0] && (a + b)[1..] == a[1..] + b;
      match Step(st, a[0])
      case Err(e) =>
      case Ok(next) => RunAppend(next, a[1..], b);
    }
  }

  /** Lines that start no message are only buffered, verbatim and in order. */
  lemma {:induction false} RunContinuations(st: ParseState, lines: seq<string>)
    requires forall i :: 0 <= i < |lines| ==> !StartsWithDateTime(lines[i])
    ensures Run(st, lines) == Ok(st.(buffer := st.buffer + lines))
    decreases |lines|
  {
    if lines != [] {
      var next := st.(buffer := st.buffer + [lines[0]]);
      StepCases(st, lines[0]);
      assert Run(st, lines) == Run(next, lines[1..]);
      assert forall i :: 0 <= i < |lines[1..]| ==> lines[1..][i] == lines[i + 1];
      RunContinuations(next, lines[1..]);
      assert next.buffer + lines[1..] == st.buffer + lines;
    } else {
      assert st.buffer + lines == st.buffer;
    }
  }

  /** Stripping a concatenation strips both parts. */
  lemma StrippedAppend(a: seq<string>, b: seq<string>)
    ensures Stripped(a + b) == Stripped(a) + Stripped(b)
  {
  }

  // ---------------------------------------------------------------------------
  // Counting records
  // ---------------------------------------------------------------------------

  /** The number of lines that start a message. */
  function Boundaries(lines: seq<string>): (n: nat)
    ensures n <= |lines|
  {
    if lines == [] then 0
    else (if StartsWithDateTime(lines[0]) then 1 else 0) + Boundaries(lines[1..])
  }

  /** Boundary lines of a concatenation are those of its two parts. */
  lemma {:induction false} BoundariesAppend(a: seq<string>, b: seq<string>)
    ensures Boundaries(a + b) == Boundaries(a) + Boundaries(b)
    decreases |a|
  {
    if a == [] {
      assert a + b == b;
    } else {
      assert (a + b)[0] == a[0] && (a + b)[1..] == a[1..] + b;
      BoundariesAppend(a[1..], b);
    }
  }

  /** The index of the first line that starts a message, or |lines| when none does. */
  function FirstBoundary(lines: seq<string>): (k: nat)
    ensures k <= |lines|
    ensures forall i :: 0 <= i < k ==> !StartsWithDateTime(lines[i])
    ensures k < |lines| ==> StartsWithDateTime(lines[k])
  {
    if lines == [] || StartsWithDateTime(lines[0]) then 0
    else 1 + FirstBoundary(lines[1..])
  }

  /**
   * Every line that starts a message saves the buffer before it, and the
   * buffer is empty only when nothing at all came before: so each boundary
   * adds one record, except a first line that is a boundary met with an
   * empty buffer.
   */
  lemma {:induction false} RunRecordCount(st: ParseState, lines: seq<string>)
    requires Run(st, lines).Ok?
    ensures |Run(st, lines).value.parsed|
         == |st.parsed| + Boundaries(lines)
            - (if |st.buffer| == 0 && |lines| > 0 && StartsWithDateTime(lines[0]) then 1 else 0)
    decreases |lines|
  {
    if lines != [] {
      var next := Step(st, lines[0]).value;
      RunRecordCount(next, lines[1..]);
    }
  }

  /**
   * From the start state the loop saves fewer records than it reads lines,
   * and the final save brings it to at most one record per line.
   */
  lemma RecordsPerLine(lines: seq<string>)
    ensures Run(Start, lines).Ok? && lines != [] ==>
              |Run(Start, lines).value.parsed| < |lines| &&
              |Saved(Run(Start, lines).value)| == |Run(Start, lines).value.parsed| + 1
  {
    if Run(Start, lines).Ok? && lines != [] {
      RunRecordCount(Start, lines);
      assert Boundaries(lines) == (if StartsWithDateTime(lines[0]) then 1 else 0) + Boundaries(lines[1..]);
    }
  }

  /**
   * The number of records load_data returns: none without a boundary line;
   * otherwise one per boundary line except the last, whose message is never
   * saved, plus one for the lines before the first boundary if there are any.
   */
  lemma ParseRecordCount(lines: seq<string>)
    requires Parse(lines).Ok?
    ensures var s := Stripped(lines);
            var n := Boundaries(s);
            |Parse(lines).value| == if n == 0 then 0 else n - 1 + (if FirstBoundary(s) > 0 then 1 else 0)
  {
    var s := Stripped(lines);
    RunRecordCount(Start, s);
    if Boundaries(s) == 0 {
      NoBoundaryNoRecord(s);
    } else if FirstBoundary(s) > 0 {
      assert !StartsWithDateTime(s[0]);
    }
  }

  /** With no boundary line, nothing is ever saved. */
  lemma {:induction false} NoBoundaryNoRecord(lines: seq<string>)
    requires Boundaries(lines) == 0
    ensures forall i :: 0 <= i < |lines| ==> !StartsWithDateTime(lines[i])
    ensures FirstBoundary(lines) == |lines|
    decreases |lines|
  {
    if lines != [] {
      NoBoundaryNoRecord(lines[1..]);
      assert forall i :: 1 <= i < |lines| ==> lines[i] == lines[1..][i - 1];
    }
  }

  // ---------------------------------------------------------------------------
  // Failure
  // ---------------------------------------------------------------------------

  /** A line that starts a message but that getDataPoint cannot take apart. */
  predicate Fails(line: string)
  {
    StartsWithDateTime(line) && GetDataPoint(line).Err?
  }

  /** The loop fails exactly when one of its lines is a boundary getDataPoint rejects. */
  lemma {:induction false} RunFailsIff(st: ParseState, lines: seq<string>)
    ensures Run(st, lines).Err? <==> exists i :: 0 <= i < |lines| && Fails(lines[i])
    decreases |lines|
  {
    if lines != [] && !Fails(lines[0]) {
      var rest := lines[1..];
      RunFailsIff(Step(st, lines[0]).value, rest);
      if exists i :: 0 <= i < |lines| && Fails(lines[i]) {
        var i :| 0 <= i < |lines| && Fails(lines[i]);
        assert rest[i - 1] == lines[i];
      }
      if exists j :: 0 <= j < |rest| && Fails(rest[j]) {
        var j :| 0 <= j < |rest| && Fails(rest[j]);
        assert lines[j + 1] == rest[j];
      }
    }
  }

  /** load_data fails exactly when some stripped line starts a message getDataPoint rejects. */
  lemma ParseFailsIff(lines: seq<string>)
    ensures Parse(lines).Err? <==> exists i :: 0 <= i < |lines| && Fails(Strip(lines[i]))
  {
    var s := Stripped(lines);
    RunFailsIff(Start, s);
    if exists i :: 0 <= i < |s| && Fails(s[i]) {
      var i :| 0 <= i < |s| && Fails(s[i]);
      assert Fails(Strip(lines[i]));
    }
  }

  // ---------------------------------------------------------------------------
  // The as-written end of the loop
  // ---------------------------------------------------------------------------

  /**
   * No final save: lines after the last boundary change nothing that
   * load_data returns; they only grow a buffer that is dropped.
   */
  lemma NoFinalFlush(lines: seq<string>, tail: seq<string>)
    requires forall i :: 0 <= i < |tail| ==> !StartsWithDateTime(Strip(tail[i]))
    ensures Parse(lines + tail) == Parse(lines)
  {
    StrippedAppend(lines, tail);
    RunAppend(Start, Stripped(lines), Stripped(tail));
    match Run(Start, Stripped(lines))
    case Err(e) =>
    case Ok(mid) => RunContinuations(mid, Stripped(tail));
  }

  /**
   * Leading lines are kept: the lines before the first boundary come out,
   * joined by spaces, as the first record, with no date, time or author.
   */
  lemma LeadingLinesRecord(lines: seq<string>)
    requires var s := Stripped(lines); 0 < FirstBoundary(s) < |s|
    requires Parse(lines).Ok?
    ensures var s := Stripped(lines);
            |Parse(lines).value| > 0 &&
            Parse(lines).value[0] == Record(None, None, None, Join(" ", s[..FirstBoundary(s)]))
  {
    RunLeadingRecord(Stripped(lines));
  }

  /** The loop from the start on stripped lines that begin with continuation lines. */
  lemma RunLeadingRecord(s: seq<string>)
    requires 0 < FirstBoundary(s) < |s| && Run(Start, s).Ok?
    ensures |Run(Start, s).value.parsed| > 0
    ensures Run(Start, s).value.parsed[0] == Record(None, None, None, Join(" ", s[..FirstBoundary(s)]))
  {
    var k := FirstBoundary(s);
    assert s == s[..k] + s[k..];
    RunAppend(Start, s[..k], s[k..]);
    RunContinuations(Start, s[..k]);
    var mid := Start.(buffer := s[..k]);
    assert Start.buffer + s[..k] == s[..k];
    assert Run(Start, s) == Run(mid, s[k..]);
    RunFirst(mid, s, k);
    StepCases(mid, s[k]);
    var next := Step(mid, s[k]).value;
    assert next.parsed == [Pending(mid)];
  }

  // ---------------------------------------------------------------------------
  // Message by message
  // ---------------------------------------------------------------------------

  /**
   * The same parse read one message at a time: the continuation lines up to
   * the next boundary join the buffer, the whole buffer is saved with the
   * fields held for it, and the boundary's own fields and message take over.
   */
  function BySegments(st: ParseState, lines: seq<string>): Result<ParseState, DataPointError>
    decreases |lines|
  {
    var k := FirstBoundary(lines);
    if k == |lines| then Ok(st.(buffer := st.buffer + lines))
    else
      var held := st.(buffer := st.buffer + lines[..k]);
      match GetDataPoint(lines[k])
      case Err(e) => Err(e)
      case Ok(dp) =>
        BySegments(ParseState(Saved(held), [dp.message], Some(dp.date), Some(dp.time), dp.author), lines[k + 1..])
  }

  /** The line-by-line loop and the message-by-message reading agree on every input. */
  lemma {:induction false} RunIsBySegments(st: ParseState, lines: seq<string>)
    ensures Run(st, lines) == BySegments(st, lines)
    decreases |lines|
  {
    var k := FirstBoundary(lines);
    if k == |lines| {
      RunContinuations(st, lines);
    } else {
      var held := st.(buffer := st.buffer + lines[..k]);
      RunToBoundary(st, lines, k);
      StepCases(held, lines[k]);
      match Step(held, lines[k])
      case Err(e) =>
      case Ok(next) => RunIsBySegments(next, lines[k + 1..]);
    }
  }

  /** The loop up to and including the line at `k`, when no line before `k` is a boundary. */
  lemma RunToBoundary(st: ParseState, lines: seq<string>, k: nat)
    requires k < |lines|
    requires forall i :: 0 <= i < k ==> !StartsWithDateTime(lines[i])
    ensures var held := st.(buffer := st.buffer + lines[..k]);
            Run(st, lines) == (match Step(held, lines[k]) case Err(e) => Err(e) case Ok(next) => Run(next, lines[k + 1..]))
  {
    assert lines == lines[..k] + lines[k..];
    RunAppend(st, lines[..k], lines[k..]);
    RunContinuations(st, lines[..k]);
    RunFirst(st.(buffer := st.buffer + lines[..k]), lines, k);
  }

  // ---------------------------------------------------------------------------
  // Saving the last message
  // ---------------------------------------------------------------------------

  /** load_data with the buffer saved once more after the loop. */
  function ParseFlushed(lines: seq<string>): (r: Result<seq<Record>, DataPointError>)
    ensures lines == [] ==> r == Ok([])
    ensures r.Ok? ==> |r.value| <= |lines|
    ensures r.Ok? && lines != [] ==> |r.value| > 0
  {
    RecordsPerLine(Stripped(lines));
    match Run(Start, Stripped(lines))
    case Err(e) => Err(e)
    case Ok(st) => Ok(Saved(st))
  }

  /**
   * With the final save every boundary line gives exactly one record, and
   * the lines before the first boundary one more.
   */
  lemma ParseFlushedRecordCount(lines: seq<string>)
    requires ParseFlushed(lines).Ok?
    ensures var s := Stripped(lines);
            |ParseFlushed(lines).value| == Boundaries(s) + (if |s| > 0 && !StartsWithDateTime(s[0]) then 1 else 0)
  {
    RunRecordCount(Start, Stripped(lines));
  }

  /** The final save only adds the last message: the records before it are those of load_data. */
  lemma ParseFlushedExtendsParse(lines: seq<string>)
    ensures Parse(lines).Err? <==> ParseFlushed(lines).Err?
    ensures Parse(lines).Ok? ==> Parse(lines).value <= ParseFlushed(lines).value
    ensures Parse(lines).Ok? ==> |ParseFlushed(lines).value| == |Parse(lines).value| + (if |lines| > 0 then 1 else 0)
  {
  }

  /**
   * A message line, a continuation line and a second message line: load_data
   * returns only the first message, with the continuation joined on; the
   * second is lost, while the final save keeps it.
   */
  lemma ThreeLines(first: string, more: string, second: string, a: DataPoint, b: DataPoint)
    requires StartsWithDateTime(Strip(first)) && GetDataPoint(Strip(first)) == Ok(a)
    requires !StartsWithDateTime(Strip(more))
    requires StartsWithDateTime(Strip(second)) && GetDataPoint(Strip(second)) == Ok(b)
    ensures var r1 := Record(Some(a.date), Some(a.time), a.author, a.message + " " + Strip(more));
            Parse([first, more, second]) == Ok([r1]) &&
            ParseFlushed([first, more, second]) == Ok([r1, Record(Some(b.date), Some(b.time), b.author, b.message)])
  {
    StrippedThree(first, more, second);
    RunThree(Stripped([first, more, second]), a, b);
    ParseOfRun([first, more, second], Run(Start, Stripped([first, more, second])).value);
  }

  /** Stripping three lines. */
  lemma StrippedThree(x: string, y: string, z: string)
    ensures Stripped([x, y, z]) == [Strip(x), Strip(y), Strip(z)]
  {
  }

  /** Parse and ParseFlushed read their records off the state the loop ends in. */
  lemma ParseOfRun(lines: seq<string>, st: ParseState)
    requires Run(Start, Stripped(lines)) == Ok(st)
    ensures Parse(lines) == Ok(st.parsed) && ParseFlushed(lines) == Ok(Saved(st))
  {
  }

  /** The loop over a message line, a continuation line and a second message line. */
  lemma RunThree(s: seq<string>, a: DataPoint, b: DataPoint)
    requires |s| == 3
    requires StartsWithDateTime(s[0]) && GetDataPoint(s[0]) == Ok(a)
    requires !StartsWithDateTime(s[1])
    requires StartsWithDateTime(s[2]) && GetDataPoint(s[2]) == Ok(b)
    ensures var r1 := Record(Some(a.date), Some(a.time), a.author, a.message + " " + s[1]);
            Run(Start, s).Ok? && Run(Start, s).value.parsed == [r1] &&
            Saved(Run(Start, s).value) == [r1, Record(Some(b.date), Some(b.time), b.author, b.message)]
  {
    var st1 := ParseState([], [a.message], Some(a.date), Some(a.time), a.author);
    var st2 := st1.(buffer := [a.message, s[1]]);
    var r1 := Record(Some(a.date), Some(a.time), a.author, a.message + " " + s[1]);
    var st3 := ParseState([r1], [b.message], Some(b.date), Some(b.time), b.author);
    StepCases(Start, s[0]);
    assert Step(Start, s[0]) == Ok(st1);
    StepCases(st1, s[1]);
    assert st1.buffer + [s[1]] == st2.buffer;
    assert Step(st1, s[1]) == Ok(st2);
    StepCases(st2, s[2]);
    assert Join(" ", st2.buffer) == a.message + " " + s[1];
    assert Saved(st2) == [r1];
    assert Step(st2, s[2]) == Ok(st3);
    RunFirst(st2, s, 2);
    assert s[3..] == [];
    assert Run(st2, s[2..]) == Ok(st3);
    RunFirst(st1, s, 1);
    assert Run(st1, s[1..]) == Ok(st3);
    RunFirst(Start, s, 0);
    assert s[0..] == s;
    assert Join(" ", st3.buffer) == b.message;
  }

  // ---------------------------------------------------------------------------
  // A three-line chat
  // ---------------------------------------------------------------------------

  /**
   * A message line `date, time - author: text` whose ends are not blank is
   * left alone by strip, starts a message, and splits into its four parts.
   */
  lemma MessageLine(date: string, time: string, author: string, text: string)
    requires StartsWithDateTime(date) && IsStampField(date) && IsStampField(time)
    requires StartsWithAuthor(author + AuthorSep + text)
    requires !Contains(author, AuthorSep) && !Contains(text, AuthorSep)
    requires !Contains(author + AuthorSep + text, LineSep)
    requires |text| > 0 && !IsSpace(text[|text| - 1])
    ensures var line := date + HeaderSep + time + LineSep + author + AuthorSep + text;
            Strip(line) == line && StartsWithDateTime(line) &&
            GetDataPoint(line) == Ok(DataPoint(date, time, Some(author), text))
  {
    var rest := HeaderSep + time + LineSep + author + AuthorSep + text;
    assert rest[|rest| - 1] == text[|text| - 1];
    StampedLine(date, rest);
    assert date + HeaderSep + time + LineSep + author + AuthorSep + text == date + rest;
    GetDataPointOfMessageLine(date, time, author, text);
  }

  /** A line that starts with a date stamp and does not end in blank. */
  lemma StampedLine(date: string, rest: string)
    requires StartsWithDateTime(date) && |rest| > 0 && !IsSpace(rest[|rest| - 1])
    ensures Strip(date + rest) == date + rest && StartsWithDateTime(date + rest)
  {
    var line := date + rest;
    assert line[..8] == date[..8];
    assert line[0] == date[0] && line[|line| - 1] == rest[|rest| - 1];
  }

  /**
   * A message line with a date stamp, a one-word author and a text with
   * neither ':' nor '-' that ends in a non-blank.
   */
  lemma OneWordMessageLine(date: string, time: string, author: string, text: string)
    requires StartsWithDateTime(date) && IsStampField(date) && IsStampField(time) && IsWord(author)
    requires forall k :: 0 <= k < |text| ==> text[k] != ':' && text[k] != '-'
    requires |text| > 0 && !IsSpace(text[|text| - 1])
    ensures var line := date + HeaderSep + time + LineSep + author + AuthorSep + text;
            Strip(line) == line && StartsWithDateTime(line) &&
            GetDataPoint(line) == Ok(DataPoint(date, time, Some(author), text))
  {
    NotContainsByChar(text, AuthorSep, 0);
    assert forall k :: 1 <= k < |" " + text| ==> (" " + text)[k] == text[k - 1];
    NotContainsByChar(" " + text, LineSep, 1);
    OneWordAuthorBody(author, text);
    MessageLine(date, time, author, text);
  }

  /**
   * The two message lines of the example chat, Loki's text and Banner's
   * attachment: each is read back as its four fields.
   */
  lemma ExampleMessageLine(date: string, time: string, author: string, text: string)
    requires date == "18/06/17"
    requires (time, author, text) == ("22:47", "Loki", "Why do you have 2 numbers, Banner?") ||
             (time, author, text) == ("22:48", "Banner", "<Media omitted>")
    ensures var line := date + HeaderSep + time + LineSep + author + AuthorSep + text;
            Strip(line) == line && StartsWithDateTime(line) &&
            GetDataPoint(line) == Ok(DataPoint(date, time, Some(author), text))
  {
    assert StartsWithDateTime(date) && IsStampField(date) && IsStampField(time) && IsWord(author);
    ExampleTextIsPlain(text);
    OneWordMessageLine(date, time, author, text);
  }

  /** The two example texts hold neither ':' nor '-'. */
  lemma ExampleTextIsPlain(text: string)
    requires text == "Why do you have 2 numbers, Banner?" || text == "<Media omitted>"
    ensures forall k :: 0 <= k < |text| ==> text[k] != ':' && text[k] != '-'
  {
  }

  /** The continuation line of the example chat starts no message. */
  lemma ContinuationLine(line: string)
    requires line == "This is a continuation"
    ensures Strip(line) == line && !StartsWithDateTime(line)
  {
    assert line[0] == 'T' && line[|line| - 1] == 'n';
  }

  /**
   * The chat "Loki's message / a continuation line / Banner's media line"
   * comes out of load_data as Loki's message alone, continuation joined on;
   * Banner's message is only saved with the final save.
   */
  lemma ThreeLineChat(chat: seq<string>)
    requires chat == ["18/06/17" + HeaderSep + "22:47" + LineSep + "Loki" + AuthorSep + "Why do you have 2 numbers, Banner?",
                      "This is a continuation",
                      "18/06/17" + HeaderSep + "22:48" + LineSep + "Banner" + AuthorSep + "<Media omitted>"]
    ensures var loki := Record(Some("18/06/17"), Some("22:47"), Some("Loki"),
                               "Why do you have 2 numbers, Banner?" + " " + "This is a continuation");
            Parse(chat) == Ok([loki]) &&
            ParseFlushed(chat) == Ok([loki, Record(Some("18/06/17"), Some("22:48"), Some("Banner"), "<Media omitted>")])
  {
    ExampleMessageLine("18/06/17", "22:47", "Loki", "Why do you have 2 numbers, Banner?");
    ContinuationLine(chat[1]);
    ExampleMessageLine("18/06/17", "22:48", "Banner", "<Media omitted>");
    assert chat == [chat[0], chat[1], chat[2]];
    ThreeLines(chat[0], chat[1], chat[2],
               DataPoint("18/06/17", "22:47", Some("Loki"), "Why do you have 2 numbers, Banner?"),
               DataPoint("18/06/17", "22:48", Some("Banner"), "<Media omitted>"));
  }
}
