/**
 * The per-message quantities main.py derives from the parsed records: the
 * media test (main.py:82), the letter count (main.py:95) and the word count
 * (main.py:96).  Each stands next to what it means for a message that the
 * loop reassembled from several lines.
 */
module Stats {
  import opened Wrappers
  import opened PyStr
  import opened Util

  /** The text the chat export writes in place of an attachment. */
  const MediaSentinel := "<Media omitted>"

  /** The row filter `Message == '<Media omitted>'`: exact equality, nothing around it. */
  predicate IsMedia(message: string)
  {
    message == MediaSentinel
  }

  /** `len(s)`. */
  function LetterCount(message: string): nat
  {
    |message|
  }

  /** `len(s.split(' '))`: the number of single-space separated fields. */
  function WordCount(message: string): (n: nat)
    ensures n >= 1
  {
    |Split(message, " ")|
  }

  /** Total length of some lines. */
  function SumLengths(lines: seq<string>): nat
  {
    if lines == [] then 0 else |lines[0]| + SumLengths(lines[1..])
  }

  /** Total number of occurrences of `c` in some lines. */
  function SumCounts(lines: seq<string>, c: char): nat
  {
    if lines == [] then 0 else Count(lines[0], c) + SumCounts(lines[1..], c)
  }

  /** Total word count of some lines, each counted on its own. */
  function SumWordCounts(lines: seq<string>): nat
  {
    if lines == [] then 0 else WordCount(lines[0]) + SumWordCounts(lines[1..])
  }

  /**
   * The word count is the number of spaces plus one, whatever else the text
   * holds: `''` counts 1, and two spaces in a row count an empty word.
   */
  lemma WordCountIsSpacesPlusOne(message: string)
    ensures WordCount(message) == Count(message, ' ') + 1
  {
    assert " " == [' '];
    SplitCharCount(message, ' ');
  }

  /** Words without spaces, joined by single spaces, are counted one by one. */
  lemma WordCountOfWords(words: seq<string>)
    requires |words| >= 1
    requires forall i, k :: 0 <= i < |words| && 0 <= k < |words[i]| ==> words[i][k] != ' '
    ensures WordCount(Join(" ", words)) == |words|
  {
    assert " " == [' '];
    SplitJoinChar(words, ' ');
  }

  /** Joining lines with a one-character separator adds one occurrence per gap. */
  lemma {:induction false} CountOfJoin(lines: seq<string>, c: char)
    requires |lines| >= 1
    ensures Count(Join([c], lines), c) == SumCounts(lines, c) + |lines| - 1
    decreases |lines|
  {
    if |lines| > 1 {
      var rest := lines[1..];
      assert lines == [lines[0]] + rest;
      JoinCons([c], lines[0], rest);
      CountOfJoin(rest, c);
      CountConcat(lines[0], [c], c);
      CountConcat(lines[0] + [c], Join([c], rest), c);
      assert Count([c], c) == 1 by {
        assert [c][1..] == [];
      }
    }
  }

  /** Word counts of all lines, each line counted on its own. */
  lemma {:induction false} SumWordCountsIsSpacesPlusLines(lines: seq<string>)
    ensures SumWordCounts(lines) == SumCounts(lines, ' ') + |lines|
    decreases |lines|
  {
    if lines != [] {
      WordCountIsSpacesPlusOne(lines[0]);
      SumWordCountsIsSpacesPlusLines(lines[1..]);
    }
  }

  /**
   * The word count of a message the loop joined from several lines is the
   * sum of the lines' own word counts.
   */
  lemma WordCountOfMessage(lines: seq<string>)
    requires |lines| >= 1
    ensures WordCount(Join(" ", lines)) == SumWordCounts(lines)
  {
    assert " " == [' '];
    WordCountIsSpacesPlusOne(Join(" ", lines));
    CountOfJoin(lines, ' ');
    SumWordCountsIsSpacesPlusLines(lines);
  }

  /**
   * The letter count of a message the loop joined from several lines is the
   * lines' lengths plus one space per gap.
   */
  lemma {:induction false} LetterCountOfMessage(lines: seq<string>)
    requires |lines| >= 1
    ensures LetterCount(Join(" ", lines)) == SumLengths(lines) + |lines| - 1
    decreases |lines|
  {
    if |lines| > 1 {
      var rest := lines[1..];
      assert lines == [lines[0]] + rest;
      JoinCons(" ", lines[0], rest);
      LetterCountOfMessage(rest);
    }
  }

  /**
   * A media message followed by continuation lines is no longer a media
   * message: the sentinel test is exact.
   */
  lemma MediaNeedsOneLine(more: seq<string>)
    ensures IsMedia(Join(" ", [MediaSentinel] + more)) <==> more == []
  {
    if more != [] {
      LetterCountOfMessage([MediaSentinel] + more);
      assert SumLengths([MediaSentinel] + more) >= |MediaSentinel| by {
        assert ([MediaSentinel] + more)[0] == MediaSentinel;
      }
    }
  }

  /** An attachment line `date, time - author: <Media omitted>` gives a media message. */
  lemma MediaLine(date: string, time: string, author: string)
    requires IsStampField(date) && IsStampField(time)
    requires StartsWithAuthor(author + AuthorSep + MediaSentinel) && !Contains(author, AuthorSep)
    requires !Contains(author + AuthorSep + MediaSentinel, LineSep)
    ensures var line := date + HeaderSep + time + LineSep + author + AuthorSep + MediaSentinel;
            GetDataPoint(line).Ok? && IsMedia(GetDataPoint(line).value.message) &&
            GetDataPoint(line).value.author == Some(author)
  {
    NotContainsByChar(MediaSentinel, AuthorSep, 0);
    GetDataPointOfMessageLine(date, time, author, MediaSentinel);
  }

  /** An attachment sent from an unsaved Indian number is a media message of that number. */
  lemma PhoneMediaLine(date: string, time: string, author: string)
    requires IsStampField(date) && IsStampField(time)
    requires author == "+91 98765 43210"
    ensures var line := date + HeaderSep + time + LineSep + author + AuthorSep + MediaSentinel;
            GetDataPoint(line).Ok? && IsMedia(GetDataPoint(line).value.message) &&
            GetDataPoint(line).value.author == Some(author)
  {
    var body := author + AuthorSep + MediaSentinel;
    assert MatchesShape(body, IndiaNumber);
    assert forall k :: 0 <= k < |body| ==> body[k] != '-';
    NotContainsByChar(body, LineSep, 1);
    NotContainsByChar(author, AuthorSep, 0);
    MediaLine(date, time, author);
  }
}
