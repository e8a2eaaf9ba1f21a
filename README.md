# WhatsApp chat analyzer: the log parser, in Dafny

The analyzer turns an exported WhatsApp chat (a text file with one line per
line of chat) into rows `[date, time, author, message]` and charts statistics
over them. This project models the part with real logic: the parser.

- `util.py` holds four pure line-level helpers, each modelled as a Dafny
  function and proved against an independent description:
  - `startsWithDateTime` is the `DD/MM/YY` stamp test;
  - `startsWithAuthor` is the author / phone-number prefix test. It is
    modelled as a greedy scanner and proved equal to the six regex
    alternatives;
  - `getDataPoint` splits a line into date, time, author and message;
  - `change_format` gives the hour of the day of a time string.
- `load_data` in `main.py` is the loop that strips each line and either starts
  a new message or continues the one being buffered. It is modelled as a
  method with the loop's own state: the output list, the line buffer and the
  held date, time and author. That method is proved equal to a fold (`Run`)
  over the stripped lines, and the fold is proved equal to an independent
  message-at-a-time reading (`BySegments`).
- `main.py` also derives the media test, the letter count and the word count
  for each message.

Files:

- `wrappers.dfy` holds Option and Result.
- `pystr.dfy` holds the Python `str` operations the code relies on, over ASCII:
  - `strip`, `split(sep)`, `sep.join`, `int`;
  - independent reference definitions (first occurrence, left-to-right
    replacement, character count);
  - the lemmas connecting the two.
- `util.dfy` holds the helpers of `util.py`. They are identical to the copies
  at `main.py:8-47` and `main.py:110-120`.
- `chat_parser.dfy` holds `load_data` and its properties.
- `stats.dfy` holds the per-message quantities.

Python exceptions become `Err` values:
- a header that does not split into exactly two fields gives `UnpackError`;
- a too-short time gives `IndexError`;
- a non-numeric hour gives `NotAnInteger`;
- a `getDataPoint` failure inside the loop ends `LoadData` with that error.

## Model

| member | source | states |
|---|---|---|
| PyStr.TrimStart | main.py:60 | the result is a suffix of the input, everything dropped is whitespace, and the result does not start with whitespace |
| PyStr.TrimEnd | main.py:60 | the result is a prefix of the input, everything dropped is whitespace, and the result does not end with whitespace |
| PyStr.Strip | main.py:60 | the result is no longer than the input and has no whitespace at either end; a string with no whitespace at its ends is left alone |
| PyStr.StripIsSlice | main.py:60 | the result is a contiguous slice of the input, and everything cut off before and after it is whitespace |
| PyStr.Find | util.py:28 | the first occurrence of the separator: it occurs there, nowhere before, and None exactly when the separator is absent |
| PyStr.Split | util.py:28 | `s.split(sep)` always gives at least one piece |
| PyStr.JoinSplit | util.py:28-34 | joining the pieces of a split with the same separator gives the original string back |
| PyStr.SplitSingle | util.py:32 | a split gives a single piece exactly when the separator is absent, and that piece is the whole string |
| PyStr.SplitHead | util.py:37-38 | when a split gives two or more pieces, the first is the text before the first occurrence, which holds no separator, and the rest is the split of what follows it |
| PyStr.SplitPair | util.py:32 | a split into exactly two pieces means the string is piece, separator, piece, and neither piece holds the separator |
| PyStr.SplitAtLeastThree | util.py:32 | two non-overlapping occurrences give at least three pieces |
| PyStr.JoinSplitIsReplace | util.py:34 | `by.join(s.split(pat))` is `s.replace(pat, by)`, a left-to-right replacement of every occurrence |
| PyStr.SplitCharCount | main.py:96 | splitting on one character gives one more piece than the character's number of occurrences |
| PyStr.SplitJoinChar | main.py:96 | pieces free of a character, joined with it, split back into the same pieces |
| PyStr.ParseInt | util.py:50 | `int()` succeeds exactly when the stripped text is an optional sign followed by one or more digits; its value is the decimal value of those digits, negated after a '-'; it fails on a string with no digit |
| PyStr.ParseIntOfSigned | util.py:50 | a '+' or '-' directly followed by digits is read as that number with that sign |
| PyStr.ParseIntOfBlankPadded | util.py:54 | a blank before the digits is dropped: `" " + d` reads as the number `d` |
| Util.StartsWithDateTime | util.py:3-8 | true iff the line has at least 8 characters, '/' at positions 2 and 5, digits elsewhere, day at most 31 and month at most 12; nothing after the eighth character is looked at |
| Util.WordEnd | util.py:12-14 | the end of the longest run of word characters from a position |
| Util.SpaceEnd | util.py:13-14 | the end of the longest run of whitespace from a position |
| Util.OneWordNameScanned | util.py:12 | the scanner finds a one-word name followed by ':' exactly when the first alternative matches |
| Util.TwoWordNameScanned | util.py:13 | the scanner finds two words and a ':' exactly when the second alternative matches |
| Util.ThreeWordNameScanned | util.py:14 | the scanner finds three words and a ':' exactly when the third alternative matches |
| Util.StartsWithAuthor | util.py:10-23 | a text with an author prefix starts with a word character or '+', and one that does not start with '+' holds a ':' |
| Util.StartsWithAuthorMatchesPattern | util.py:10-23 | startsWithAuthor is true exactly when one of the six alternatives matches at the start of the text |
| Util.EuropeNumberNeedsNoColon | util.py:17 | a body starting with `+DD DDDD DDDDDDD` counts as having an author whatever follows, colon or not |
| Util.FirstFieldIsBeforeFirst | util.py:30 | `s.split(sep)[0]` is the text before the first separator, or all of `s` when there is none, and never holds the separator |
| Util.OtherFieldsReplaceLater | util.py:34 | `' '.join(s.split(sep)[1:])` is the text after the first separator with every later separator replaced by one space, or "" when there is none |
| Util.HeaderAndBody | util.py:28-34 | the header is the text before the first " - " (the whole line if none); the body is the rest with every later " - " turned into a space ("" if none) |
| Util.GetDataPointFields | util.py:25-42 | a header without ", " fails; on success the header is `date, time`; the author is present iff the body starts with an author; with an author it is the text before the first ": " (the whole body, leaving "" as message, if there is none) and the message has every later ": " replaced by a space; without one the message is the body |
| Util.GetDataPointTooManyFields | util.py:32 | a header with two separate ", " fails to unpack |
| Util.SplitStampedLine | util.py:28-32 | `date, time - body` splits into header `date, time`, body `body`, and the header into `[date, time]` |
| Util.OneWordAuthorBody | util.py:12 | a one-word author gives a body `author: text` that starts with an author, an author with no ": ", and a body with no " - " when `" " + text` has none |
| Util.MessageBodySplit | util.py:37-39 | a body `author: text` where neither part holds ": " splits into `[author, text]`, even when the author ends in ':' |
| Util.GetDataPointOfMessageLine | util.py:25-42 | round trip: `date, time - author: text` is read back as exactly those four fields when the body starts with any of the six author prefixes and no field holds a separator |
| Util.GetDataPointOfNotice | util.py:40-42 | a notice `date, time - text` with no author prefix is read back with no author and the text unchanged |
| Util.GetDataPointExample | util.py:26-39 | the line in the code's comments gives `('18/06/17', '22:47', 'Loki', 'Why do you have 2 numbers, Banner?')` |
| Util.ChangeFormat | util.py:44-54 | IndexError exactly when the time is shorter than 2 characters; otherwise it fails exactly when the padded two-character hour is not "12" and `int()` rejects it, and that failure is NotAnInteger of that hour; success whenever the hour is all digits |
| Util.Padded | util.py:45-46 | only a leading '0' is ever added, and exactly when the second character is ':' (a one-digit hour) |
| Util.PaddedHour | util.py:45-46 | padding a one-digit hour with '0' keeps its value and leaves a two-digit prefix |
| Util.ChangeFormatOfDigits | util.py:47-54 | for a numeric hour: 12 gives 12 with "pm" and 0 otherwise; any other hour is its value, plus 12 with "pm" |
| Util.ChangeFormatOfHour | main.py:110-120 | a time starting `h:` with a one- or two-digit hour is hour h (12 counted as 0) plus 12 exactly when it ends in "pm" |
| Util.ChangeFormatPm | util.py:47-50 | `h:MMpm` is h + 12, except 12pm is 12 |
| Util.ChangeFormatAm | util.py:51-54 | `h:MMam` is h, except 12am is 0 |
| Util.ChangeFormatTwentyFourHour | util.py:51-54 | `HH:MM` without suffix is its hour, except 12 becomes 0 |
| Util.ChangeFormatOfParsedHour | util.py:47-54 | any hour prefix other than "12" that `int()` accepts, signed or blank-padded ones included, is taken at its value, plus 12 when the time ends in "pm" |
| Util.ChangeFormatBlankHourExample | util.py:51-54 | " 5:00" is hour 5 |
| Util.ChangeFormatSignedHourExample | util.py:51-54 | "-5:00" is hour -5 rather than an error |
| Util.ChangeFormatPmExample | util.py:44-50 | "9:05pm" is 21 |
| Util.ChangeFormatMidnightExample | util.py:51-53 | "12:00am" is 0 |
| Util.ChangeFormatNoonExample | util.py:47-49 | "12:30pm" is 12 |
| Util.ChangeFormatEveningExample | util.py:51-54 | "23:59" is 23 |
| Util.ChangeFormatBareNoonExample | util.py:51-53 | "12:30" is 0 |
| ChatParser.Step | main.py:61-68 | one line either leaves the saved records alone or saves exactly the buffered message with the fields held for it; the buffer is never empty afterwards |
| ChatParser.StepCases | main.py:61-68 | a continuation line is appended verbatim and nothing else changes; a boundary line getDataPoint rejects fails; any other boundary line saves the buffer if non-empty, then the buffer is `[message]` and the held fields are the new ones |
| ChatParser.Run | main.py:59-68 | the loop only ever appends to the saved records, and leaves a non-empty buffer after any line |
| ChatParser.Stripped | main.py:60 | every line is stripped, in place |
| ChatParser.Parse | main.py:54-69 | an empty file gives no record, and a non-empty one fewer records than lines, because the last message is still buffered when the loop returns |
| ChatParser.RecordsPerLine | main.py:59-69 | from the start state the loop saves fewer records than lines, and saving the buffer afterwards adds exactly one record |
| ChatParser.LoadData | main.py:54-69 | no file gives None; otherwise the loop returns exactly `Parse` of the lines (the fold of `Step` over the stripped lines, with no final save) |
| ChatParser.RunAppend | main.py:59-68 | running over `a + b` is running over `a`, then over `b` from the state `a` left |
| ChatParser.RunContinuations | main.py:67-68 | lines that start no message are only appended to the buffer, verbatim and in order |
| ChatParser.StrippedAppend | main.py:60 | stripping a concatenation strips both parts |
| ChatParser.Boundaries | main.py:61 | the number of boundary lines is at most the number of lines |
| ChatParser.BoundariesAppend | main.py:61 | the boundary lines of a concatenation are counted part by part |
| ChatParser.FirstBoundary | main.py:61 | the first boundary line's index: no earlier line is a boundary, and it is one |
| ChatParser.RunRecordCount | main.py:59-69 | every boundary line adds one record, except a first line that is a boundary met with an empty buffer |
| ChatParser.ParseRecordCount | main.py:59-69 | load_data returns no record without a boundary; with n of them, n - 1 records plus one if lines precede the first boundary |
| ChatParser.NoBoundaryNoRecord | main.py:61-68 | with no boundary line, no line is a boundary and the first boundary is past the end |
| ChatParser.RunFailsIff | main.py:65 | the loop fails exactly when one of its lines is a boundary getDataPoint rejects |
| ChatParser.ParseFailsIff | main.py:59-69 | load_data fails exactly when some stripped line is a boundary getDataPoint rejects |
| ChatParser.NoFinalFlush | main.py:69 | continuation lines after the last boundary change nothing load_data returns |
| ChatParser.LeadingLinesRecord | main.py:58-63 | lines before the first boundary come out, joined by spaces, as the first record, with no date, time or author |
| ChatParser.RunToBoundary | main.py:59-68 | running up to the first boundary appends the lines before it to the buffer and then takes one step on the boundary line |
| ChatParser.RunIsBySegments | main.py:59-68 | the line-by-line loop equals the message-by-message reading: records in file order, each the message of its boundary line followed by its continuation lines, space-joined |
| ChatParser.ParseFlushed | main.py:59-69 | with a final save, an empty file gives no record, any other file at least one and at most one per line |
| ChatParser.ParseFlushedRecordCount | main.py:59-69 | with a final save, each boundary line gives exactly one record, plus one for lines before the first boundary |
| ChatParser.ParseFlushedExtendsParse | main.py:69 | the final save fails exactly when load_data does, keeps its records as a prefix and adds one record for a non-empty file |
| ChatParser.ThreeLines | main.py:59-69 | message line, continuation line, message line: load_data returns only the first message with the continuation joined on, while a final save also keeps the second |
| ChatParser.RunThree | main.py:59-68 | the loop on those three stripped lines ends with the first record saved and the second message still buffered |
| ChatParser.MessageLine | main.py:60-66 | a message line with no blank ends and any author prefix is left alone by strip, is a boundary, and is read back as its four fields |
| ChatParser.OneWordMessageLine | main.py:60-66 | the same for a one-word author and a text with neither ':' nor '-' |
| ChatParser.ExampleMessageLine | util.py:26-39 | the line in getDataPoint's comments, and the Banner media line, are boundaries that strip leaves alone, read back as their four fields |
| ChatParser.ContinuationLine | main.py:67-68 | "This is a continuation" is left alone by strip and is no boundary |
| ChatParser.ThreeLineChat | main.py:59-69 | the Loki / continuation / Banner chat gives the single record of Loki's joined message; only a final save would add Banner's |
| Stats.WordCount | main.py:96 | every message counts at least one word |
| Stats.WordCountIsSpacesPlusOne | main.py:96 | the word count is the number of spaces plus one, so "" counts 1 and two spaces in a row count an empty word |
| Stats.WordCountOfWords | main.py:96 | space-free words joined by single spaces count one each |
| Stats.CountOfJoin | main.py:63 | joining lines with a one-character separator adds one occurrence of it per gap |
| Stats.SumWordCountsIsSpacesPlusLines | main.py:96 | the word counts of some lines add up to their spaces plus the number of lines |
| Stats.WordCountOfMessage | main.py:96 | the word count of a message joined from several lines is the sum of the lines' word counts |
| Stats.LetterCountOfMessage | main.py:95 | the letter count of a message joined from several lines is their lengths plus one per gap |
| Stats.MediaNeedsOneLine | main.py:82 | a media message followed by any continuation line no longer equals the sentinel |
| Stats.MediaLine | main.py:82 | an attachment line `date, time - author: <Media omitted>` with any author prefix gives a media message from that author |
| Stats.PhoneMediaLine | util.py:15 | an attachment sent from an Indian number `+91 98765 43210` is a media message with that number as its author |

## Left out

- The Streamlit interface is left out because it is presentation and I/O. This covers the form, the file uploader, `@st.cache`, the subheaders and the bar charts (main.py:49-53 and 70-124).
- The pandas aggregation is left out because it is foreign library behaviour, including how ties are ordered. This covers:
  - `DataFrame` construction, `value_counts`, `head(10)`, `groupby().sum()`, `sort_values`;
  - the row filters and the index-based `drop`;
  - `describe`, whose results are never used.

  The media test, letter count and word count that feed it are modelled.
- UTF-8 decoding of the uploaded bytes (main.py:60) is left out. Lines arrive already decoded, so a decoding error is not modelled. How the uploaded file is cut into lines is not modelled either; `LoadData` takes the lines as a sequence.
- Unicode is left out; everything is modelled over ASCII:
  - the character classes `\w`, `\d` and `\s` are ASCII word characters, ASCII digits, and Python's ASCII whitespace;
  - `strip` trims ASCII whitespace only;
  - `int()` takes ASCII digits with an optional sign and surrounding whitespace, but not the underscores Python also allows.
- The general regular-expression engine is left out. The two fixed patterns are written as character predicates. For `startsWithAuthor` the model uses a greedy scanner, proved equivalent to the regex alternatives.
- The `if __name__ == '__main__': pass` stub (util.py:56-57) does nothing and is left out.
- The copies of the helpers at main.py:8-47 and main.py:110-120 are modelled once, in `util.dfy`.
- `if data:` at main.py:71 is not modelled, because it only decides whether anything is shown.

## Behaviours of the code worth knowing

- main.py:69 returns `parsedData` right after the loop without saving the buffered message, so the last message of every file is lost (`ChatParser.NoFinalFlush`, `ChatParser.Parse`, and the finding below).
- main.py:58-63 keeps the lines before the first boundary: they come out as a record with no date, time or author (`ChatParser.LeadingLinesRecord`).
- util.py:4 rejects day 32 and month 13, so `32/13/99` starts no message (`Util.StartsWithDateTime`).
- util.py:54 hands the two-character hour to `int()`, which accepts a sign and blanks, so "-5:00" gives hour -5 and " 5:00" hour 5 (`Util.ChangeFormatSignedHourExample`, `Util.ChangeFormatBlankHourExample`).
- main.py:96 splits on a single space, so `''` counts one word and two spaces in a row count an empty word (`Stats.WordCountIsSpacesPlusOne`).
- main.py:59-69 turns the Loki / continuation / Banner chat into one record, not two (`ChatParser.ThreeLineChat`).

## Findings

| source | as written | input that shows it | evidently intended | confidence | as-written member | corrected member |
|---|---|---|---|---|---|---|
| main.py:59-69 | `parsedData` is returned right after the loop, so the message still in `messageBuffer` is never appended | the three lines `18/06/17, 22:47 - Loki: Why do you have 2 numbers, Banner?`, `This is a continuation`, `18/06/17, 22:48 - Banner: <Media omitted>` give one record, and Banner's message is lost | save the buffer once more after the loop, so each boundary line gives one record | not executed | ChatParser.ThreeLineChat | ChatParser.ParseFlushed, ChatParser.ParseFlushedRecordCount |
