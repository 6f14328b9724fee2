# WhatsApp chat analyzer: a verified model of the parser and the statistics

The analyzer takes a WhatsApp chat export (iPhone format, one stamp
`[d/m/yy, h:mm:ss]` in front of every message) and turns it into a table of
records: one per stamp, with the sender, the message, the timestamp and the
fields derived from it (date, year, month number and name, day, weekday name,
hour, minute, an hour-bucket label such as `"9-10"` and a running id).
`preprocess` in `preprocessor.py` builds that table. The functions in
`helper.py` then compute the dashboard's statistics from it:

- message, word and media counts;
- the busiest users;
- the most common words and emoji;
- the monthly and daily timelines;
- the weekday and month activity maps;
- the weekday-by-hour heatmap.

Each of these narrows the table to one user unless "Overall" is selected.

The project models both files as pure functions over immutable datatypes:

- `wrappers.dfy`: `Option` and `Result`.
- `text.dfy` (module `Text`): the character classes of Python's `\s` and
  `str.split()`, decimal numerals (`int(s)`, `str(n)`), `str.split()` as
  `Words`, ASCII `str.lower()`, substring containment (`w in text`), and code-point
  order on strings.
- `calendar.dfy` (module `Calendar`): the proleptic Gregorian calendar as
  `datetime` uses it. This covers month lengths, `toordinal()`, `weekday()`, the
  English month and day names, and the carrying of a second of 60 or 61 into the
  next minute.
- `stamps.dfy` (module `Stamps`): the stamp regular expression as a sequence of
  atoms. `Match` is the engine's match at one position. `Tokenize` is the
  left-to-right scan that `re.split` and `re.findall` share.
- `preprocessor.dfy` (module `Preprocessor`): bracket stripping, `%d/%m/%y,
  %H:%M:%S` decoding, the lazy sender split, hour buckets, records and
  `Preprocess`.
- `tables.dfy` (module `Tables`): the counting machinery behind the statistics.
  - `Tally` is `collections.Counter`.
  - `AllCounts` and `MostCommon` are `Counter.most_common`, which is stable on ties.
  - `GroupCount` is `groupby(...).count()`, sorted by key.
  - `RowSum` and `Occurrences` support the sums.
- `helper.dfy` (module `Helper`): the user filter and every statistic.

A failing stamp is `Failure(BadTimestamp(index, text))`. This is the `ValueError`
that `pd.to_datetime` raises, and it aborts the whole call. The stop-word text,
the emoji set and the URL counter are parameters.

Three behaviours of the parser are worth stating plainly:

- The parser does not treat a text without stamps as an error. Such a text, the
  empty text included, parses to an empty table (`PreprocessWithoutStamps`).
- A stamp that does not decode fails the whole parse. It is not coerced to a
  missing value.
- Only the bracketed iPhone grammar is handled.

One behaviour of pandas is modelled as the code gets it. `%S` accepts the
seconds 60 and 61, and the conversion of the parsed fields into a timestamp is
linear arithmetic. So `[1/1/23, 10:59:60]` is 11:00:00 on that day. `Normalize`
carries such a second into the next minute, hour or day, and its contract states
that the instant is unchanged.

## Model

| member | source | states |
|---|---|---|
| Text.WordsAreSpaceFree | helper.py:45 | every token of `str.split()` is non-empty and holds no whitespace |
| Text.WordsOfJoinWords | helper.py:45 | splitting words joined by single spaces gives the words back, so `split` loses no token and invents none |
| Text.WordsOfBlank | helper.py:45 | text made only of whitespace, such as a message's closing newline, has no tokens |
| Text.WordsOfAppend | helper.py:45 | the tokens of two texts joined at a whitespace boundary are the tokens of the first followed by those of the second |
| Text.WordsOfSpaced | helper.py:45 | words laid out with any whitespace gaps between them, non-empty inside and optional at both ends, split back into exactly those words |
| Text.WordsCountsWordStarts | helper.py:45 | the number of tokens equals the number of positions where a non-space follows a space or the start of the text |
| Text.Lower | helper.py:88 | lower-casing keeps the length, leaves no capital A-Z, maps each capital to its lower-case letter and leaves every other character alone |
| Text.ContainsIffOccurs | helper.py:88 | `w in stop_words` on strings holds exactly when `w` occurs at some position of the stop-word text |
| Text.ParseNatToString | helper.py:106 | the decimal text of a number reads back as that number |
| Text.StrLessIrreflexive | helper.py:136 | no string sorts before itself |
| Text.StrLessTotal | helper.py:136 | of two different strings one sorts before the other |
| Text.StrLessTransitive | helper.py:136 | string order is transitive, so sorting labels is well defined |
| Calendar.NextDay | preprocessor.py:17 | the day after a valid date is a valid date |
| Calendar.OrdinalNextDay | preprocessor.py:43 | the day number of the next day is one more, across month and year ends and leap days |
| Calendar.DaysBeforeNextYear | preprocessor.py:43 | consecutive years are 365 or 366 days apart, as the leap rule says |
| Calendar.WeekdayNextDay | preprocessor.py:43 | the weekday advances by one, cyclically, from each day to the next |
| Calendar.WeekdayOfUnixEpoch | preprocessor.py:43 | 1 January 1970 is a Thursday, which anchors the weekday cycle |
| Calendar.DayNameNextDay | preprocessor.py:43 | `day_name()` is one of the seven English names, each day's name is followed by the next in the order Monday to Sunday and round again, and 1 January 1970 is a Thursday |
| Calendar.AddMinuteAddsSixtySeconds | preprocessor.py:17 | moving to the next minute, and over an hour or day end, adds exactly sixty seconds to the instant |
| Calendar.Normalize | preprocessor.py:17 | a field record whose second is 60 or 61 becomes a valid timestamp denoting the same instant; an in-range record is unchanged |
| Stamps.MatchAtoms | preprocessor.py:6 | a match splits a prefix of the text into pieces, each matching its atom of the pattern |
| Stamps.MatchAtomsComplete | preprocessor.py:6 | when the pattern's digit runs are followed by non-digits, any text of matching pieces is found by the matcher, whatever follows it |
| Stamps.MatchIff | preprocessor.py:6 | the stamp pattern matches at the start of a text exactly when some pieces fitting the pattern form a prefix of it |
| Stamps.MatchedStampShape | preprocessor.py:6 | a matched stamp starts with `[` and holds no other `[` |
| Stamps.MatchNeedsBracket | preprocessor.py:6 | the pattern can only match where the text has a `[` |
| Stamps.TokenizeRoundTrip | preprocessor.py:8-9 | the text before the first stamp, followed by every stamp and the span after it, spells the input exactly |
| Stamps.TokenizeStampsFit | preprocessor.py:9 | every stamp found fits the pattern |
| Stamps.HeadHasNoStamp | preprocessor.py:8 | the pattern matches at no position of the dropped text before the first stamp |
| Stamps.DropHead | preprocessor.py:8 | removing the text before the first stamp leaves the same stamps and spans |
| Stamps.TokenizeFindsEveryStamp | preprocessor.py:8-9 | there is one stamp found per position of the text where the pattern matches, so matches never overlap and none is skipped |
| Preprocessor.StripLeft | preprocessor.py:12 | left stripping removes the longest prefix made of characters of the set: every removed character is in the set and the result is empty or starts outside it |
| Preprocessor.StripRight | preprocessor.py:12 | right stripping removes the longest suffix made of characters of the set: every removed character is in the set and the result is empty or ends outside it |
| Preprocessor.Strip | preprocessor.py:12 | `strip(chars)` keeps a middle slice of the text: everything before and after it is in the set, and the slice is empty or starts and ends outside it |
| Preprocessor.StripIsBothStrips | preprocessor.py:12 | `strip(chars)` equals `lstrip(chars)` followed by `rstrip(chars)` |
| Preprocessor.StampAroundText | preprocessor.py:12 | a matched stamp is `[`, its date text, and `]` |
| Preprocessor.StripBracketed | preprocessor.py:12 | `strip("[]")` on a bracketed text that starts and ends with a digit removes exactly the two brackets |
| Preprocessor.StripStamp | preprocessor.py:12 | the date string of a stamp is the matched text without its first and last character |
| Preprocessor.ExpandYear | preprocessor.py:17 | `%y` maps a two-digit year to the one year in 1969-2068 with those last two digits |
| Preprocessor.StampFields | preprocessor.py:17 | an accepted stamp gives a valid date, an hour 0-23, a minute 0-59 and a second 0-61 |
| Preprocessor.DecodeStamp | preprocessor.py:17 | a stamp decodes exactly when its fields are in range: a two-digit year, a month 1-12, a day that exists in that month, an hour up to 23, a minute up to 59, a second up to 61. The result is a valid timestamp denoting the written instant, and it equals the written fields when the second is at most 59 |
| Preprocessor.FindSep | preprocessor.py:25 | the first `:` plus whitespace at or after a position, or none at all |
| Preprocessor.SplitSender | preprocessor.py:25-31 | with a separator, the sender is the non-empty text before the first `:` plus whitespace at index 1 or later, and sender, `:`, the whitespace character and message spell the span; without one, the sender is `group_notification` and the message is the whole span |
| Preprocessor.SplitSenderOfJoin | preprocessor.py:25-31 | a span built as sender, `:`, whitespace and body splits back into that sender and body when the sender has no earlier separator |
| Preprocessor.BucketStartOfHourBucket | preprocessor.py:49-56 | every hour's label starts with that hour's digits and a dash, for 0 (`00-1`) and 23 (`23-00`) as well |
| Preprocessor.HourBucketInjective | preprocessor.py:49-56 | different hours get different labels |
| Preprocessor.MakeRecord | preprocessor.py:22-45 | a record's derived columns are the components of its timestamp: date, year, month number and English name, day, weekday name, hour, minute and hour bucket; its sender and message are the split of its span |
| Preprocessor.Records | preprocessor.py:38-46 | one record per stamp, in order, with ids 0 to N-1 and well-derived columns |
| Preprocessor.FirstNone | preprocessor.py:17 | the first stamp that fails to decode, with every earlier one decoding; none when all decode |
| Preprocessor.Preprocess | preprocessor.py:4-60 | the parse succeeds exactly when every stamp decodes. On success there is one record per stamp with id = position, the decoded timestamp, well-derived columns and the sender split of its span. On failure it names the first bad stamp and its date text without brackets |
| Preprocessor.PreprocessRowCount | preprocessor.py:6-9 | the number of records equals the number of positions where the stamp pattern matches |
| Preprocessor.PreprocessWithoutStamps | preprocessor.py:8-9 | a text without any stamp, the empty text included, gives an empty table rather than an error |
| Preprocessor.PreprocessIgnoresHead | preprocessor.py:8 | whatever precedes the first stamp has no effect on the result |
| Tables.Tally | helper.py:90 | `Counter`: each value once, in order of first occurrence, with its exact number of occurrences; the counts add up to the length |
| Tables.SortByCount | helper.py:90 | a permutation of the entries by non-increasing count that keeps the original order among equal counts |
| Tables.TotalOfPermutation | helper.py:90 | reordering entries does not change the sum of their counts |
| Tables.AllCounts | helper.py:98 | `most_common()` over everything: distinct values, non-increasing counts, each count exact, every value present, ties in order of first occurrence, the counts add up to the length |
| Tables.TopCut | helper.py:90 | a value cut from the front of the sorted counts is only cut when all n places are taken by values at least as frequent |
| Tables.MostCommon | helper.py:90 | `most_common(n)`: at most n distinct values with exact non-increasing counts and stable ties, and no value left out is more frequent than the last one kept; a value tied with the last one kept is only left out when its first occurrence comes later |
| Tables.SortByKey | helper.py:105 | a permutation of the entries in strictly ascending key order |
| Tables.GroupCount | helper.py:115 | `groupby(key).count()`: every key present once, ascending, with its exact number of rows; the counts add up to the row count |
| Tables.OccurrencesCover | helper.py:136 | counting over a list of distinct labels that includes every value counts every element once |
| Tables.RowSumOfOccurrences | helper.py:136 | a row of per-label counts adds up to the occurrences of those labels |
| Tables.RowSumOfCounts | helper.py:105 | a column holding the counts of a table adds up to the table's total |
| Helper.RowsOf | helper.py:41-42 | the filter keeps exactly the rows of the given user |
| Helper.Select | helper.py:41-42 | "Overall" keeps the table as it is; any other choice keeps exactly the rows of that user, and never more rows than there are |
| Helper.RowsOfCount | helper.py:41-44 | a user keeps as many rows as the user column counts for them |
| Helper.RowsOfAppend | helper.py:41-42 | the filter keeps the original order: filtering two stretches and joining is filtering the whole |
| Helper.RowsOfAllMatching | helper.py:41-42 | rows that all belong to the user are kept as they are |
| Helper.RowsOfIdempotent | helper.py:41-42 | filtering twice equals filtering once |
| Helper.SelectIdempotent | helper.py:41-42 | the "Overall"-or-user selection applied twice equals applying it once |
| Helper.MediaCount | helper.py:46 | the media count is the number of messages equal to `<Media omitted>\n`, so at most the row count |
| Helper.WordCountAppend | helper.py:45 | the word count of two stretches of rows is the sum of their word counts |
| Helper.LinkCountAppend | helper.py:47 | the link count of two stretches of rows is the sum of their link counts |
| Helper.WordCountIsWordStarts | helper.py:45 | the total number of `split()` tokens equals the total number of word starts over all messages |
| Helper.FetchStats | helper.py:40-49 | the message count is all rows for "Overall" and otherwise the user's count in the user column; words are the tokens of all selected messages, notifications included; media is the count of placeholder messages and at most the message count |
| Helper.MostBusyUsers | helper.py:52-53 | at most five distinct users with non-increasing exact row counts of at least one; any user left out has at most the fifth count |
| Helper.BusyCountIsMessageCount | helper.py:44-53 | a busy user's count is the message count `fetch_stats` reports for that user |
| Helper.KeptWords | helper.py:88 | a word is kept with all its occurrences unless it occurs in the stop-word text, in which case none is kept |
| Helper.ChatWords | helper.py:86-88 | each word's count in the stream is its number of uses as a lower-cased token of non-notification, non-media messages, or zero when the stop-word text contains it |
| Helper.MostCommonWords | helper.py:79-90 | at most twenty distinct words, none occurring in the stop-word text, with exact non-increasing counts of at least one, ties in order of first use; a word left out is used at most as often as the twentieth, and when it is used exactly as often its first use comes after the twentieth's |
| Helper.EmojiOf | helper.py:97 | the emoji characters of a message with their multiplicities, others dropped |
| Helper.EmojiStream | helper.py:97 | each emoji's count in the stream is its number of uses over all messages |
| Helper.EmojiEntries | helper.py:97-98 | every counted character is an emoji used at least once with its exact count, and every used emoji is counted |
| Helper.EmojiHelper | helper.py:93-98 | each used emoji once with its exact use count, most used first, ties in order of first use, the counts adding up to the number of emoji characters |
| Helper.MonthKeyOrder | helper.py:105 | the (year, month number, month) order is total and transitive on the keys present |
| Helper.MonthRowsFacts | helper.py:105-106 | the timeline rows inherit ascending keys, exact counts and coverage from the group count |
| Helper.MonthlyTimeline | helper.py:101-108 | one row per month present, in chronological order, each with its exact message count (at least one) and the label month name, `-`, year; the counts add up to the selected row count |
| Helper.DailyTimeline | helper.py:111-115 | one entry per date present, ascending, each with its exact message count; the counts add up to the selected row count |
| Helper.WeekActivityMap | helper.py:118-122 | each weekday name present once with its exact count, most first; the counts add up to the selected row count |
| Helper.MonthActivityMap | helper.py:125-129 | each month name present once with its exact count, most first; the counts add up to the selected row count |
| Helper.PairCountIsOccurrence | helper.py:136 | a heatmap cell counts the occurrences of its hour bucket among the rows of its weekday |
| Helper.PeriodsOnCount | helper.py:136 | a weekday has as many bucket entries as rows, and each of them is in the period column |
| Helper.SortedLabels | helper.py:136 | sorted group labels are strictly ascending and so distinct |
| Helper.LabelsCover | helper.py:136 | the labels of a group count are exactly the values of its column |
| Helper.SortedLabelsOf | helper.py:136 | a pivot axis holds exactly the values present, once each, in ascending order |
| Helper.HeatmapRowSum | helper.py:136 | a heatmap row adds up to the number of rows of its weekday |
| Helper.GridSumOfHeatmap | helper.py:136 | the cells of a heatmap over covering axes add up to the row count |
| Helper.ColumnMembers | helper.py:136 | a value is in a column exactly when some row has it |
| Helper.ActivityHeatmap | helper.py:132-136 | sorted weekday and bucket axes holding exactly the values present; each cell counts the selected rows of that weekday and bucket, zero where there are none; all cells add up to the selected row count, which is `fetch_stats`'s message count |

Some members only compute, and the lemmas in the table carry their properties:

- `Stamps.Match`: `Stamps.MatchIff`, `Stamps.MatchedStampShape`, `Stamps.MatchNeedsBracket`.
- `Stamps.Tokenize`: `Stamps.TokenizeRoundTrip`, `Stamps.TokenizeStampsFit`, `Stamps.TokenizeFindsEveryStamp`, `Stamps.DropHead`.
- `Preprocessor.HourBucket`: `Preprocessor.BucketStartOfHourBucket`, `Preprocessor.HourBucketInjective`.
- `Text.Words`: `Text.WordsAreSpaceFree`, `Text.WordsOfJoinWords`, `Text.WordsOfBlank`, `Text.WordsOfAppend`, `Text.WordsOfSpaced`, `Text.WordsCountsWordStarts`.
- `Calendar.Weekday`: `Calendar.WeekdayNextDay`, `Calendar.WeekdayOfUnixEpoch`.
- `Calendar.DayName`: `Calendar.DayNameNextDay`.
- `Helper.WordCount`: `Helper.WordCountIsWordStarts`, `Helper.WordCountAppend`, `Helper.FetchStats`.
- `Helper.LinkCount`: `Helper.LinkCountAppend`.

## Left out

- `main.py`: the Streamlit interface, file upload, byte decoding and chart drawing are presentation and I/O.
- `sentiment_analysis` (helper.py:15-37): it calls the NLTK VADER lexicon and yields floating-point scores.
- `create_wordcloud` (helper.py:60-76): image rendering by the WordCloud library. Its stop-word filter is the one `KeptWords` models.
- The percentage table of `most_busy_users` (helper.py:54-56): floating-point division and rounding.
- Reading `stop_hinglish.txt` (helper.py:80-81): file I/O. The stripped file text is the `stop` parameter.
- `emoji.EMOJI_DATA`: a foreign table. It is the `emoji` parameter, a set of single characters. Multi-character emoji sequences are not modelled.
- `URLExtract.find_urls` (helper.py:47): a foreign library. `urls` gives the number of links per message, and `LinkCount` only adds those numbers up.
- `Text.IsDigit`: `\d` is the ASCII digits. Python's `\d` also matches other Unicode decimal digits, which `int()` would then read.
- `Text.Lower`: lower-cases ASCII letters only. Python's `str.lower()` also maps non-ASCII letters.
- `Text.StrLess`: compares code points. Python compares the same way, but Dafny's `char` excludes surrogates.
- `Helper.WeekActivityMap`, `Helper.MonthActivityMap` and `Helper.MostBusyUsers`: the model keeps ties in first-occurrence order, but the contracts do not promise it, because `value_counts` does not fix the order of equal counts.
- `Helper.MostBusyUsers`: with ties at the fifth place, which users `head()` keeps is left open. The contract only bounds the count of any user left out.
- pandas data frames: the model has records and sequences of entries in place of data frames. Column names, dtypes, the index and the shape of empty results are not modelled.
- `Helper.ActivityHeatmap`: the cells are natural numbers. pandas fills missing cells with the float `0.0` and produces an empty frame for an empty selection.
- Several export grammars: the code handles only the bracketed `[d/m/yy, h:mm:ss]` stamp, and that is what the model has.
- Whitespace in the `to_datetime` format: the stamp pattern allows exactly one whitespace character after the comma, so the format's `\s+` never sees more than one.
