/**
  The statistics the dashboard draws from the parsed chat: message, word and media
  counts, the busiest users, the commonest words and emoji, the monthly and daily
  timelines, the weekday and month activity maps and the weekday-by-hour heatmap.
  Each of them first narrows the rows to one user unless "Overall" is selected.
 */
module Helper {
  import opened Text
  import opened Calendar
  import opened Preprocessor
  import opened Tables

  /** The selection that stands for the whole chat. */
  const Overall: string := "Overall"

  /** The message WhatsApp exports in place of an attachment. */
  const MediaOmitted: string := "<Media omitted>\n"

  // ---------------------------------------------------------------------------
  // Columns and the user filter.
  // ---------------------------------------------------------------------------

  function Users(rows: seq<Record>): seq<string> {
    seq(|rows|, i requires 0 <= i < |rows| => rows[i].user)
  }

  function Messages(rows: seq<Record>): seq<string> {
    seq(|rows|, i requires 0 <= i < |rows| => rows[i].message)
  }

  function DayNameColumn(rows: seq<Record>): seq<string> {
    seq(|rows|, i requires 0 <= i < |rows| => rows[i].dayName)
  }

  function MonthColumn(rows: seq<Record>): seq<string> {
    seq(|rows|, i requires 0 <= i < |rows| => rows[i].month)
  }

  function PeriodColumn(rows: seq<Record>): seq<string> {
    seq(|rows|, i requires 0 <= i < |rows| => rows[i].period)
  }

  function DateColumn(rows: seq<Record>): seq<Date> {
    seq(|rows|, i requires 0 <= i < |rows| => rows[i].onlyDate)
  }

  /** `df[df['user'] == user]`: the rows `user` sent, in their original order. */
  function RowsOf(rows: seq<Record>, user: string): (r: seq<Record>)
    ensures forall i :: 0 <= i < |r| ==> r[i].user == user
    ensures forall x :: x in r <==> x in rows && x.user == user
    ensures |r| <= |rows|
  {
    if |rows| == 0 then []
    else (if rows[0].user == user then [rows[0]] else []) + RowsOf(rows[1..], user)
  }

  /** The rows a statistic looks at: all of them for "Overall", otherwise the
      selected user's. */
  function Select(selected: string, rows: seq<Record>): (r: seq<Record>)
    ensures selected == Overall ==> r == rows
    ensures selected != Overall ==> forall x :: x in r <==> x in rows && x.user == selected
    ensures |r| <= |rows|
  {
    if selected == Overall then rows else RowsOf(rows, selected)
  }

  lemma UsersCons(rows: seq<Record>)
    requires |rows| > 0
    ensures Users(rows) == [rows[0].user] + Users(rows[1..])
  {
  }

  /** A user keeps as many rows as the user column counts for them. */
  lemma {:induction false} RowsOfCount(rows: seq<Record>, user: string)
    ensures |RowsOf(rows, user)| == multiset(Users(rows))[user]
  {
    if |rows| > 0 {
      UsersCons(rows);
      RowsOfCount(rows[1..], user);
    }
  }

  /** Filtering two stretches of chat separately and concatenating the results is
      filtering the whole chat: the filter keeps the order of the rows. */
  lemma {:induction false} RowsOfAppend(a: seq<Record>, b: seq<Record>, user: string)
    ensures RowsOf(a + b, user) == RowsOf(a, user) + RowsOf(b, user)
  {
    if |a| == 0 {
      assert a + b == b;
    } else {
      assert (a + b)[1..] == a[1..] + b;
      RowsOfAppend(a[1..], b, user);
    }
  }

  /** Filtering rows that are all `user`'s keeps them all. */
  lemma {:induction false} RowsOfAllMatching(rows: seq<Record>, user: string)
    requires forall i :: 0 <= i < |rows| ==> rows[i].user == user
    ensures RowsOf(rows, user) == rows
  {
    if |rows| > 0 {
      RowsOfAllMatching(rows[1..], user);
      assert rows == [rows[0]] + rows[1..];
    }
  }

  /** Filtering an already filtered table changes nothing. */
  lemma RowsOfIdempotent(rows: seq<Record>, user: string)
    ensures RowsOf(RowsOf(rows, user), user) == RowsOf(rows, user)
  {
    RowsOfAllMatching(RowsOf(rows, user), user);
  }

  /** Every statistic gives the same answer on rows already narrowed to the
      selection as on the whole table. */
  lemma SelectIdempotent(selected: string, rows: seq<Record>)
    ensures Select(selected, Select(selected, rows)) == Select(selected, rows)
  {
    if selected != Overall {
      RowsOfIdempotent(rows, selected);
    }
  }

  // ---------------------------------------------------------------------------
  // fetch_stats.
  // ---------------------------------------------------------------------------

  datatype Stats = Stats(messages: nat, words: nat, media: nat, links: nat)

  /** The number of `str.split()` tokens over all messages. */
  function WordCount(rows: seq<Record>): nat {
    if |rows| == 0 then 0 else |Words(rows[0].message)| + WordCount(rows[1..])
  }

  /** The number of word starts over all messages. */
  function WordStartCount(rows: seq<Record>): nat {
    if |rows| == 0 then 0 else WordStarts(rows[0].message, true) + WordStartCount(rows[1..])
  }

  /** The number of messages equal to `MediaOmitted`. */
  function MediaCount(rows: seq<Record>): (n: nat)
    ensures n <= |rows|
    ensures n == multiset(Messages(rows))[MediaOmitted]
  {
    if |rows| == 0 then 0
    else
      assert Messages(rows) == [rows[0].message] + Messages(rows[1..]);
      (if rows[0].message == MediaOmitted then 1 else 0) + MediaCount(rows[1..])
  }

  /** The number of URLs found over all messages, `urls` giving the number found
      in one message. */
  function LinkCount(rows: seq<Record>, urls: string -> nat): nat {
    if |rows| == 0 then 0 else urls(rows[0].message) + LinkCount(rows[1..], urls)
  }

  /** The word count of two stretches of rows adds up. */
  lemma {:induction false} WordCountAppend(a: seq<Record>, b: seq<Record>)
    ensures WordCount(a + b) == WordCount(a) + WordCount(b)
    decreases |a|
  {
    if |a| == 0 {
      assert a + b == b;
    } else {
      assert (a + b)[1..] == a[1..] + b;
      WordCountAppend(a[1..], b);
    }
  }

  /** The link count of two stretches of rows adds up. */
  lemma {:induction false} LinkCountAppend(a: seq<Record>, b: seq<Record>, urls: string -> nat)
    ensures LinkCount(a + b, urls) == LinkCount(a, urls) + LinkCount(b, urls)
    decreases |a|
  {
    if |a| == 0 {
      assert a + b == b;
    } else {
      assert (a + b)[1..] == a[1..] + b;
      LinkCountAppend(a[1..], b, urls);
    }
  }

  lemma {:induction false} WordCountIsWordStarts(rows: seq<Record>)
    ensures WordCount(rows) == WordStartCount(rows)
  {
    if |rows| > 0 {
      WordsCountsWordStarts(rows[0].message);
      WordCountIsWordStarts(rows[1..]);
    }
  }

  /** `fetch_stats`: the number of selected messages (the selected user's count in
      the user column), of whitespace-separated words, of media placeholders and
      of links. */
  function FetchStats(selected: string, rows: seq<Record>, urls: string -> nat): (s: Stats)
    ensures selected == Overall ==> s.messages == |rows|
    ensures selected != Overall ==> s.messages == multiset(Users(rows))[selected]
    ensures s.words == WordStartCount(Select(selected, rows))
    ensures s.media <= s.messages
    ensures s.media == multiset(Messages(Select(selected, rows)))[MediaOmitted]
  {
    var sel := Select(selected, rows);
    RowsOfCount(rows, selected);
    WordCountIsWordStarts(sel);
    Stats(|sel|, WordCount(sel), MediaCount(sel), LinkCount(sel, urls))
  }

  // ---------------------------------------------------------------------------
  // most_busy_users.
  // ---------------------------------------------------------------------------

  lemma UsersOfRows(rows: seq<Record>)
    ensures forall x :: x in rows ==> x.user in Users(rows)
  {
    forall x | x in rows
      ensures x.user in Users(rows)
    {
      var i :| 0 <= i < |rows| && rows[i] == x;
      assert Users(rows)[i] == x.user;
    }
  }

  /** `df['user'].value_counts().head()`: the five users with the most rows and
      their counts, most first. No user left out has more rows than the fifth. */
  function MostBusyUsers(rows: seq<Record>): (r: seq<Entry<string>>)
    ensures |r| <= 5 && DistinctKeys(r) && NonIncreasing(r)
    ensures forall i :: 0 <= i < |r| ==> r[i].count == multiset(Users(rows))[r[i].key] >= 1
    ensures forall x :: x in rows && KeyFind(r, x.user) == |r| ==>
      |r| == 5 && multiset(Users(rows))[x.user] <= r[4].count
  {
    UsersOfRows(rows);
    MostCommon(Users(rows), 5)
  }

  /** Each busy user's count is the message count `fetch_stats` reports for them. */
  lemma BusyCountIsMessageCount(rows: seq<Record>, urls: string -> nat, i: nat)
    requires i < |MostBusyUsers(rows)| && MostBusyUsers(rows)[i].key != Overall
    ensures MostBusyUsers(rows)[i].count == FetchStats(MostBusyUsers(rows)[i].key, rows, urls).messages
  {
  }

  // ---------------------------------------------------------------------------
  // most_common_words.
  // ---------------------------------------------------------------------------

  /** A row whose words count: neither a group notification nor a media placeholder. */
  predicate Chatty(x: Record) {
    x.user != Notification && x.message != MediaOmitted
  }

  /** The words of `ws` that do not occur anywhere in the stop-word text. */
  function KeptWords(ws: seq<string>, stop: string): (r: seq<string>)
    ensures forall w :: multiset(r)[w] == if Contains(stop, w) then 0 else multiset(ws)[w]
  {
    if |ws| == 0 then []
    else
      assert ws == [ws[0]] + ws[1..];
      (if Contains(stop, ws[0]) then [] else [ws[0]]) + KeptWords(ws[1..], stop)
  }

  /** How often `w` is a token of a lower-cased chatty message. */
  function WordOccurrences(rows: seq<Record>, w: string): nat {
    if |rows| == 0 then 0
    else (if Chatty(rows[0]) then multiset(Words(Lower(rows[0].message)))[w] else 0) + WordOccurrences(rows[1..], w)
  }

  /** The words `most_common_words` counts, in the order they are met. */
  function ChatWords(rows: seq<Record>, stop: string): (ws: seq<string>)
    ensures forall w :: multiset(ws)[w] == if Contains(stop, w) then 0 else WordOccurrences(rows, w)
  {
    if |rows| == 0 then []
    else
      var here := if Chatty(rows[0]) then KeptWords(Words(Lower(rows[0].message)), stop) else [];
      here + ChatWords(rows[1..], stop)
  }

  /** `most_common_words`: the twenty commonest tokens of the selected chatty
      messages, lower-cased, leaving out every token found in the stop-word text;
      equal counts in the order the words are first used. */
  function MostCommonWords(selected: string, rows: seq<Record>, stop: string): (r: seq<Entry<string>>)
    ensures |r| <= 20 && DistinctKeys(r) && NonIncreasing(r)
    ensures forall i :: 0 <= i < |r| ==>
      !Contains(stop, r[i].key) && r[i].count == WordOccurrences(Select(selected, rows), r[i].key) >= 1
    ensures TiesInFirstOccurrenceOrder(r, ChatWords(Select(selected, rows), stop))
    ensures forall w :: !Contains(stop, w) && WordOccurrences(Select(selected, rows), w) > 0 && KeyFind(r, w) == |r| ==>
      |r| == 20 && WordOccurrences(Select(selected, rows), w) <= r[19].count
    ensures forall w ::
      (!Contains(stop, w) && WordOccurrences(Select(selected, rows), w) > 0 && KeyFind(r, w) == |r| &&
       |r| == 20 && WordOccurrences(Select(selected, rows), w) == r[19].count) ==>
        Find(ChatWords(Select(selected, rows), stop), r[19].key) < Find(ChatWords(Select(selected, rows), stop), w)
  {
    var ws := ChatWords(Select(selected, rows), stop);
    var r := MostCommon(ws, 20);
    forall w | multiset(ws)[w] > 0
      ensures w in ws
    {
    }
    r
  }

  // ---------------------------------------------------------------------------
  // emoji_helper.
  // ---------------------------------------------------------------------------

  /** The characters of `s` that belong to `emoji`. */
  function EmojiOf(s: string, emoji: set<char>): (r: seq<char>)
    ensures forall c :: multiset(r)[c] == if c in emoji then multiset(s)[c] else 0
  {
    if |s| == 0 then []
    else
      assert s == [s[0]] + s[1..];
      (if s[0] in emoji then [s[0]] else []) + EmojiOf(s[1..], emoji)
  }

  /** How often the character `c` occurs over all messages. */
  function CharOccurrences(rows: seq<Record>, c: char): nat {
    if |rows| == 0 then 0 else multiset(rows[0].message)[c] + CharOccurrences(rows[1..], c)
  }

  /** The emoji characters of all messages, in order. */
  function EmojiStream(rows: seq<Record>, emoji: set<char>): (r: seq<char>)
    ensures forall c :: multiset(r)[c] == if c in emoji then CharOccurrences(rows, c) else 0
  {
    if |rows| == 0 then [] else EmojiOf(rows[0].message, emoji) + EmojiStream(rows[1..], emoji)
  }

  lemma {:induction false} EmojiEntries(r: seq<Entry<char>>, cs: seq<char>, sel: seq<Record>, emoji: set<char>)
    requires cs == EmojiStream(sel, emoji)
    requires CountsOf(r, cs) && Covers(r, cs)
    ensures forall i :: 0 <= i < |r| ==> r[i].key in emoji && r[i].count == CharOccurrences(sel, r[i].key) >= 1
    ensures forall c :: c in emoji && CharOccurrences(sel, c) > 0 ==> KeyFind(r, c) < |r|
  {
    forall i | 0 <= i < |r|
      ensures r[i].key in emoji && r[i].count == CharOccurrences(sel, r[i].key) >= 1
    {
      assert multiset(cs)[r[i].key] >= 1;
    }
    forall c | c in emoji && CharOccurrences(sel, c) > 0
      ensures KeyFind(r, c) < |r|
    {
      assert multiset(cs)[c] > 0;
      CoversMeansFound(r, cs, c);
    }
  }

  /** `emoji_helper`: every emoji character used in the selected messages with the
      number of its uses, most used first, equal counts in order of first use. */
  function EmojiHelper(selected: string, rows: seq<Record>, emoji: set<char>): (r: seq<Entry<char>>)
    ensures DistinctKeys(r) && NonIncreasing(r)
    ensures forall i :: 0 <= i < |r| ==>
      r[i].key in emoji && r[i].count == CharOccurrences(Select(selected, rows), r[i].key) >= 1
    ensures forall c :: c in emoji && CharOccurrences(Select(selected, rows), c) > 0 ==> KeyFind(r, c) < |r|
    ensures TiesInFirstOccurrenceOrder(r, EmojiStream(Select(selected, rows), emoji))
    ensures Total(r) == |EmojiStream(Select(selected, rows), emoji)|
  {
    var sel := Select(selected, rows);
    var cs := EmojiStream(sel, emoji);
    var r := AllCounts(cs);
    EmojiEntries(r, cs, sel, emoji);
    r
  }

  // ---------------------------------------------------------------------------
  // monthly_timeline and daily_timeline.
  // ---------------------------------------------------------------------------

  /** The group key of `monthly_timeline`. */
  datatype MonthKey = MonthKey(year: int, monthNum: int, month: string)

  /** The order of `groupby(['year', 'month_num', 'month'])`: by year, then month
      number, then month name. */
  predicate MonthKeyLess(a: MonthKey, b: MonthKey) {
    a.year < b.year || (a.year == b.year && (a.monthNum < b.monthNum || (a.monthNum == b.monthNum && StrLess(a.month, b.month))))
  }

  function MonthKeys(rows: seq<Record>): seq<MonthKey> {
    seq(|rows|, i requires 0 <= i < |rows| => MonthKey(rows[i].year, rows[i].monthNum, rows[i].month))
  }

  lemma MonthKeyOrder(ks: seq<MonthKey>)
    ensures OrdersValues(MonthKeyLess, ks)
  {
    forall a, b | a in ks && b in ks && a != b
      ensures MonthKeyLess(a, b) || MonthKeyLess(b, a)
    {
      if a.month != b.month {
        StrLessTotal(a.month, b.month);
      }
    }
    forall a, b, c | a in ks && b in ks && c in ks && MonthKeyLess(a, b) && MonthKeyLess(b, c)
      ensures MonthKeyLess(a, c)
    {
      if a.year == b.year == c.year && a.monthNum == b.monthNum == c.monthNum {
        StrLessTransitive(a.month, b.month, c.month);
      }
    }
  }

  /** One row of `monthly_timeline`: the group key, its message count and the
      label `month-year`. */
  datatype MonthRow = MonthRow(key: MonthKey, messages: nat, time: string)

  /** The messages column of a timeline. */
  function MessageColumn(r: seq<MonthRow>): seq<nat> {
    seq(|r|, i requires 0 <= i < |r| => r[i].messages)
  }

  /** The label `monthly_timeline` gives a month: its name, a dash and the year. */
  function TimeLabel(k: MonthKey): string {
    k.month + "-" + IntToString(k.year)
  }

  function MonthRows(g: seq<Entry<MonthKey>>): (r: seq<MonthRow>)
    ensures |r| == |g|
    ensures forall i :: 0 <= i < |g| ==> r[i] == MonthRow(g[i].key, g[i].count, TimeLabel(g[i].key))
  {
    seq(|g|, i requires 0 <= i < |g| => MonthRow(g[i].key, g[i].count, TimeLabel(g[i].key)))
  }

  lemma MonthRowsFacts(sel: seq<Record>, g: seq<Entry<MonthKey>>, r: seq<MonthRow>)
    requires CountsOf(g, MonthKeys(sel)) && Covers(g, MonthKeys(sel)) && Ascending(MonthKeyLess, g)
    requires |r| == |g| && forall i :: 0 <= i < |g| ==> r[i].key == g[i].key && r[i].messages == g[i].count
    ensures forall i :: 0 <= i < |r| ==> r[i].messages == multiset(MonthKeys(sel))[r[i].key] >= 1
    ensures forall x :: x in sel ==> exists i :: 0 <= i < |r| && r[i].key == MonthKey(x.year, x.monthNum, x.month)
    ensures forall i, j :: 0 <= i < j < |r| ==> MonthKeyLess(r[i].key, r[j].key)
  {
    MonthKeysOfRows(sel);
    forall x | x in sel
      ensures exists i :: 0 <= i < |r| && r[i].key == MonthKey(x.year, x.monthNum, x.month)
    {
      var y := MonthKey(x.year, x.monthNum, x.month);
      var i :| 0 <= i < |g| && g[i].key == y;
      assert r[i].key == y;
    }
  }

  lemma MonthKeysOfRows(sel: seq<Record>)
    ensures forall x :: x in sel ==> MonthKey(x.year, x.monthNum, x.month) in MonthKeys(sel)
  {
    var ks := MonthKeys(sel);
    forall x | x in sel
      ensures MonthKey(x.year, x.monthNum, x.month) in ks
    {
      var k :| 0 <= k < |sel| && sel[k] == x;
      assert ks[k] == MonthKey(x.year, x.monthNum, x.month);
    }
  }

  /** `monthly_timeline`: one row per month present in the selected messages,
      oldest first, with the number of messages of that month and the label
      `month + "-" + str(year)`; the counts add up to the selected row count. */
  function MonthlyTimeline(selected: string, rows: seq<Record>): (r: seq<MonthRow>)
    ensures forall i, j :: 0 <= i < j < |r| ==> MonthKeyLess(r[i].key, r[j].key)
    ensures forall i :: 0 <= i < |r| ==>
      r[i].messages == multiset(MonthKeys(Select(selected, rows)))[r[i].key] >= 1
    ensures forall x :: x in Select(selected, rows) ==>
      exists i :: 0 <= i < |r| && r[i].key == MonthKey(x.year, x.monthNum, x.month)
    ensures forall i :: 0 <= i < |r| ==> r[i].time == r[i].key.month + "-" + IntToString(r[i].key.year)
    ensures RowSum(MessageColumn(r)) == |Select(selected, rows)|
  {
    var sel := Select(selected, rows);
    MonthKeyOrder(MonthKeys(sel));
    var g := GroupCount(MonthKeyLess, MonthKeys(sel));
    var r := MonthRows(g);
    MonthTimelineOf(sel, g, r);
    r
  }

  lemma MonthTimelineOf(sel: seq<Record>, g: seq<Entry<MonthKey>>, r: seq<MonthRow>)
    requires Ascending(MonthKeyLess, g) && CountsOf(g, MonthKeys(sel)) && Covers(g, MonthKeys(sel))
    requires Total(g) == |MonthKeys(sel)|
    requires r == MonthRows(g)
    ensures forall i, j :: 0 <= i < j < |r| ==> MonthKeyLess(r[i].key, r[j].key)
    ensures forall i :: 0 <= i < |r| ==> r[i].messages == multiset(MonthKeys(sel))[r[i].key] >= 1
    ensures forall x :: x in sel ==> exists i :: 0 <= i < |r| && r[i].key == MonthKey(x.year, x.monthNum, x.month)
    ensures RowSum(MessageColumn(r)) == |sel|
  {
    MonthRowsFacts(sel, g, r);
    RowSumOfCounts(MessageColumn(r), g);
  }

  /** Calendar order of dates. */
  predicate DateLess(a: Date, b: Date) {
    a.year < b.year || (a.year == b.year && (a.month < b.month || (a.month == b.month && a.day < b.day)))
  }

  /** `daily_timeline`: one entry per date present in the selected messages,
      oldest first, with the number of messages sent that day; the counts add up
      to the selected row count. */
  function DailyTimeline(selected: string, rows: seq<Record>): (r: seq<Entry<Date>>)
    ensures Ascending(DateLess, r)
    ensures CountsOf(r, DateColumn(Select(selected, rows)))
    ensures Covers(r, DateColumn(Select(selected, rows)))
    ensures Total(r) == |Select(selected, rows)|
  {
    GroupCount(DateLess, DateColumn(Select(selected, rows)))
  }

  // ---------------------------------------------------------------------------
  // week_activity_map and month_activity_map.
  // ---------------------------------------------------------------------------

  /** `df['day_name'].value_counts()`: each weekday name present with its number of
      messages, most first; the counts add up to the selected row count. */
  function WeekActivityMap(selected: string, rows: seq<Record>): (r: seq<Entry<string>>)
    ensures DistinctKeys(r) && NonIncreasing(r)
    ensures CountsOf(r, DayNameColumn(Select(selected, rows)))
    ensures Covers(r, DayNameColumn(Select(selected, rows)))
    ensures Total(r) == |Select(selected, rows)|
  {
    AllCounts(DayNameColumn(Select(selected, rows)))
  }

  /** `df['month'].value_counts()`: each month name present with its number of
      messages, most first; the counts add up to the selected row count. */
  function MonthActivityMap(selected: string, rows: seq<Record>): (r: seq<Entry<string>>)
    ensures DistinctKeys(r) && NonIncreasing(r)
    ensures CountsOf(r, MonthColumn(Select(selected, rows)))
    ensures Covers(r, MonthColumn(Select(selected, rows)))
    ensures Total(r) == |Select(selected, rows)|
  {
    AllCounts(MonthColumn(Select(selected, rows)))
  }

  // ---------------------------------------------------------------------------
  // activity_heatmap.
  // ---------------------------------------------------------------------------

  /** A pivot table: sorted row labels, sorted column labels, and a count per cell. */
  datatype Heatmap = Heatmap(days: seq<string>, periods: seq<string>, cells: seq<seq<nat>>)

  /** The number of rows sent on weekday `d` in hour bucket `p`. */
  function PairCount(rows: seq<Record>, d: string, p: string): nat {
    if |rows| == 0 then 0
    else (if rows[0].dayName == d && rows[0].period == p then 1 else 0) + PairCount(rows[1..], d, p)
  }

  /** The hour buckets of the rows sent on weekday `d`. */
  function PeriodsOn(rows: seq<Record>, d: string): seq<string> {
    if |rows| == 0 then []
    else (if rows[0].dayName == d then [rows[0].period] else []) + PeriodsOn(rows[1..], d)
  }

  /** The sum of all cells of a grid. */
  function GridSum(cells: seq<seq<nat>>): nat {
    RowSum(seq(|cells|, i requires 0 <= i < |cells| => RowSum(cells[i])))
  }

  lemma {:induction false} PairCountIsOccurrence(rows: seq<Record>, d: string, p: string)
    ensures PairCount(rows, d, p) == multiset(PeriodsOn(rows, d))[p]
  {
    if |rows| > 0 {
      PairCountIsOccurrence(rows[1..], d, p);
    }
  }

  lemma {:induction false} PeriodsOnCount(rows: seq<Record>, d: string)
    ensures |PeriodsOn(rows, d)| == multiset(DayNameColumn(rows))[d]
    ensures forall p :: p in PeriodsOn(rows, d) ==> p in PeriodColumn(rows)
  {
    if |rows| > 0 {
      assert DayNameColumn(rows) == [rows[0].dayName] + DayNameColumn(rows[1..]);
      assert PeriodColumn(rows) == [rows[0].period] + PeriodColumn(rows[1..]);
      PeriodsOnCount(rows[1..], d);
    }
  }

  /** The labels of a sorted group count, strictly ascending and so distinct. */
  lemma SortedLabels(r: seq<Entry<string>>)
    requires Ascending(StrLess, r)
    ensures Distinct(Keys(r))
    ensures forall i, j :: 0 <= i < j < |r| ==> StrLess(Keys(r)[i], Keys(r)[j])
  {
    forall i, j | 0 <= i < j < |r|
      ensures Keys(r)[i] != Keys(r)[j]
    {
      if Keys(r)[i] == Keys(r)[j] {
        StrLessIrreflexive(r[i].key);
      }
    }
  }

  lemma StrOrder(xs: seq<string>)
    ensures OrdersValues(StrLess, xs)
  {
    forall a, b | a in xs && b in xs && a != b
      ensures StrLess(a, b) || StrLess(b, a)
    {
      StrLessTotal(a, b);
    }
    forall a, b, c | a in xs && b in xs && c in xs && StrLess(a, b) && StrLess(b, c)
      ensures StrLess(a, c)
    {
      StrLessTransitive(a, b, c);
    }
  }

  lemma LabelsCover(g: seq<Entry<string>>, xs: seq<string>)
    requires CountsOf(g, xs) && Covers(g, xs)
    ensures forall x :: x in Keys(g) <==> x in xs
  {
    forall x | x in xs
      ensures x in Keys(g)
    {
      var i :| 0 <= i < |g| && g[i].key == x;
      assert Keys(g)[i] == x;
    }
  }

  /** The sorted distinct values of a column. */
  function SortedLabelsOf(xs: seq<string>): (ls: seq<string>)
    ensures Distinct(ls)
    ensures forall i, j :: 0 <= i < j < |ls| ==> StrLess(ls[i], ls[j])
    ensures forall x :: x in ls <==> x in xs
  {
    StrOrder(xs);
    var g := GroupCount(StrLess, xs);
    SortedLabels(g);
    LabelsCover(g, xs);
    Keys(g)
  }

  /** One heatmap row adds up to the number of rows of its weekday. */
  lemma HeatmapRowSum(sel: seq<Record>, d: string, periods: seq<string>, row: seq<nat>)
    requires Distinct(periods)
    requires forall x :: x in PeriodColumn(sel) ==> x in periods
    requires |row| == |periods|
    requires forall j :: 0 <= j < |periods| ==> row[j] == PairCount(sel, d, periods[j])
    ensures RowSum(row) == multiset(DayNameColumn(sel))[d]
  {
    var ps := PeriodsOn(sel, d);
    forall j | 0 <= j < |periods|
      ensures row[j] == multiset(ps)[periods[j]]
    {
      PairCountIsOccurrence(sel, d, periods[j]);
    }
    RowSumOfOccurrences(row, ps, periods);
    PeriodsOnCount(sel, d);
    OccurrencesCover(ps, periods);
  }

  lemma GridSumOfHeatmap(sel: seq<Record>, days: seq<string>, periods: seq<string>, cells: seq<seq<nat>>)
    requires Distinct(days) && Distinct(periods)
    requires forall x :: x in DayNameColumn(sel) ==> x in days
    requires forall x :: x in PeriodColumn(sel) ==> x in periods
    requires |cells| == |days|
    requires forall i :: 0 <= i < |days| ==> |cells[i]| == |periods|
    requires forall i, j :: 0 <= i < |days| && 0 <= j < |periods| ==> cells[i][j] == PairCount(sel, days[i], periods[j])
    ensures GridSum(cells) == |sel|
  {
    var sums := seq(|cells|, i requires 0 <= i < |cells| => RowSum(cells[i]));
    forall i | 0 <= i < |days|
      ensures sums[i] == multiset(DayNameColumn(sel))[days[i]]
    {
      HeatmapRowSum(sel, days[i], periods, cells[i]);
    }
    RowSumOfOccurrences(sums, DayNameColumn(sel), days);
    OccurrencesCover(DayNameColumn(sel), days);
  }

  /** The grid of `PairCount` over the given row and column labels. */
  function PairCounts(sel: seq<Record>, days: seq<string>, periods: seq<string>): (cells: seq<seq<nat>>)
    ensures |cells| == |days|
    ensures forall i :: 0 <= i < |days| ==> |cells[i]| == |periods|
    ensures forall i, j :: 0 <= i < |days| && 0 <= j < |periods| ==> cells[i][j] == PairCount(sel, days[i], periods[j])
  {
    seq(|days|, i requires 0 <= i < |days| =>
      seq(|periods|, j requires 0 <= j < |periods| => PairCount(sel, days[i], periods[j])))
  }

  /** `activity_heatmap`: the weekday names of the selected messages down the side
      and their hour buckets along the top, both sorted, each cell the number of
      messages of that weekday and bucket (zero where there are none); the cells
      add up to the selected row count. */
  function ActivityHeatmap(selected: string, rows: seq<Record>): (h: Heatmap)
    ensures forall i, j :: 0 <= i < j < |h.days| ==> StrLess(h.days[i], h.days[j])
    ensures forall i, j :: 0 <= i < j < |h.periods| ==> StrLess(h.periods[i], h.periods[j])
    ensures forall d :: d in h.days <==> exists x :: x in Select(selected, rows) && x.dayName == d
    ensures forall p :: p in h.periods <==> exists x :: x in Select(selected, rows) && x.period == p
    ensures |h.cells| == |h.days|
    ensures forall i :: 0 <= i < |h.days| ==> |h.cells[i]| == |h.periods|
    ensures forall i, j :: 0 <= i < |h.days| && 0 <= j < |h.periods| ==>
      h.cells[i][j] == PairCount(Select(selected, rows), h.days[i], h.periods[j])
    ensures GridSum(h.cells) == |Select(selected, rows)|
  {
    var sel := Select(selected, rows);
    var days := SortedLabelsOf(DayNameColumn(sel));
    var periods := SortedLabelsOf(PeriodColumn(sel));
    var cells := PairCounts(sel, days, periods);
    GridSumOfHeatmap(sel, days, periods, cells);
    ColumnMembers(sel);
    Heatmap(days, periods, cells)
  }

  lemma ColumnMembers(rows: seq<Record>)
    ensures forall d :: d in DayNameColumn(rows) <==> exists x :: x in rows && x.dayName == d
    ensures forall p :: p in PeriodColumn(rows) <==> exists x :: x in rows && x.period == p
  {
    forall d | d in DayNameColumn(rows)
      ensures exists x :: x in rows && x.dayName == d
    {
      var i :| 0 <= i < |rows| && DayNameColumn(rows)[i] == d;
      assert rows[i] in rows;
    }
    forall d | exists x :: x in rows && x.dayName == d
      ensures d in DayNameColumn(rows)
    {
      var x :| x in rows && x.dayName == d;
      var i :| 0 <= i < |rows| && rows[i] == x;
      assert DayNameColumn(rows)[i] == d;
    }
    forall p | p in PeriodColumn(rows)
      ensures exists x :: x in rows && x.period == p
    {
      var i :| 0 <= i < |rows| && PeriodColumn(rows)[i] == p;
      assert rows[i] in rows;
    }
    forall p | exists x :: x in rows && x.period == p
      ensures p in PeriodColumn(rows)
    {
      var x :| x in rows && x.period == p;
      var i :| 0 <= i < |rows| && rows[i] == x;
      assert PeriodColumn(rows)[i] == p;
    }
  }
}
