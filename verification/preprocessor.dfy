/**
  `preprocess`: from a chat export to its ordered records. The text is cut at
  every bracketed stamp, each stamp is stripped of its brackets and decoded with
  the format `%d/%m/%y, %H:%M:%S`, the sender is split off each span, and the
  calendar fields, the dense id and the hour bucket are derived.
 */
module Preprocessor {
  import opened Wrappers
  import opened Text
  import opened Calendar
  import opened Stamps

  // ---------------------------------------------------------------------------
  // Bracket stripping: `date.strip("[]")`.
  // ---------------------------------------------------------------------------

  const Brackets: set<char> := {'[', ']'}

  /** Every character of `s` belongs to `cs`. */
  predicate AllIn(s: string, cs: set<char>) {
    forall i :: 0 <= i < |s| ==> s[i] in cs
  }

  /** The number of characters of `cs` that `s` starts with. */
  function LeadIn(s: string, cs: set<char>): (n: nat)
    ensures n <= |s| && AllIn(s[..n], cs)
    ensures n == |s| || s[n] !in cs
  {
    if |s| > 0 && s[0] in cs then
      var n := 1 + LeadIn(s[1..], cs);
      assert s[..n] == [s[0]] + s[1..][..n - 1];
      n
    else 0
  }

  /** The number of characters of `cs` that `s` ends with. */
  function TrailIn(s: string, cs: set<char>): (n: nat)
    ensures n <= |s| && AllIn(s[|s| - n..], cs)
    ensures n == |s| || s[|s| - n - 1] !in cs
  {
    if |s| > 0 && s[|s| - 1] in cs then
      var u := s[..|s| - 1];
      var n := 1 + TrailIn(u, cs);
      assert s[|s| - n..] == u[|u| - (n - 1)..] + [s[|s| - 1]];
      n
    else 0
  }

  /** Python's `s.lstrip(chars)`: drops the longest prefix made of characters of `cs`. */
  function StripLeft(s: string, cs: set<char>): (r: string)
    ensures |r| <= |s| && r == s[|s| - |r|..]
    ensures AllIn(s[..|s| - |r|], cs)
    ensures |r| == 0 || r[0] !in cs
  {
    s[LeadIn(s, cs)..]
  }

  /** Python's `s.rstrip(chars)`: drops the longest suffix made of characters of `cs`. */
  function StripRight(s: string, cs: set<char>): (r: string)
    ensures |r| <= |s| && r == s[..|r|]
    ensures AllIn(s[|r|..], cs)
    ensures |r| == 0 || r[|r| - 1] !in cs
  {
    s[..|s| - TrailIn(s, cs)]
  }

  /** Python's `s.strip(chars)`: the piece of `s` left after dropping characters of
      `cs` from both ends; everything dropped is in `cs`, and what is left neither
      starts nor ends with a character of `cs`. */
  function Strip(s: string, cs: set<char>): (r: string)
    ensures var k := LeadIn(s, cs);
      k + |r| <= |s| && r == s[k..k + |r|] && AllIn(s[..k], cs) && AllIn(s[k + |r|..], cs)
    ensures |r| == 0 || (r[0] !in cs && r[|r| - 1] !in cs)
  {
    var k := LeadIn(s, cs);
    var l := s[k..];
    var m := TrailIn(l, cs);
    assert s[k + |l| - m..] == l[|l| - m..];
    l[..|l| - m]
  }

  /** `strip` is `lstrip` followed by `rstrip`. */
  lemma StripIsBothStrips(s: string, cs: set<char>)
    ensures Strip(s, cs) == StripRight(StripLeft(s, cs), cs)
  {
  }

  lemma {:induction false} ConcatAppend(a: seq<string>, b: seq<string>)
    ensures Concat(a + b) == Concat(a) + Concat(b)
  {
    if |a| > 0 {
      assert (a + b)[0] == a[0];
      assert (a + b)[1..] == a[1..] + b;
      ConcatAppend(a[1..], b);
      assert a[0] + (Concat(a[1..]) + Concat(b)) == (a[0] + Concat(a[1..])) + Concat(b);
    } else {
      assert a + b == b;
    }
  }

  /** The text between the brackets of a matched stamp: the day, month, year, gap,
      hour, minute and second pieces with their separators. */
  function StampText(pieces: seq<string>): string
    requires FitsAll(StampPattern, pieces)
  {
    Concat(pieces[1..13])
  }

  /** A matched stamp is `[`, its inner pieces, then `]`. */
  lemma StampAroundText(pieces: seq<string>)
    requires FitsAll(StampPattern, pieces)
    ensures Concat(pieces) == "[" + StampText(pieces) + "]"
  {
    assert pieces == pieces[..1] + (pieces[1..13] + pieces[13..]);
    ConcatAppend(pieces[1..13], pieces[13..]);
    ConcatAppend(pieces[..1], pieces[1..13] + pieces[13..]);
    assert Concat(pieces[..1]) == pieces[0] + Concat([]);
    assert Concat(pieces[13..]) == pieces[13] + Concat([]);
  }

  /** The inner text of a stamp starts and ends with a digit. */
  lemma StampTextEnds(pieces: seq<string>)
    requires FitsAll(StampPattern, pieces)
    ensures var inner := StampText(pieces);
      |inner| >= 2 && IsDigit(inner[0]) && IsDigit(inner[|inner| - 1])
  {
    var inner := StampText(pieces);
    assert pieces[1..13] == [pieces[1]] + pieces[2..13];
    assert inner == pieces[1] + Concat(pieces[2..13]);
    assert pieces[1..13] == pieces[1..12] + [pieces[12]];
    ConcatAppend(pieces[1..12], [pieces[12]]);
    assert Concat([pieces[12]]) == pieces[12] + Concat([]);
    assert inner[|inner| - 1] == pieces[12][1];
  }

  /** Stripping the brackets off a matched stamp removes exactly its first and last
      character and leaves its inner pieces: the date text that is decoded. */
  lemma StripStamp(pieces: seq<string>)
    requires FitsAll(StampPattern, pieces)
    ensures var t := Concat(pieces);
      |t| >= 2 && Strip(t, Brackets) == t[1..|t| - 1] == StampText(pieces)
  {
    StampAroundText(pieces);
    StampTextEnds(pieces);
    StripBracketed(StampText(pieces));
  }

  /** Stripping `[inner]` leaves `inner` when `inner` starts and ends with a digit. */
  lemma StripBracketed(inner: string)
    requires |inner| >= 2 && IsDigit(inner[0]) && IsDigit(inner[|inner| - 1])
    ensures var t := "[" + inner + "]";
      Strip(t, Brackets) == t[1..|t| - 1] == inner
  {
    var t := "[" + inner + "]";
    assert t[1..] == inner + "]";
    assert StripLeft(inner + "]", Brackets) == inner + "]";
    assert StripLeft(t, Brackets) == inner + "]";
    assert (inner + "]")[..|inner|] == inner;
    assert StripRight(inner, Brackets) == inner;
    assert t[1..|t| - 1] == inner;
  }

  // ---------------------------------------------------------------------------
  // Decoding a stamp: `pd.to_datetime(..., format='%d/%m/%y, %H:%M:%S')`.
  // ---------------------------------------------------------------------------

  /** `%y`: 00 to 68 are years 2000 to 2068, 69 to 99 are 1969 to 1999. */
  function ExpandYear(yy: nat): (y: int)
    requires yy < 100
    ensures 1969 <= y <= 2068 && y % 100 == yy
  {
    if yy <= 68 then 2000 + yy else 1900 + yy
  }

  /** Whether the fields of a matched stamp are all accepted: the two-digit year
      `%y` takes, the day, month, hour and minute ranges of `%d`, `%m`, `%H` and `%M`,
      a second of at most 61 (`%S` admits 60 and 61), and a day that exists in
      that month of that year. */
  predicate StampInRange(pieces: seq<string>)
    requires FitsAll(StampPattern, pieces)
  {
    var d, m, h, mi, sec := ParseDec(pieces[1]), ParseDec(pieces[3]), ParseDec(pieces[8]),
      ParseDec(pieces[10]), ParseDec(pieces[12]);
    && |pieces[5]| == 2
    && 1 <= m <= 12
    && 1 <= d <= DaysInMonth(ExpandYear(ParseDec(pieces[5]) % 100), m)
    && h <= 23 && mi <= 59 && sec <= 61
  }

  /** The field record of a matched stamp whose fields are in range, before the
      second is brought into range. */
  function StampFields(pieces: seq<string>): (t: DateTime)
    requires FitsAll(StampPattern, pieces) && StampInRange(pieces)
    ensures ValidDate(t.date) && 0 <= t.hour <= 23 && 0 <= t.minute <= 59 && 0 <= t.second <= 61
  {
    var y := ExpandYear(ParseDec(pieces[5]) % 100);
    DateTime(Date(y, ParseDec(pieces[3]), ParseDec(pieces[1])),
             ParseDec(pieces[8]), ParseDec(pieces[10]), ParseDec(pieces[12]))
  }

  /** Decodes the date text of a matched stamp; `None` is the `ValueError` that
      makes the whole conversion fail. */
  function DecodeStamp(pieces: seq<string>): (r: Option<DateTime>)
    requires FitsAll(StampPattern, pieces)
    ensures r.Some? <==> StampInRange(pieces)
    ensures r.Some? ==> ValidDateTime(r.value) && Seconds(r.value) == Seconds(StampFields(pieces))
    ensures r.Some? && ParseDec(pieces[12]) <= 59 ==> r.value == StampFields(pieces)
  {
    if StampInRange(pieces) then Some(Normalize(StampFields(pieces))) else None
  }

  // ---------------------------------------------------------------------------
  // The sender split: `re.split(r'([\w\W]+?):\s', message, maxsplit=1)`.
  // ---------------------------------------------------------------------------

  const Notification: string := "group_notification"

  /** A `:` at index `i >= 1` followed by whitespace: where the lazy pattern
      `([\w\W]+?):\s` can end its group (the group takes at least one character). */
  predicate IsSep(span: string, i: int) {
    1 <= i && i + 1 < |span| && span[i] == ':' && IsSpace(span[i + 1])
  }

  /** The first separator at or after `from`. */
  function FindSep(span: string, from: nat): (r: Option<nat>)
    requires from >= 1
    ensures r.Some? ==> from <= r.value && IsSep(span, r.value)
    ensures r.Some? ==> forall j :: from <= j < r.value ==> !IsSep(span, j)
    ensures r.None? ==> forall j :: from <= j ==> !IsSep(span, j)
    decreases |span| - from
  {
    if from + 1 >= |span| then None
    else if IsSep(span, from) then Some(from)
    else FindSep(span, from + 1)
  }

  datatype Split = Split(user: string, message: string)

  /** The sender and body of one span. The search starts at index 0 and the lazy group
      ends at the first separator, so a match anywhere implies one at index 0;
      without a separator the whole span is a notification's body. */
  function SplitSender(span: string): (r: Split)
    ensures (exists i :: IsSep(span, i)) ==>
      && |r.user| >= 1
      && IsSep(span, |r.user|)
      && span == r.user + [':', span[|r.user| + 1]] + r.message
      && forall j :: 1 <= j < |r.user| ==> !IsSep(span, j)
    ensures (forall i :: !IsSep(span, i)) ==> r == Split(Notification, span)
  {
    match FindSep(span, 1)
    case Some(k) =>
      assert span == span[..k] + [':', span[k + 1]] + span[k + 2..];
      Split(span[..k], span[k + 2..])
    case None => Split(Notification, span)
  }

  /** Splitting a span made of a sender, `:`, one whitespace character and a body gives
      that sender and body back, as long as the sender holds no separator of its own. */
  lemma SplitSenderOfJoin(user: string, gap: char, body: string)
    requires |user| >= 1 && IsSpace(gap)
    requires forall j :: 1 <= j < |user| - 1 ==> !(user[j] == ':' && IsSpace(user[j + 1]))
    ensures SplitSender(user + [':', gap] + body) == Split(user, body)
  {
    var span := user + [':', gap] + body;
    forall j | 1 <= j < |user|
      ensures !IsSep(span, j)
    {
      if j < |user| - 1 {
        assert span[j] == user[j] && span[j + 1] == user[j + 1];
      } else {
        assert span[j + 1] == ':';
      }
    }
    assert IsSep(span, |user|);
    var k := FindSep(span, 1);
    assert k.Some? && k.value == |user|;
    assert span[..|user|] == user;
    assert span[|user| + 2..] == body;
  }

  // ---------------------------------------------------------------------------
  // Hour buckets.
  // ---------------------------------------------------------------------------

  /** The `period` label of hour `h`: `"23-00"` for 23, `"00-1"` for 0, otherwise
      `"h-(h+1)"` without padding. */
  function HourBucket(h: nat): string {
    if h == 23 then NatToString(h) + "-00"
    else if h == 0 then "00-1"
    else NatToString(h) + "-" + NatToString(h + 1)
  }

  /** The hour a bucket label starts at: the digits before its first `-`. */
  function BucketStart(name: string): Option<nat> {
    var n := DigitRun(name);
    if 1 <= n < |name| && name[n] == '-' then Some(ParseDec(name[..n])) else None
  }

  lemma BucketStartOf(digits: string, rest: string)
    requires |digits| >= 1 && AllDigits(digits)
    ensures BucketStart(digits + "-" + rest) == Some(ParseDec(digits))
  {
    var name := digits + "-" + rest;
    assert name == digits + ("-" + rest);
    DigitRunOfDigitsThen(digits, "-" + rest);
    assert name[..|digits|] == digits;
  }

  /** Every label names the hour it was made for, so each hour gets its own label. */
  lemma BucketStartOfHourBucket(h: nat)
    ensures BucketStart(HourBucket(h)) == Some(h)
  {
    if h == 23 {
      assert HourBucket(h) == NatToString(h) + "-" + "00";
      BucketStartOf(NatToString(h), "00");
      ParseNatToString(h);
    } else if h == 0 {
      assert HourBucket(h) == "00" + "-" + "1";
      BucketStartOf("00", "1");
      ParseTwoDigits("00");
    } else {
      BucketStartOf(NatToString(h), NatToString(h + 1));
      ParseNatToString(h);
    }
  }

  /** The 24 hours of a day get 24 different labels. */
  lemma HourBucketInjective(h1: nat, h2: nat)
    requires HourBucket(h1) == HourBucket(h2)
    ensures h1 == h2
  {
    BucketStartOfHourBucket(h1);
    BucketStartOfHourBucket(h2);
  }

  // ---------------------------------------------------------------------------
  // Records.
  // ---------------------------------------------------------------------------

  /** One row of the data frame `preprocess` returns. */
  datatype Record = Record(
    id: nat,
    date: DateTime,
    user: string,
    message: string,
    onlyDate: Date,
    year: int,
    monthNum: int,
    month: string,
    day: int,
    dayName: string,
    hour: int,
    minute: int,
    period: string)

  /** The derived columns of `r` are the components of its timestamp. */
  predicate WellDerived(r: Record) {
    && ValidDateTime(r.date)
    && r.onlyDate == r.date.date
    && r.year == r.date.date.year
    && r.monthNum == r.date.date.month
    && r.month == MonthName(r.monthNum)
    && r.day == r.date.date.day
    && r.dayName == DayName(r.onlyDate)
    && r.hour == r.date.hour
    && r.minute == r.date.minute
    && r.period == HourBucket(r.hour)
  }

  function MakeRecord(id: nat, t: DateTime, span: string): (r: Record)
    requires ValidDateTime(t)
    ensures WellDerived(r) && r.id == id && r.date == t
    ensures Split(r.user, r.message) == SplitSender(span)
  {
    var split := SplitSender(span);
    Record(id, t, split.user, split.message, t.date, t.date.year, t.date.month,
           MonthName(t.date.month), t.date.day, DayName(t.date), t.hour, t.minute, HourBucket(t.hour))
  }

  /** A stamp that does not decode: its position and its date text. */
  datatype ParseError = BadTimestamp(index: nat, text: string)

  predicate AllFit(entries: seq<Raw>) {
    forall i :: 0 <= i < |entries| ==> FitsAll(StampPattern, entries[i].stamp)
  }

  /** The decoded stamp of every entry. */
  function Decoded(entries: seq<Raw>): (ds: seq<Option<DateTime>>)
    requires AllFit(entries)
    ensures |ds| == |entries|
    ensures forall i :: 0 <= i < |entries| ==> ds[i] == DecodeStamp(entries[i].stamp)
  {
    seq(|entries|, i requires 0 <= i < |entries| => DecodeStamp(entries[i].stamp))
  }

  /** The first position at or after `from` that holds `None`. */
  function FirstNone<T>(ds: seq<Option<T>>, from: nat): (r: Option<nat>)
    ensures r.Some? ==> from <= r.value < |ds| && ds[r.value].None?
    ensures r.Some? ==> forall k :: from <= k < r.value ==> ds[k].Some?
    ensures r.None? ==> forall k :: from <= k < |ds| ==> ds[k].Some?
    decreases |ds| - from
  {
    if from >= |ds| then None
    else if ds[from].None? then Some(from)
    else FirstNone(ds, from + 1)
  }

  /** One record per entry, numbered from 0, from stamps that all decoded. */
  function Records(entries: seq<Raw>, ds: seq<Option<DateTime>>): (rs: seq<Record>)
    requires |ds| == |entries| && forall i :: 0 <= i < |ds| ==> ds[i].Some? && ValidDateTime(ds[i].value)
    ensures |rs| == |entries|
    ensures forall i :: 0 <= i < |rs| ==>
      && rs[i].id == i
      && WellDerived(rs[i])
      && rs[i].date == ds[i].value
      && Split(rs[i].user, rs[i].message) == SplitSender(entries[i].span)
  {
    seq(|entries|, i requires 0 <= i < |entries| => MakeRecord(i, ds[i].value, entries[i].span))
  }

  /** The (stamp, span) pairs of `s`. */
  function Entries(s: string): (es: seq<Raw>)
    ensures AllFit(es)
  {
    TokenizeStampsFit(s);
    Tokenize(s).entries
  }

  /** `preprocess(data)`: one record per stamp, in text order. It fails as a whole
      at the first stamp that does not decode; a text without stamps gives no records. */
  function Preprocess(s: string): (r: Result<seq<Record>, ParseError>)
    ensures r.Success? <==> forall i :: 0 <= i < |Entries(s)| ==> DecodeStamp(Entries(s)[i].stamp).Some?
    ensures r.Success? ==> |r.value| == |Entries(s)|
    ensures r.Success? ==> forall i :: 0 <= i < |r.value| ==>
      && r.value[i].id == i
      && WellDerived(r.value[i])
      && DecodeStamp(Entries(s)[i].stamp) == Some(r.value[i].date)
      && Split(r.value[i].user, r.value[i].message) == SplitSender(Entries(s)[i].span)
    ensures r.Failure? ==> var k := r.error.index;
      && k < |Entries(s)|
      && DecodeStamp(Entries(s)[k].stamp).None?
      && (forall j :: 0 <= j < k ==> DecodeStamp(Entries(s)[j].stamp).Some?)
      && r.error.text == Strip(Concat(Entries(s)[k].stamp), Brackets)
  {
    var es := Entries(s);
    var ds := Decoded(es);
    match FirstNone(ds, 0)
    case Some(k) => Failure(BadTimestamp(k, Strip(Concat(es[k].stamp), Brackets)))
    case None =>
      Success(Records(es, ds))
  }

  /** One record per occurrence of the stamp pattern in the text. */
  lemma {:induction false} PreprocessRowCount(s: string)
    requires Preprocess(s).Success?
    ensures |Preprocess(s).value| == CountStarts(s)
  {
    TokenizeFindsEveryStamp(s);
  }

  /** A text in which the stamp pattern never matches (the empty text among them)
      parses to no records rather than failing. */
  lemma {:induction false} PreprocessWithoutStamps(s: string)
    requires CountStarts(s) == 0
    ensures Preprocess(s) == Success([])
  {
    TokenizeFindsEveryStamp(s);
  }

  /** Whatever precedes the first stamp has no effect on the result. */
  lemma {:induction false} PreprocessIgnoresHead(s: string)
    ensures |Tokenize(s).head| <= |s|
    ensures Preprocess(s[|Tokenize(s).head|..]) == Preprocess(s)
  {
    DropHead(s);
  }
}
