/**
  Character classes, decimal numerals, whitespace tokenising, ASCII lower-casing,
  substring search and code-point string order, as the chat analyzer's Python code
  relies on them (`\s`, `\d`, `str.split()`, `str.lower()`, `in`, `str.__lt__`, `int()`,
  `str()`).
 */
module Text {

  /** The characters for which Python's `str.isspace()` holds: what `\s` matches in a
      `str` pattern and what `str.split()` with no argument splits on. */
  predicate IsSpace(c: char) {
    || ('\t' <= c <= '\r')
    || ('\U{1C}' <= c <= '\U{1F}')
    || c == ' '
    || c == '\U{85}'
    || c == '\U{A0}'
    || c == '\U{1680}'
    || ('\U{2000}' <= c <= '\U{200A}')
    || c == '\U{2028}'
    || c == '\U{2029}'
    || c == '\U{202F}'
    || c == '\U{205F}'
    || c == '\U{3000}'
  }

  /** An ASCII decimal digit. */
  predicate IsDigit(c: char) {
    '0' <= c <= '9'
  }

  predicate AllDigits(s: string) {
    forall i :: 0 <= i < |s| ==> IsDigit(s[i])
  }

  predicate NoSpace(s: string) {
    forall i :: 0 <= i < |s| ==> !IsSpace(s[i])
  }

  // ---------------------------------------------------------------------------
  // Decimal numerals: Python's int(s) on a digit string and str(n) on an int.
  // ---------------------------------------------------------------------------

  function DigitValue(c: char): (d: nat)
    requires IsDigit(c)
    ensures d < 10
  {
    (c as int) - ('0' as int)
  }

  function DigitChar(d: nat): (c: char)
    requires d < 10
    ensures IsDigit(c) && DigitValue(c) == d
  {
    (('0' as int) + d) as char
  }

  /** The value of a digit string read most significant digit first; leading
      zeros are allowed, as `int("09") == 9`. */
  function ParseDec(s: string): nat
    requires AllDigits(s)
  {
    if |s| == 0 then 0 else ParseDec(s[..|s| - 1]) * 10 + DigitValue(s[|s| - 1])
  }

  /** The shortest decimal numeral of `n`, as `str(n)` writes it. */
  function NatToString(n: nat): (s: string)
    ensures |s| >= 1 && AllDigits(s)
    ensures n > 0 ==> s[0] != '0'
  {
    if n < 10 then [DigitChar(n)] else NatToString(n / 10) + [DigitChar(n % 10)]
  }

  /** `str(i)` for a possibly negative integer. */
  function IntToString(i: int): (s: string)
    ensures |s| >= 1
  {
    if i < 0 then "-" + NatToString(-i) else NatToString(i)
  }

  /** Reading back a written numeral gives the number. */
  lemma {:induction false} ParseNatToString(n: nat)
    ensures ParseDec(NatToString(n)) == n
  {
    if n >= 10 {
      var s := NatToString(n);
      assert s[..|s| - 1] == NatToString(n / 10);
      ParseNatToString(n / 10);
    }
  }

  /** Two-digit numerals are read positionally. */
  lemma ParseTwoDigits(s: string)
    requires |s| == 2 && AllDigits(s)
    ensures ParseDec(s) == DigitValue(s[0]) * 10 + DigitValue(s[1])
  {
    var p := s[..1];
    assert p[..0] == [] && p[0] == s[0];
    assert ParseDec(p) == DigitValue(s[0]);
    assert s[..|s| - 1] == p;
  }

  lemma ParseOneDigit(s: string)
    requires |s| == 1 && AllDigits(s)
    ensures ParseDec(s) == DigitValue(s[0])
  {
    assert s[..0] == [];
  }

  /** The number of digits `t` starts with. */
  function DigitRun(t: string): (n: nat)
    ensures n <= |t| && AllDigits(t[..n])
    ensures n == |t| || !IsDigit(t[n])
  {
    if |t| > 0 && IsDigit(t[0]) then
      var n := 1 + DigitRun(t[1..]);
      assert t[..n] == [t[0]] + t[1..][..n - 1];
      n
    else 0
  }

  lemma DigitRunOfDigitsThen(d: string, u: string)
    requires AllDigits(d)
    requires u == [] || !IsDigit(u[0])
    ensures DigitRun(d + u) == |d|
  {
    if |d| > 0 {
      assert (d + u)[1..] == d[1..] + u;
      DigitRunOfDigitsThen(d[1..], u);
    }
  }

  // ---------------------------------------------------------------------------
  // Whitespace tokenising: Python's str.split() with no argument.
  // ---------------------------------------------------------------------------

  /** The number of non-whitespace characters `s` starts with. */
  function WordRun(s: string): (n: nat)
    ensures n <= |s|
    ensures forall i :: 0 <= i < n ==> !IsSpace(s[i])
    ensures n == |s| || IsSpace(s[n])
  {
    if |s| > 0 && !IsSpace(s[0]) then 1 + WordRun(s[1..]) else 0
  }

  /** The maximal runs of non-whitespace characters of `s`, left to right. */
  function Words(s: string): seq<string>
  {
    if |s| == 0 then []
    else if IsSpace(s[0]) then Words(s[1..])
    else [s[..WordRun(s)]] + Words(s[WordRun(s)..])
  }

  /** Every token of `str.split()` is non-empty and free of whitespace. */
  lemma {:induction false} WordsAreSpaceFree(s: string)
    ensures forall i :: 0 <= i < |Words(s)| ==> |Words(s)[i]| >= 1 && NoSpace(Words(s)[i])
  {
    if |s| > 0 {
      if IsSpace(s[0]) {
        WordsAreSpaceFree(s[1..]);
      } else {
        WordsAreSpaceFree(s[WordRun(s)..]);
      }
    }
  }

  /** The words joined with single spaces, the inverse direction of `Words`. */
  function JoinWords(ws: seq<string>): string
  {
    if |ws| == 0 then "" else if |ws| == 1 then ws[0] else ws[0] + " " + JoinWords(ws[1..])
  }

  lemma {:induction false} WordRunOfWordThenRest(w: string, rest: string)
    requires NoSpace(w)
    requires rest == [] || IsSpace(rest[0])
    ensures WordRun(w + rest) == |w|
    decreases |w|
  {
    if |w| > 0 {
      assert (w + rest)[1..] == w[1..] + rest;
      WordRunOfWordThenRest(w[1..], rest);
    }
  }

  /** A word followed by whitespace (or nothing) is the first token. */
  lemma WordsOfWordThenRest(w: string, rest: string)
    requires |w| >= 1 && NoSpace(w)
    requires rest == [] || IsSpace(rest[0])
    ensures Words(w + rest) == [w] + Words(rest)
  {
    var s := w + rest;
    WordRunOfWordThenRest(w, rest);
    assert s[..|w|] == w;
    assert s[|w|..] == rest;
  }

  /** Splitting a space-joined list of non-empty, space-free words gives the list back. */
  lemma {:induction false} WordsOfJoinWords(ws: seq<string>)
    requires forall i :: 0 <= i < |ws| ==> |ws[i]| >= 1 && NoSpace(ws[i])
    ensures Words(JoinWords(ws)) == ws
  {
    if |ws| == 1 {
      WordsOfSingleWord(ws[0]);
    } else if |ws| > 1 {
      var w, rest := ws[0], ws[1..];
      assert ws == [w] + rest;
      WordsOfJoinWords(rest);
      WordsOfJoinWordsStep(w, rest);
      assert Words(JoinWords([w] + rest)) == [w] + rest;
    }
  }

  lemma WordsOfSingleWord(w: string)
    requires |w| >= 1 && NoSpace(w)
    ensures JoinWords([w]) == w
    ensures Words(w) == [w]
  {
    assert w + [] == w;
    WordsOfWordThenRest(w, []);
    assert Words(w) == [w] + Words([]);
  }

  lemma WordsOfJoinWordsStep(w: string, ws: seq<string>)
    requires |w| >= 1 && NoSpace(w) && |ws| >= 1
    ensures JoinWords([w] + ws) == w + " " + JoinWords(ws)
    ensures Words(JoinWords([w] + ws)) == [w] + Words(JoinWords(ws))
  {
    var tail := JoinWords(ws);
    var rest := " " + tail;
    assert ([w] + ws)[1..] == ws;
    assert JoinWords([w] + ws) == w + rest;
    WordsOfWordThenRest(w, rest);
    assert rest[1..] == tail;
  }

  /** Text made only of whitespace. */
  predicate Blank(s: string) {
    forall i :: 0 <= i < |s| ==> IsSpace(s[i])
  }

  /** Whitespace alone splits into no tokens. */
  lemma {:induction false} WordsOfBlank(g: string)
    requires Blank(g)
    ensures Words(g) == []
  {
    if |g| > 0 {
      assert Blank(g[1..]);
      WordsOfBlank(g[1..]);
    }
  }

  /** A word that stops before the end of `a` stops at the same place in `a + b`. */
  lemma {:induction false} WordRunOfPrefix(a: string, b: string)
    requires WordRun(a) < |a|
    ensures WordRun(a + b) == WordRun(a)
  {
    if !IsSpace(a[0]) {
      assert (a + b)[1..] == a[1..] + b;
      WordRunOfPrefix(a[1..], b);
    }
  }

  /** Splitting is compositional at a whitespace boundary: the tokens of `a + b`
      are those of `a` followed by those of `b` when `a` is empty or ends in
      whitespace. */
  lemma {:induction false} WordsOfAppend(a: string, b: string)
    requires a == [] || IsSpace(a[|a| - 1])
    ensures Words(a + b) == Words(a) + Words(b)
    decreases |a|
  {
    if |a| == 0 {
      assert a + b == b;
    } else if IsSpace(a[0]) {
      assert (a + b)[1..] == a[1..] + b;
      WordsOfAppend(a[1..], b);
    } else {
      var n := WordRun(a);
      WordRunOfPrefix(a, b);
      assert (a + b)[..n] == a[..n];
      assert (a + b)[n..] == a[n..] + b;
      WordsOfAppend(a[n..], b);
    }
  }

  /** The words `ws` laid out between the whitespace gaps `gaps`: a leading gap,
      then each word followed by its gap. */
  function Spaced(ws: seq<string>, gaps: seq<string>): string
    requires |gaps| == |ws| + 1
  {
    if |ws| == 0 then gaps[0] else gaps[0] + ws[0] + Spaced(ws[1..], gaps[1..])
  }

  /** Splitting undoes any layout of non-empty, space-free words with whitespace
      gaps between them, non-empty inside and possibly empty at both ends. */
  lemma {:induction false} WordsOfSpaced(ws: seq<string>, gaps: seq<string>)
    requires |gaps| == |ws| + 1
    requires forall i :: 0 <= i < |ws| ==> |ws[i]| >= 1 && NoSpace(ws[i])
    requires forall k :: 0 <= k < |gaps| ==> Blank(gaps[k])
    requires forall k :: 0 < k < |ws| ==> |gaps[k]| >= 1
    ensures Words(Spaced(ws, gaps)) == ws
  {
    WordsOfBlank(gaps[0]);
    if |ws| > 0 {
      var rest := Spaced(ws[1..], gaps[1..]);
      WordsOfSpaced(ws[1..], gaps[1..]);
      if |ws| > 1 {
        assert rest[0] == gaps[1][0];
      } else {
        assert rest == gaps[1];
      }
      WordsOfWordThenRest(ws[0], rest);
      assert gaps[0] + ws[0] + rest == gaps[0] + (ws[0] + rest);
      WordsOfAppend(gaps[0], ws[0] + rest);
      assert ws == [ws[0]] + ws[1..];
    }
  }

  /** The number of positions where a word begins: a non-space character at the
      start of `s` (when `afterSpace`) or right after a whitespace character. */
  function WordStarts(s: string, afterSpace: bool): nat
  {
    if |s| == 0 then 0
    else (if afterSpace && !IsSpace(s[0]) then 1 else 0) + WordStarts(s[1..], IsSpace(s[0]))
  }

  lemma {:induction false} WordStartsInsideWord(s: string)
    requires |s| > 0 && !IsSpace(s[0])
    ensures WordStarts(s, false) == WordStarts(s[WordRun(s)..], true)
  {
    var n := WordRun(s);
    if n == |s| {
      if |s| > 1 {
        WordStartsInsideWord(s[1..]);
        assert s[1..][WordRun(s[1..])..] == [];
      }
    } else if n == 1 {
      assert IsSpace(s[1]);
    } else {
      assert s[1..][n - 1..] == s[n..];
      WordStartsInsideWord(s[1..]);
    }
  }

  /** `str.split()` yields one token per word start, which is how `fetch_stats`
      counts words. */
  lemma {:induction false} WordsCountsWordStarts(s: string)
    ensures |Words(s)| == WordStarts(s, true)
  {
    if |s| > 0 {
      if IsSpace(s[0]) {
        WordsCountsWordStarts(s[1..]);
      } else {
        WordStartsInsideWord(s);
        WordsCountsWordStarts(s[WordRun(s)..]);
      }
    }
  }

  // ---------------------------------------------------------------------------
  // Lower-casing (ASCII letters) and substring search.
  // ---------------------------------------------------------------------------

  function LowerChar(c: char): char
  {
    if 'A' <= c <= 'Z' then ((c as int) + 32) as char else c
  }

  /** `s` with every ASCII capital replaced by its small letter. */
  function Lower(s: string): (r: string)
    ensures |r| == |s|
    ensures forall i :: 0 <= i < |s| ==> !('A' <= r[i] <= 'Z')
    ensures forall i :: 0 <= i < |s| ==> ('A' <= s[i] <= 'Z' ==> r[i] as int == s[i] as int + 32)
    ensures forall i :: 0 <= i < |s| ==> (!('A' <= s[i] <= 'Z') ==> r[i] == s[i])
  {
    seq(|s|, i requires 0 <= i < |s| => LowerChar(s[i]))
  }

  /** Whether `w` occurs in `text` at position `i`. */
  predicate OccursAt(text: string, w: string, i: nat)
  {
    i + |w| <= |text| && text[i..i + |w|] == w
  }

  /** Python's `w in text` for two strings. */
  predicate Contains(text: string, w: string)
  {
    (|w| <= |text| && text[..|w|] == w) || (|text| > 0 && Contains(text[1..], w))
  }

  /** `Contains` holds exactly when `w` occurs at some position of `text`. */
  lemma {:induction false} ContainsIffOccurs(text: string, w: string)
    ensures Contains(text, w) <==> exists i: nat :: OccursAt(text, w, i)
  {
    if |text| > 0 {
      ContainsIffOccurs(text[1..], w);
      if Contains(text[1..], w) {
        var i: nat :| OccursAt(text[1..], w, i);
        assert text[1..][i..i + |w|] == text[i + 1..i + 1 + |w|];
        assert OccursAt(text, w, i + 1);
      }
      if |w| <= |text| && text[..|w|] == w {
        assert OccursAt(text, w, 0);
      }
      if i: nat :| OccursAt(text, w, i) {
        if i == 0 {
          assert text[..|w|] == text[0..|w|];
        } else {
          assert text[1..][i - 1..i - 1 + |w|] == text[i..i + |w|];
          assert OccursAt(text[1..], w, i - 1);
        }
      }
    } else if |w| == 0 {
      assert OccursAt(text, w, 0);
    } else {
      assert forall i: nat :: !OccursAt(text, w, i);
    }
  }

  // ---------------------------------------------------------------------------
  // Python's string order: lexicographic by code point, a proper prefix first.
  // ---------------------------------------------------------------------------

  predicate StrLess(a: string, b: string)
  {
    if |a| == 0 then |b| > 0
    else |b| > 0 && (a[0] < b[0] || (a[0] == b[0] && StrLess(a[1..], b[1..])))
  }

  lemma {:induction false} StrLessIrreflexive(a: string)
    ensures !StrLess(a, a)
  {
    if |a| > 0 {
      StrLessIrreflexive(a[1..]);
    }
  }

  /** Any two different strings are ordered one way or the other. */
  lemma {:induction false} StrLessTotal(a: string, b: string)
    requires a != b
    ensures StrLess(a, b) || StrLess(b, a)
  {
    if |a| > 0 && |b| > 0 && a[0] == b[0] {
      assert a == [a[0]] + a[1..] && b == [b[0]] + b[1..];
      StrLessTotal(a[1..], b[1..]);
    }
  }

  lemma {:induction false} StrLessTransitive(a: string, b: string, c: string)
    requires StrLess(a, b) && StrLess(b, c)
    ensures StrLess(a, c)
  {
    if |a| > 0 && a[0] == b[0] && b[0] == c[0] {
      StrLessTransitive(a[1..], b[1..], c[1..]);
    }
  }

  lemma StrLessAsymmetric(a: string, b: string)
    requires StrLess(a, b)
    ensures !StrLess(b, a)
  {
    if StrLess(b, a) {
      StrLessTransitive(a, b, a);
      StrLessIrreflexive(a);
    }
  }
}
