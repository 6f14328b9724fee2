/**
  The timestamp tokeniser of `preprocess`: the bracketed stamp pattern
  `\[\d{1,2}/\d{1,2}/\d{2,4},\s\d{1,2}:\d{2}:\d{2}\]` as a sequence of atoms, a
  matcher for it, and the left-to-right scan that `re.split` and `re.findall` share,
  which cuts a chat export into (stamp, following text) pairs.
 */
module Stamps {
  import opened Wrappers
  import opened Text

  /** One element of the stamp pattern: a literal character, a run of `lo` to `hi`
      decimal digits (`\d{lo,hi}`), or one whitespace character (`\s`). */
  datatype Atom = Lit(c: char) | Digits(lo: nat, hi: nat) | Space

  /** `\[\d{1,2}/\d{1,2}/\d{2,4},\s\d{1,2}:\d{2}:\d{2}\]`, atom by atom. */
  const StampPattern: seq<Atom> :=
    [Lit('['), Digits(1, 2), Lit('/'), Digits(1, 2), Lit('/'), Digits(2, 4), Lit(','), Space,
     Digits(1, 2), Lit(':'), Digits(2, 2), Lit(':'), Digits(2, 2), Lit(']')]

  /** Whether `piece` is a text that atom `a` matches on its own. */
  predicate Fits(a: Atom, piece: string) {
    match a
    case Lit(c) => piece == [c]
    case Space => |piece| == 1 && IsSpace(piece[0])
    case Digits(lo, hi) => lo <= |piece| <= hi && AllDigits(piece)
  }

  /** Whether `pieces` matches `pat` one atom per piece. */
  predicate FitsAll(pat: seq<Atom>, pieces: seq<string>) {
    |pieces| == |pat| && forall i :: 0 <= i < |pat| ==> Fits(pat[i], pieces[i])
  }

  /** An atom that cannot continue a run of digits. */
  predicate StopsDigits(a: Atom) {
    a.Space? || (a.Lit? && !IsDigit(a.c))
  }

  /** Every digit run of the pattern is followed by an atom that cannot match a digit,
      so the greedy quantifier never has to give digits back: matching a run of
      digits maximally is what the backtracking regular expression engine does too. */
  predicate Separated(pat: seq<Atom>) {
    && (forall i :: 0 <= i < |pat| - 1 && pat[i].Digits? ==> StopsDigits(pat[i + 1]))
    && (|pat| > 0 ==> !pat[|pat| - 1].Digits?)
  }

  function Concat(pieces: seq<string>): string {
    if |pieces| == 0 then "" else pieces[0] + Concat(pieces[1..])
  }

  predicate IsPrefix(p: string, t: string) {
    |p| <= |t| && t[..|p|] == p
  }

  /** How many characters atom `a` takes from the front of `t`, if it matches there. */
  function AtomLength(a: Atom, t: string): (r: Option<nat>)
    ensures r.Some? ==> r.value <= |t| && Fits(a, t[..r.value])
  {
    match a
    case Lit(c) => if |t| > 0 && t[0] == c then Some(1) else None
    case Space => if |t| > 0 && IsSpace(t[0]) then Some(1) else None
    case Digits(lo, hi) => var n := DigitRun(t); if lo <= n <= hi then Some(n) else None
  }

  /** Matches `pat` at the front of `t`, returning the text each atom took. */
  function MatchAtoms(pat: seq<Atom>, t: string): (r: Option<seq<string>>)
    ensures r.Some? ==> FitsAll(pat, r.value) && IsPrefix(Concat(r.value), t)
    decreases |pat|
  {
    if |pat| == 0 then Some([])
    else match AtomLength(pat[0], t)
      case None => None
      case Some(n) =>
        match MatchAtoms(pat[1..], t[n..])
        case None => None
        case Some(rest) =>
          var pieces := [t[..n]] + rest;
          assert pieces[1..] == rest;
          assert Concat(pieces) == t[..n] + Concat(rest);
          assert t[..n + |Concat(rest)|] == t[..n] + t[n..][..|Concat(rest)|];
          Some(pieces)
  }

  lemma FitsNoDigitFirst(a: Atom, piece: string)
    requires StopsDigits(a) && Fits(a, piece)
    ensures |piece| > 0 && !IsDigit(piece[0])
  {
  }

  /** A separated pattern matches any text that starts with pieces fitting it, and
      returns exactly those pieces: the split of a match into atoms is unique. */
  lemma {:induction false} MatchAtomsComplete(pat: seq<Atom>, pieces: seq<string>, rest: string)
    requires Separated(pat) && FitsAll(pat, pieces)
    ensures MatchAtoms(pat, Concat(pieces) + rest) == Some(pieces)
    decreases |pat|
  {
    if |pat| > 0 {
      var t := Concat(pieces) + rest;
      var p0 := pieces[0];
      var u := Concat(pieces[1..]) + rest;
      assert t == p0 + u;
      if pat[0].Digits? {
        assert |pat| >= 2 && StopsDigits(pat[1]);
        FitsNoDigitFirst(pat[1], pieces[1]);
        assert Concat(pieces[1..]) == pieces[1] + Concat(pieces[2..]);
        DigitRunOfDigitsThen(p0, u);
      }
      assert AtomLength(pat[0], t) == Some(|p0|);
      assert t[|p0|..] == u;
      assert Separated(pat[1..]);
      assert FitsAll(pat[1..], pieces[1..]);
      MatchAtomsComplete(pat[1..], pieces[1..], rest);
      assert [t[..|p0|]] + pieces[1..] == pieces;
    }
  }

  // ---------------------------------------------------------------------------
  // The stamp pattern.
  // ---------------------------------------------------------------------------

  lemma StampPatternSeparated()
    ensures Separated(StampPattern)
  {
  }

  /** `re` matching the stamp pattern at the start of `t`. */
  function Match(t: string): Option<seq<string>>
  {
    MatchAtoms(StampPattern, t)
  }

  /** The stamp pattern matches at the start of `t` exactly when `t` begins with
      pieces fitting it, and the match is made of those pieces. */
  lemma MatchIff(t: string, pieces: seq<string>)
    ensures Match(t) == Some(pieces) <==> FitsAll(StampPattern, pieces) && IsPrefix(Concat(pieces), t)
  {
    if FitsAll(StampPattern, pieces) && IsPrefix(Concat(pieces), t) {
      StampPatternSeparated();
      assert t == Concat(pieces) + t[|Concat(pieces)|..];
      MatchAtomsComplete(StampPattern, pieces, t[|Concat(pieces)|..]);
    }
  }

  lemma {:induction false} CharNotInPieces(pat: seq<Atom>, pieces: seq<string>, c: char)
    requires FitsAll(pat, pieces)
    requires !IsDigit(c) && !IsSpace(c) && Lit(c) !in pat
    ensures c !in Concat(pieces)
  {
    if |pat| > 0 {
      assert pat[0] != Lit(c);
      assert c !in pieces[0];
      assert Lit(c) !in pat[1..];
      CharNotInPieces(pat[1..], pieces[1..], c);
    }
  }

  /** A matched stamp starts with `[` and has no other `[`, so no match can begin
      inside another one. */
  lemma MatchedStampShape(pieces: seq<string>)
    requires FitsAll(StampPattern, pieces)
    ensures |Concat(pieces)| >= 2 && Concat(pieces)[0] == '['
    ensures forall j :: 1 <= j < |Concat(pieces)| ==> Concat(pieces)[j] != '['
  {
    var tail := pieces[1..];
    assert FitsAll(StampPattern[1..], tail);
    assert Lit('[') !in StampPattern[1..];
    CharNotInPieces(StampPattern[1..], tail, '[');
    assert Concat(pieces) == "[" + Concat(tail);
    assert Concat(tail) == pieces[1] + Concat(tail[1..]);
  }

  lemma MatchNeedsBracket(t: string)
    ensures Match(t).Some? ==> |t| > 0 && t[0] == '['
  {
    if Match(t).Some? {
      MatchedStampShape(Match(t).value);
    }
  }

  // ---------------------------------------------------------------------------
  // The left-to-right scan.
  // ---------------------------------------------------------------------------

  /** A matched stamp (as its pieces) and the text up to the next stamp. */
  datatype Raw = Raw(stamp: seq<string>, span: string)

  /** The text before the first stamp, and the stamps with their spans. */
  datatype Tokens = Tokens(head: string, entries: seq<Raw>)

  /** The scan of `re.split(pattern, s)` and `re.findall(pattern, s)`: at each
      position try the pattern; on a match emit it and resume after it, otherwise
      move on by one character. */
  function Tokenize(s: string): Tokens
    decreases |s|
  {
    if |s| == 0 then Tokens("", [])
    else match Match(s)
      case Some(pieces) =>
        MatchedStampShape(pieces);
        var rest := Tokenize(s[|Concat(pieces)|..]);
        Tokens("", [Raw(pieces, rest.head)] + rest.entries)
      case None =>
        var rest := Tokenize(s[1..]);
        Tokens([s[0]] + rest.head, rest.entries)
  }

  /** The stamps and spans of `entries`, concatenated back. */
  function Joined(entries: seq<Raw>): string {
    if |entries| == 0 then "" else Concat(entries[0].stamp) + entries[0].span + Joined(entries[1..])
  }

  /** The scan at a stamp: the stamp becomes an entry whose span is the head of
      the scan of what follows it. */
  lemma TokenizeAtStamp(s: string, pieces: seq<string>)
    requires Match(s) == Some(pieces)
    ensures 2 <= |Concat(pieces)| <= |s| && s[..|Concat(pieces)|] == Concat(pieces)
    ensures var rest := Tokenize(s[|Concat(pieces)|..]);
      Tokenize(s) == Tokens("", [Raw(pieces, rest.head)] + rest.entries)
  {
    MatchIff(s, pieces);
    MatchedStampShape(pieces);
  }

  lemma JoinedCons(r: Raw, es: seq<Raw>)
    ensures Joined([r] + es) == Concat(r.stamp) + r.span + Joined(es)
  {
    assert ([r] + es)[1..] == es;
  }

  /** One stamp in front of a token list that spells the rest of the text. */
  lemma RoundTripStep(s: string, pieces: seq<string>, rest: Tokens, t: Tokens)
    requires |Concat(pieces)| <= |s| && s[..|Concat(pieces)|] == Concat(pieces)
    requires rest.head + Joined(rest.entries) == s[|Concat(pieces)|..]
    requires t == Tokens("", [Raw(pieces, rest.head)] + rest.entries)
    ensures t.head + Joined(t.entries) == s
  {
    var c := Concat(pieces);
    JoinedCons(Raw(pieces, rest.head), rest.entries);
    assert s == s[..|c|] + s[|c|..];
    assert c + rest.head + Joined(rest.entries) == c + (rest.head + Joined(rest.entries));
  }

  /** Nothing is lost or reordered: the head, stamps and spans spell the input. */
  lemma {:induction false} TokenizeRoundTrip(s: string)
    ensures Tokenize(s).head + Joined(Tokenize(s).entries) == s
    decreases |s|
  {
    if |s| > 0 {
      match Match(s)
      case Some(pieces) =>
        TokenizeAtStamp(s, pieces);
        TokenizeRoundTrip(s[|Concat(pieces)|..]);
        RoundTripStep(s, pieces, Tokenize(s[|Concat(pieces)|..]), Tokenize(s));
      case None =>
        TokenizeRoundTrip(s[1..]);
        assert s == [s[0]] + s[1..];
    }
  }

  /** Every stamp found fits the pattern. */
  lemma {:induction false} TokenizeStampsFit(s: string)
    ensures forall i :: 0 <= i < |Tokenize(s).entries| ==> FitsAll(StampPattern, Tokenize(s).entries[i].stamp)
    decreases |s|
  {
    if |s| > 0 {
      match Match(s)
      case Some(pieces) =>
        MatchedStampShape(pieces);
        TokenizeStampsFit(s[|Concat(pieces)|..]);
      case None =>
        TokenizeStampsFit(s[1..]);
    }
  }

  /** No stamp starts anywhere in the head. */
  lemma {:induction false} HeadHasNoStamp(s: string)
    ensures |Tokenize(s).head| <= |s|
    ensures forall j :: 0 <= j < |Tokenize(s).head| ==> Match(s[j..]).None?
    decreases |s|
  {
    if |s| > 0 && Match(s).None? {
      HeadHasNoStamp(s[1..]);
      forall j | 1 <= j < |Tokenize(s).head|
        ensures Match(s[j..]).None?
      {
        assert s[1..][j - 1..] == s[j..];
      }
      assert s[0..] == s;
    }
  }

  /** The text before the first stamp contributes nothing: cutting it off leaves
      the same stamps and spans and an empty head. */
  lemma {:induction false} DropHead(s: string)
    ensures |Tokenize(s).head| <= |s|
    ensures Tokenize(s[|Tokenize(s).head|..]) == Tokens("", Tokenize(s).entries)
    decreases |s|
  {
    if |s| > 0 {
      match Match(s)
      case Some(pieces) =>
        assert s[0..] == s;
      case None =>
        DropHead(s[1..]);
        var h := Tokenize(s[1..]).head;
        assert s[1..][|h|..] == s[|h| + 1..];
    }
  }

  /** The number of positions of `s` at which the stamp pattern matches. */
  function CountStarts(s: string): nat {
    if |s| == 0 then 0 else (if Match(s).Some? then 1 else 0) + CountStarts(s[1..])
  }

  /** A stretch without '[' holds no stamp start. */
  lemma {:induction false} CountStartsSkip(s: string, k: nat)
    requires k <= |s|
    requires forall j :: 0 <= j < k ==> s[j] != '['
    ensures CountStarts(s) == CountStarts(s[k..])
  {
    if k > 0 {
      MatchNeedsBracket(s);
      assert forall j :: 0 <= j < k - 1 ==> s[1..][j] == s[j + 1];
      CountStartsSkip(s[1..], k - 1);
      assert s[1..][k - 1..] == s[k..];
    }
  }

  /** The text a stamp match covers has no '[' after its first character. */
  lemma MatchCoversNoBracket(s: string, pieces: seq<string>)
    requires Match(s) == Some(pieces)
    ensures 2 <= |Concat(pieces)| <= |s|
    ensures forall j :: 1 <= j < |Concat(pieces)| ==> s[j] != '['
  {
    MatchIff(s, pieces);
    MatchedStampShape(pieces);
    var c := Concat(pieces);
    assert s[..|c|] == c;
    forall j | 1 <= j < |c|
      ensures s[j] != '['
    {
      assert s[j] == s[..|c|][j];
    }
  }

  /** Inside a stamp no other stamp starts, so the count after its first
      character resumes past its end. */
  lemma CountInsideStamp(s: string, n: nat)
    requires 1 <= n <= |s|
    requires forall j :: 1 <= j < n ==> s[j] != '['
    ensures CountStarts(s[1..]) == CountStarts(s[n..])
  {
    assert forall j :: 0 <= j < n - 1 ==> s[1..][j] == s[j + 1];
    CountStartsSkip(s[1..], n - 1);
    assert s[1..][n - 1..] == s[n..];
  }

  /** Matches never overlap, so the scan finds every position where the pattern
      matches: one entry per occurrence of the stamp pattern in `s`. */
  lemma {:induction false} TokenizeFindsEveryStamp(s: string)
    ensures |Tokenize(s).entries| == CountStarts(s)
    decreases |s|
  {
    if |s| > 0 {
      match Match(s)
      case Some(pieces) =>
        MatchCoversNoBracket(s, pieces);
        CountInsideStamp(s, |Concat(pieces)|);
        TokenizeFindsEveryStamp(s[|Concat(pieces)|..]);
      case None =>
        TokenizeFindsEveryStamp(s[1..]);
    }
  }
}
