/** Exactly which printed paths the JSON path language reads back.  Parsing can
    lose brackets and characters but never make any, so a path that comes back
    whole was spelled without either loss. */
module PathRoundTrip {
  import opened Text
  import opened Decimal
  import opened Json
  import opened DiffPaths
  import opened JsonPath
  import opened DiffSelect

  function Count(p: char -> bool, s: string): nat {
    if s == "" then 0 else (if p(s[0]) then 1 else 0) + Count(p, s[1..])
  }

  lemma {:induction false} CountAppend(p: char -> bool, a: string, b: string)
    ensures Count(p, a + b) == Count(p, a) + Count(p, b)
    decreases |a|
  {
    if a == "" {
      assert a + b == b;
    } else {
      assert (a + b)[1..] == a[1..] + b;
      CountAppend(p, a[1..], b);
    }
  }

  lemma {:induction false} CountAll(p: char -> bool, s: string)
    ensures Count(p, s) <= |s|
    ensures (forall c :: c in s ==> p(c)) ==> Count(p, s) == |s|
    ensures (forall c :: c in s ==> !p(c)) ==> Count(p, s) == 0
    decreases |s|
  {
    if s != "" { CountAll(p, s[1..]); }
  }

  const IS_BRACKET: char -> bool := (c: char) => c == '['
  const IS_SOLID: char -> bool := (c: char) => c != '.'

  // ---------- what a list of segments weighs ----------

  /** A measure of one segment: the counted characters of its text. */
  function Weight(p: char -> bool, s: Segment): nat {
    match s
    case Key(k) => Count(p, k)
    case Index(i) => Count(p, "[" + Dec(i) + "]")
  }

  function Total(p: char -> bool, path: Path): nat {
    if path == [] then 0 else Total(p, path[..|path| - 1]) + Weight(p, path[|path| - 1])
  }

  lemma TotalStep(p: char -> bool, path: Path, s: Segment)
    ensures Total(p, path + [s]) == Total(p, path) + Weight(p, s)
  {
    assert (path + [s])[..|path|] == path;
  }

  lemma TotalFlush(p: char -> bool, segments: Path, current: string)
    ensures Total(p, Flush(segments, current)) == Total(p, segments) + Count(p, current)
  {
    if current != "" { TotalStep(p, segments, Key(current)); }
  }

  /** Printing adds only dots. */
  lemma {:induction false} PrintedWeight(p: char -> bool, path: Path)
    requires !p('.')
    ensures Count(p, PrintPath(path)) == Total(p, path)
    decreases |path|
  {
    if path != [] {
      hide Dec;
      var front, s := path[..|path| - 1], path[|path| - 1];
      PrintedWeight(p, front);
      match s
      case Key(k) =>
        CountAppend(p, PrintPath(front) + ".", k);
        CountAppend(p, PrintPath(front), ".");
        assert Count(p, ".") == 0 by { assert "."[1..] == ""; }
      case Index(i) =>
        assert PrintPath(path) == PrintPath(front) + ("[" + Dec(i) + "]");
        CountAppend(p, PrintPath(front), "[" + Dec(i) + "]");
    }
  }

  // ---------- trimming never adds ----------

  lemma {:induction false} TrimQuotesKeeps(p: char -> bool, s: string)
    ensures Count(p, TrimQuotes(s)) <= Count(p, s)
    decreases |s|
  {
    if s != "" && s[0] in {'\'', '"'} {
      TrimQuotesKeeps(p, s[1..]);
    } else if s != "" && s[|s| - 1] in {'\'', '"'} {
      TrimQuotesKeeps(p, s[..|s| - 1]);
      assert s == s[..|s| - 1] + [s[|s| - 1]];
      CountAppend(p, s[..|s| - 1], [s[|s| - 1]]);
    }
  }

  lemma {:induction false} TrimStartKeeps(p: char -> bool, s: string)
    requires forall c :: IsWhitespace(c) ==> p(c)
    ensures Count(p, TrimStart(s)) <= Count(p, s)
    ensures s != "" && IsWhitespace(s[0]) ==> Count(p, TrimStart(s)) < Count(p, s)
    decreases |s|
  {
    if s != "" && IsWhitespace(s[0]) { TrimStartKeeps(p, s[1..]); }
  }

  lemma {:induction false} TrimEndKeeps(p: char -> bool, s: string)
    requires forall c :: IsWhitespace(c) ==> p(c)
    ensures Count(p, TrimEnd(s)) <= Count(p, s)
    ensures s != "" && IsWhitespace(s[|s| - 1]) ==> Count(p, TrimEnd(s)) < Count(p, s)
    decreases |s|
  {
    if s != "" && IsWhitespace(s[|s| - 1]) {
      var c := s[|s| - 1];
      TrimEndKeeps(p, s[..|s| - 1]);
      assert s == s[..|s| - 1] + [c];
      CountAppend(p, s[..|s| - 1], [c]);
      assert [c][1..] == "";
    }
  }

  lemma TrimLoses(s: string)
    ensures Count(IS_SOLID, Trim(s)) <= Count(IS_SOLID, s)
    ensures !Trimmed(s) ==> Count(IS_SOLID, Trim(s)) < Count(IS_SOLID, s)
  {
    hide Count, TrimEnd;
    TrimStartKeeps(IS_SOLID, s);
    TrimEndKeeps(IS_SOLID, TrimStart(s));
    if s != "" && !IsWhitespace(s[0]) { assert TrimStart(s) == s; }
  }

  lemma DollarLoses(t: string)
    ensures Count(IS_SOLID, StripDollar(t)) <= Count(IS_SOLID, t)
    ensures "$" <= t ==> Count(IS_SOLID, StripDollar(t)) < Count(IS_SOLID, t)
  {
    if "$" <= t {
      assert t[0] == '$' && t == [t[0]] + t[1..];
      assert Count(IS_SOLID, t) == 1 + Count(IS_SOLID, t[1..]);
      if "$." <= t { assert t[1..][1..] == t[2..]; }
    }
  }

  /** Trimming and stripping `$` lose a counted character whenever they lose any. */
  lemma StripLoses(s: string)
    ensures Count(IS_SOLID, StripDollar(Trim(s))) <= Count(IS_SOLID, s)
    ensures !Trimmed(s) || "$" <= s ==> Count(IS_SOLID, StripDollar(Trim(s))) < Count(IS_SOLID, s)
  {
    hide Count, StripDollar;
    TrimLoses(s);
    DollarLoses(Trim(s));
    if Trimmed(s) { TrimFixed(s); }
  }

  lemma StripKeeps(p: char -> bool, s: string)
    ensures Count(p, StripDollar(Trim(s))) <= Count(p, s)
  {
    hide Trim, Count;
    var t := Trim(s);
    TrimKeeps(p, s);
    if "$." <= t {
      CountSplit(p, t, 2);
    } else if "$" <= t {
      CountSplit(p, t, 1);
    }
  }

  lemma CountSplit(p: char -> bool, s: string, i: nat)
    requires i <= |s|
    ensures Count(p, s) == Count(p, s[..i]) + Count(p, s[i..])
  {
    assert s == s[..i] + s[i..];
    CountAppend(p, s[..i], s[i..]);
  }

  lemma TrimKeeps(p: char -> bool, s: string)
    ensures Count(p, Trim(s)) <= Count(p, s)
  {
    hide Count;
    var t := TrimStart(s);
    var u := TrimEnd(t);
    CountSplit(p, s, |s| - |t|);
    assert s[|s| - |t|..] == t;
    CountSplit(p, t, |u|);
    assert t[..|u|] == u;
  }

  // ---------- parsing never adds ----------

  lemma {:induction false} DecShortest(s: string)
    requires s != "" && AllDigits(s)
    ensures |Dec(ValueOf(s))| <= |s|
    decreases |s|
  {
    DecWidth(ValueOf(s), |s|);
    ValueBelow(s);
  }

  lemma {:induction false} ValueBelow(s: string)
    requires AllDigits(s)
    ensures ValueOf(s) < Pow10(|s|)
    decreases |s|
  {
    if s != "" { ValueBelow(s[..|s| - 1]); }
  }

  lemma BracketsOfIndex(i: nat)
    ensures Weight(IS_BRACKET, Index(i)) == 1
    ensures Weight(IS_SOLID, Index(i)) == |Dec(i)| + 2
  {
    var t := "[" + Dec(i) + "]";
    assert t[0] == '[' && t[1..] == Dec(i) + "]";
    CountAll(IS_BRACKET, t[1..]);
    CountAll(IS_SOLID, t);
  }

  /** A bracketed segment weighs no more than the brackets it came from, and a
      bracketed key weighs a bracket less. */
  lemma BracketedWeight(content: string)
    requires Bracketed(content).Some?
    ensures var s := Bracketed(content).value;
            && Weight(IS_SOLID, s) <= Count(IS_SOLID, content) + 2
            && Weight(IS_BRACKET, s) <= Count(IS_BRACKET, content) + 1
            && (s.Key? ==> Weight(IS_BRACKET, s) <= Count(IS_BRACKET, content))
            && (s.Index? ==> s.index <= U64_MAX)
  {
    var index := TrimQuotes(Trim(content));
    TrimKeeps(IS_SOLID, content);
    TrimQuotesKeeps(IS_SOLID, Trim(content));
    TrimKeeps(IS_BRACKET, content);
    TrimQuotesKeeps(IS_BRACKET, Trim(content));
    match ParseUnsigned(index, U64_MAX)
    case Some(n) =>
      var digits := if index != [] && index[0] == '+' then index[1..] else index;
      BracketsOfIndex(n);
      DecShortest(digits);
      CountAll(IS_SOLID, digits);
      if digits != index { assert Count(IS_SOLID, index) == 1 + Count(IS_SOLID, digits); }
    case None =>
  }

  lemma BracketGroup(p: char -> bool, rest: string, content: string, after: string)
    requires rest != "" && rest[0] == '[' && SplitOnce(rest[1..], ']') == Some((content, after))
    ensures Count(p, rest) == (if p('[') then 1 else 0) + Count(p, content) + (if p(']') then 1 else 0) + Count(p, after)
    ensures |after| < |rest|
  {
    hide Count, SplitOnce;
    SplitOnceJoins(rest[1..]);
    assert rest[1..] == content + ([']'] + after);
    CountFirst(p, rest);
    CountAppend(p, content, [']'] + after);
    assert ([']'] + after)[1..] == after;
    CountFirst(p, [']'] + after);
  }

  lemma SplitOnceJoins(s: string)
    ensures SplitOnce(s, ']').Some? ==> s == SplitOnce(s, ']').value.0 + [']'] + SplitOnce(s, ']').value.1
  {
  }

  lemma CountNothing(p: char -> bool)
    ensures Count(p, "") == 0
  {
  }

  lemma CountFirst(p: char -> bool, s: string)
    requires s != ""
    ensures Count(p, s) == (if p(s[0]) then 1 else 0) + Count(p, s[1..])
  {
  }

  /** What a parse returns weighs at most what it was given; and if no bracket was
      lost, every key was spelled without brackets. */
  lemma {:induction false} ParseWeighs(rest: string, segments: Path, current: string, out: Path)
    requires ParseRest(rest, segments, current) == Some(out)
    requires '.' !in current && '[' !in current && ']' !in current
    ensures Total(IS_SOLID, out) <= Total(IS_SOLID, segments) + Count(IS_SOLID, current) + Count(IS_SOLID, rest)
    ensures var given := Total(IS_BRACKET, segments) + Count(IS_BRACKET, current) + Count(IS_BRACKET, rest);
            && Total(IS_BRACKET, out) <= given
            && (PlainPath(segments) && Total(IS_BRACKET, out) == given ==> PlainPath(out))
    decreases |rest|
  {
    hide Total, Bracketed, Count;
    TotalFlush(IS_SOLID, segments, current);
    TotalFlush(IS_BRACKET, segments, current);
    CountNothing(IS_SOLID);
    CountNothing(IS_BRACKET);
    if rest != "" {
      CountFirst(IS_SOLID, rest);
      CountFirst(IS_BRACKET, rest);
    }
    if rest == "" {
    } else if rest[0] == '.' {
      ParseWeighs(rest[1..], Flush(segments, current), "", out);
    } else if rest[0] == '[' {
      var (content, after) := SplitOnce(rest[1..], ']').value;
      var s := Bracketed(content).value;
      var segments' := Flush(segments, current) + [s];
      BracketGroup(IS_SOLID, rest, content, after);
      BracketGroup(IS_BRACKET, rest, content, after);
      BracketedWeight(content);
      TotalStep(IS_SOLID, Flush(segments, current), s);
      TotalStep(IS_BRACKET, Flush(segments, current), s);
      ParseWeighs(after, segments', "", out);
    } else {
      PushWeighs(current, rest[0]);
      ParseWeighs(rest[1..], segments, current + [rest[0]], out);
    }
  }

  lemma PushWeighs(current: string, c: char)
    ensures Count(IS_SOLID, current + [c]) == Count(IS_SOLID, current) + (if IS_SOLID(c) then 1 else 0)
    ensures Count(IS_BRACKET, current + [c]) == Count(IS_BRACKET, current) + (if IS_BRACKET(c) then 1 else 0)
  {
    CountAppend(IS_SOLID, current, [c]);
    CountAppend(IS_BRACKET, current, [c]);
    assert [c][1..] == "";
  }

  /** A printed path parses back to its place exactly when it has a place, its keys
      need no brackets, it neither starts nor ends in white space, and it does not
      start with `$`.  (No list is longer than `usize::MAX`.) */
  lemma ParseOfPrintIff(p: Path)
    requires forall s :: s in p && s.Index? ==> s.index <= U64_MAX
    ensures ParseFn(PrintPath(p)) == Segments(p)
            <==> p != [] && PlainPath(p) && Trimmed(PrintPath(p)) && !("$" <= PrintPath(p))
  {
    hide ParseRest, PrintPath, Trim, StripDollar, Total, Count;
    if p != [] && PlainPath(p) && Trimmed(PrintPath(p)) && !("$" <= PrintPath(p)) {
      ParseOfPrint(p);
    }
    if ParseFn(PrintPath(p)) == Segments(p) {
      var text := PrintPath(p);
      var stripped := StripDollar(Trim(text));
      PrintedWeight(IS_BRACKET, p);
      PrintedWeight(IS_SOLID, p);
      StripKeeps(IS_BRACKET, text);
      StripLoses(text);
      ParseWeighs(stripped, [], "", p);
      NothingWeighs();
    }
  }

  lemma NothingWeighs()
    ensures Total(IS_SOLID, []) == 0 && Total(IS_BRACKET, []) == 0
    ensures Count(IS_SOLID, "") == 0 && Count(IS_BRACKET, "") == 0
  {
  }
}
