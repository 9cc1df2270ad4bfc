/** Paths whose keys stand quoted between brackets, as in `["key with spaces"][0]`. */
module QuotedPaths {
  import opened Text
  import opened Decimal
  import opened Json
  import opened JsonPath
  import opened DiffSelect

  /** A key that can be written so: not empty, without `]`, without a quote at its ends,
      and not a number. */
  predicate Quotable(k: string) {
    && k != "" && ']' !in k
    && k[0] !in {'\'', '"'} && k[|k| - 1] !in {'\'', '"'}
    && ParseUnsigned(k, U64_MAX) == None
  }

  function QuotedKey(k: string): string {
    "\"" + k + "\""
  }

  // ---------- quotes come off ----------

  lemma TrimFront(q: char, s: string)
    requires q in {'\'', '"'}
    ensures TrimQuotes([q] + s) == TrimQuotes(s)
  {
    assert ([q] + s)[1..] == s;
  }

  lemma TrimBack(s: string, q: char)
    requires q in {'\'', '"'} && s != "" && s[0] !in {'\'', '"'}
    ensures TrimQuotes(s + [q]) == TrimQuotes(s)
  {
    assert (s + [q])[..|s|] == s && (s + [q])[0] == s[0];
  }

  lemma NothingToTrim(core: string)
    requires core == "" || (core[0] !in {'\'', '"'} && core[|core| - 1] !in {'\'', '"'})
    ensures TrimQuotes(core) == core
  {
  }

  lemma {:induction false} QuotesOff(front: string, core: string, back: string)
    requires forall i :: 0 <= i < |front| ==> front[i] in {'\'', '"'}
    requires forall i :: 0 <= i < |back| ==> back[i] in {'\'', '"'}
    requires core == "" || (core[0] !in {'\'', '"'} && core[|core| - 1] !in {'\'', '"'})
    ensures TrimQuotes(front + core + back) == core
    decreases |front| + |back|
  {
    hide TrimQuotes;
    if front != "" {
      assert front + core + back == [front[0]] + (front[1..] + core + back);
      TrimFront(front[0], front[1..] + core + back);
      QuotesOff(front[1..], core, back);
    } else if back == "" {
      assert front + core + back == core;
      NothingToTrim(core);
    } else if core == "" {
      assert front + core + back == [back[0]] + ("" + "" + back[1..]);
      TrimFront(back[0], "" + "" + back[1..]);
      QuotesOff("", "", back[1..]);
    } else {
      var n := |back| - 1;
      assert front + core + back == ("" + core + back[..n]) + [back[n]];
      TrimBack("" + core + back[..n], back[n]);
      QuotesOff("", core, back[..n]);
    }
  }

  lemma {:induction false} NoQuoteAtEnds(s: string)
    ensures var t := TrimQuotes(s); t == "" || (t[0] !in {'\'', '"'} && t[|t| - 1] !in {'\'', '"'})
    decreases |s|
  {
    if s != "" && s[0] in {'\'', '"'} {
      NoQuoteAtEnds(s[1..]);
    } else if s != "" && s[|s| - 1] in {'\'', '"'} {
      NoQuoteAtEnds(s[..|s| - 1]);
    }
  }

  // ---------- one key ----------

  /** Between brackets, quotes and blanks around them do not count: a number is an index
      and any other text a key, but an empty one is refused. */
  lemma BracketedIs(front: string, core: string, back: string)
    requires forall i :: 0 <= i < |front| ==> front[i] in {'\'', '"'}
    requires forall i :: 0 <= i < |back| ==> back[i] in {'\'', '"'}
    requires core == "" || (core[0] !in {'\'', '"'} && core[|core| - 1] !in {'\'', '"'})
    requires Trimmed(front + core + back)
    ensures Bracketed(front + core + back)
            == if ParseUnsigned(core, U64_MAX).Some? then Some(Index(ParseUnsigned(core, U64_MAX).value))
               else if core == "" then None
               else Some(Key(core))
  {
    hide TrimQuotes, Trim, ParseUnsigned;
    TrimFixed(front + core + back);
    QuotesOff(front, core, back);
  }

  lemma QuotedIsTrimmed(k: string)
    ensures Trimmed(QuotedKey(k)) && '$' != QuotedKey(k)[0]
  {
    assert QuotedKey(k)[0] == '"' && QuotedKey(k)[|QuotedKey(k)| - 1] == '"';
  }

  /** A quoted key reads back if and only if it is quotable. */
  lemma QuotedKeyIff(k: string)
    requires ']' !in k
    ensures Bracketed(QuotedKey(k)) == Some(Key(k)) <==> Quotable(k)
  {
    hide TrimQuotes, Trim, ParseUnsigned;
    QuotedIsTrimmed(k);
    TrimFixed(QuotedKey(k));
    NoQuoteAtEnds(QuotedKey(k));
    if k == "" || (k[0] !in {'\'', '"'} && k[|k| - 1] !in {'\'', '"'}) {
      assert QuotedKey(k) == "\"" + k + "\"";
      QuotesOff("\"", k, "\"");
    }
  }

  // ---------- a whole path ----------

  function PrintQuoted(s: Segment): string {
    match s
    case Key(k) => "[" + QuotedKey(k) + "]"
    case Index(i) => "[" + Dec(i) + "]"
  }

  function PrintAll(p: Path): string {
    if p == [] then "" else PrintQuoted(p[0]) + PrintAll(p[1..])
  }

  predicate QuotableSegment(s: Segment) {
    match s
    case Key(k) => Quotable(k)
    case Index(i) => i <= U64_MAX
  }

  ghost predicate QuotablePath(p: Path) {
    forall s :: s in p ==> QuotableSegment(s)
  }

  lemma SegmentReads(s: Segment, rest: string, segments: Path)
    requires QuotableSegment(s)
    ensures ParseRest(PrintQuoted(s) + rest, segments, "") == ParseRest(rest, segments + [s], "")
  {
    hide ParseRest, Bracketed, Dec, TrimQuotes, Trim, ParseUnsigned;
    match s
    case Index(i) =>
      IndexText(i, rest, segments, "");
    case Key(k) =>
      var text := "[" + QuotedKey(k) + "]" + rest;
      assert text[0] == '[' && text[1..] == QuotedKey(k) + [']'] + rest;
      SplitOnceFirst(QuotedKey(k), ']', rest);
      QuotedKeyIff(k);
      RestStep(text, segments, "");
  }

  lemma {:induction false} AllReads(p: Path, segments: Path)
    requires QuotablePath(p)
    ensures ParseRest(PrintAll(p), segments, "") == Some(segments + p)
    decreases |p|
  {
    hide ParseRest, PrintQuoted, QuotableSegment;
    if p == [] {
      RestEnds(segments, "");
      assert segments + p == segments;
    } else {
      assert p[0] in p;
      SegmentReads(p[0], PrintAll(p[1..]), segments);
      AllReads(p[1..], segments + [p[0]]);
      assert segments + [p[0]] + p[1..] == segments + p;
    }
  }

  lemma {:induction false} PrintedEnds(p: Path)
    requires p != []
    ensures PrintAll(p) != "" && PrintAll(p)[0] == '[' && PrintAll(p)[|PrintAll(p)| - 1] == ']'
  {
    hide QuotedKey, Dec;
    if |p| > 1 { PrintedEnds(p[1..]); } else { assert PrintAll(p) == PrintQuoted(p[0]) + ""; }
  }

  /** Any path of indices and quotable keys, whatever dots, blanks and brackets the keys
      hold, reads back from its quoted print. */
  lemma QuotedPathReads(p: Path)
    requires p != [] && QuotablePath(p)
    ensures ParseFn(PrintAll(p)) == Segments(p)
  {
    hide ParseRest, PrintAll, Trim;
    PrintedEnds(p);
    TrimFixed(PrintAll(p));
    AllReads(p, []);
    assert [] + p == p;
    assert !("$" <= PrintAll(p));
  }
}
