/** Every path a diff prints is a path the JSON path language reads, and it selects
    the reported values. */
module DiffSelect {
  import opened Text
  import opened Decimal
  import opened Json
  import opened Diff
  import opened DiffPaths
  import opened JsonPath

  /** A key the path language can spell without brackets. */
  predicate PlainKey(k: string) {
    k != "" && '.' !in k && '[' !in k && ']' !in k
  }

  predicate PlainSegment(s: Segment) {
    match s
    case Key(k) => PlainKey(k)
    case Index(i) => i <= U64_MAX
  }

  ghost predicate PlainPath(p: Path) {
    forall s :: s in p ==> PlainSegment(s)
  }

  // ---------- parsing what was printed ----------

  lemma {:induction false} PlainText(k: string, rest: string, segments: Path, current: string)
    requires '.' !in k && '[' !in k && ']' !in k
    ensures ParseRest(k + rest, segments, current) == ParseRest(rest, segments, current + k)
    decreases |k|
  {
    if k == "" {
      assert k + rest == rest && current + k == current;
    } else {
      assert (k + rest)[1..] == k[1..] + rest;
      PlainText(k[1..], rest, segments, current + [k[0]]);
      assert current + [k[0]] + k[1..] == current + k;
    }
  }

  lemma {:induction false} TrimQuotesDigits(s: string)
    requires AllDigits(s)
    ensures TrimQuotes(s) == s
  {
  }

  lemma BracketedIndex(i: nat)
    requires i <= U64_MAX
    ensures Bracketed(Dec(i)) == Some(Index(i))
  {
    hide Trim, TrimQuotes, ParseUnsigned, Dec;
    TrimFixed(Dec(i));
    TrimQuotesDigits(Dec(i));
    ParseDec(i, U64_MAX);
  }

  lemma IndexText(i: nat, rest: string, segments: Path, current: string)
    requires i <= U64_MAX
    ensures ParseRest("[" + Dec(i) + "]" + rest, segments, current)
            == ParseRest(rest, Flush(segments, current) + [Index(i)], "")
  {
    var text := "[" + Dec(i) + "]" + rest;
    assert text[1..] == Dec(i) + [']'] + rest;
    SplitOnceFirst(Dec(i), ']', rest);
    BracketedIndex(i);
  }

  /** The finished segments and the pending text once `p` has been read. */
  function DoneOf(p: Path): Path {
    if p != [] && p[|p| - 1].Key? then p[..|p| - 1] else p
  }

  function PendingOf(p: Path): string {
    if p != [] && p[|p| - 1].Key? then p[|p| - 1].key else ""
  }

  lemma FlushPending(p: Path)
    requires PlainPath(p)
    ensures Flush(DoneOf(p), PendingOf(p)) == p
  {
    if p != [] {
      assert PlainSegment(p[|p| - 1]);
      assert p == p[..|p| - 1] + [p[|p| - 1]];
    }
  }

  lemma PrintsSomething(p: Path)
    requires PlainPath(p)
    ensures PrintPath(p) == "" <==> p == []
  {
    if p != [] {
      var s := p[|p| - 1];
      assert PlainSegment(s);
      PrintSegmentShows(PrintPath(p[..|p| - 1]), s);
    }
  }

  lemma PrintSegmentShows(path: string, s: Segment)
    requires PlainSegment(s)
    ensures PrintSegment(path, s) != ""
  {
  }

  lemma ReadDot(rest: string, segments: Path, current: string)
    ensures ParseRest("." + rest, segments, current) == ParseRest(rest, Flush(segments, current), "")
  {
    hide Flush, SplitOnce, Bracketed;
    assert ("." + rest)[1..] == rest;
  }

  lemma ReadKey(front: Path, k: string, rest: string)
    requires PlainPath(front) && PlainKey(k)
    ensures ParseRest((if front == [] then k else "." + k) + rest, DoneOf(front), PendingOf(front))
            == ParseRest(rest, front, k)
  {
    hide ParseRest, Flush, PlainPath;
    assert "" + k == k;
    PlainText(k, rest, front, "");
    if front != [] {
      assert "." + k + rest == "." + (k + rest);
      ReadDot(k + rest, DoneOf(front), PendingOf(front));
      FlushPending(front);
    }
  }

  lemma ReadIndex(front: Path, i: nat, rest: string)
    requires PlainPath(front) && i <= U64_MAX
    ensures ParseRest("[" + Dec(i) + "]" + rest, DoneOf(front), PendingOf(front))
            == ParseRest(rest, front + [Index(i)], "")
  {
    IndexText(i, rest, DoneOf(front), PendingOf(front));
    FlushPending(front);
  }

  lemma PrintedLast(front: Path, s: Segment, rest: string)
    requires PlainPath(front) && PlainSegment(s)
    ensures PrintPath(front + [s]) + rest
            == PrintPath(front) + ((match s case Key(k) => if front == [] then k else "." + k case Index(i) => "[" + Dec(i) + "]") + rest)
  {
    hide Dec;
    PrintStep(front, s);
    PrintsSomething(front);
  }

  lemma {:induction false} ReadPrinted(p: Path, rest: string)
    requires PlainPath(p)
    ensures ParseRest(PrintPath(p) + rest, [], "") == ParseRest(rest, DoneOf(p), PendingOf(p))
    decreases |p|
  {
    if p == [] {
      assert PrintPath(p) + rest == rest;
    } else {
      hide ParseRest, PrintPath, Dec;
      var front, s := p[..|p| - 1], p[|p| - 1];
      assert p == front + [s];
      assert PlainSegment(s);
      PrintedLast(front, s, rest);
      match s
      case Key(k) =>
        ReadPrinted(front, (if front == [] then k else "." + k) + rest);
        ReadKey(front, k, rest);
      case Index(i) =>
        ReadPrinted(front, "[" + Dec(i) + "]" + rest);
        ReadIndex(front, i, rest);
    }
  }

  /** A printed path that survives trimming and the `$` prefix parses back. */
  lemma ParseOfPrint(p: Path)
    requires PlainPath(p) && p != []
    requires Trimmed(PrintPath(p)) && !("$" <= PrintPath(p))
    ensures ParseFn(PrintPath(p)) == Segments(p)
  {
    hide ParseRest, PrintPath, Trim;
    var text := PrintPath(p);
    PrintsSomething(p);
    TrimFixed(text);
    assert StripDollar(text) == text;
    assert text + "" == text;
    ReadPrinted(p, "");
    FlushPending(p);
    ParseEnd(DoneOf(p), PendingOf(p));
  }

  lemma ParseEnd(segments: Path, current: string)
    ensures ParseRest("", segments, current) == Some(Flush(segments, current))
  {
  }

  /** A change somewhere below the root prints a path that selects the value before
      in the document before, and the value after in the document after. */
  lemma ChangePathSelects(a: Value, b: Value, c: Change)
    requires Valid(a) && Valid(b) && c in DiffJson(a, b)
    requires c.at != [] && PlainPath(c.at)
    requires Trimmed(c.path) && !("$" <= c.path)
    ensures SelectFn(a, c.path) == Found(BeforeOf(c.kind))
    ensures SelectFn(b, c.path) == Found(AfterOf(c.kind))
  {
    WalkPrints([], a, b);
    PrintsSomething(c.at);
    ParseOfPrint(c.at);
    WalkPoints([], "", a, b, c);
    assert c.at[0..] == c.at;
  }

  /** The root's own change prints `$`, which is not a path. */
  lemma RootPathIsRejected(v: Value)
    ensures ParseFn("$") == BadJsonPath("") && SelectFn(v, "$") == PathError("")
  {
    hide Trim, ParseRest;
    TrimFixed("$");
    RootHasNoSegments();
  }

  lemma RootHasNoSegments()
    ensures StripDollar("$") == "" && ParseRest("", [], "") == Some([])
  {
  }
}
