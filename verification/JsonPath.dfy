/** The small JSON path language: `data.items[0].id`. */
module JsonPath {
  import opened Text
  import opened Decimal
  import opened Json

  datatype Parsed = Segments(segments: Path) | BadJsonPath(path: string)

  // ---------- the parser, as a function ----------

  function Flush(segments: Path, current: string): Path {
    if current == "" then segments else segments + [Key(current)]
  }

  function StripDollar(path: string): string {
    if "$." <= path then path[2..] else if "$" <= path then path[1..] else path
  }

  /** `trim_matches(['\'', '"'])`. */
  function TrimQuotes(s: string): string
    decreases |s|
  {
    if s != [] && s[0] in {'\'', '"'} then TrimQuotes(s[1..])
    else if s != [] && s[|s| - 1] in {'\'', '"'} then TrimQuotes(s[..|s| - 1])
    else s
  }

  /** What stands between brackets: an index if it parses as one, else a key. */
  function Bracketed(content: string): Option<Segment> {
    var index := TrimQuotes(Trim(content));
    match ParseUnsigned(index, U64_MAX)
    case Some(n) => Some(Index(n))
    case None => if index != "" then Some(Key(index)) else None
  }

  /** Parse the rest of a path after `segments` and the pending text `current`. */
  function ParseRest(rest: string, segments: Path, current: string): Option<Path>
    decreases |rest|
  {
    if rest == [] then Some(Flush(segments, current))
    else if rest[0] == '.' then ParseRest(rest[1..], Flush(segments, current), "")
    else if rest[0] == '[' then
      (match SplitOnce(rest[1..], ']')
       case None => None
       case Some((content, after)) =>
         match Bracketed(content)
         case None => None
         case Some(s) => ParseRest(after, Flush(segments, current) + [s], ""))
    else if rest[0] == ']' then None
    else ParseRest(rest[1..], segments, current + [rest[0]])
  }

  function ParseFn(path: string): Parsed {
    var stripped := StripDollar(Trim(path));
    match ParseRest(stripped, [], "")
    case Some(segments) => if segments == [] then BadJsonPath(stripped) else Segments(segments)
    case None => BadJsonPath(stripped)
  }

  // ---------- the parser, as the loop it is ----------

  method Parse(text: string) returns (r: Parsed)
    ensures r == ParseFn(text)
  {
    hide *;
    var path := StripDollar(Trim(text));
    ParseFromStart(text);
    var segments: Path := [];
    var current := "";
    var i := 0;
    assert path[0..] == path;
    while i < |path|
      invariant 0 <= i <= |path|
      invariant ParseRest(path, [], "") == ParseRest(path[i..], segments, current)
    {
      var ch := path[i];
      ghost var rest := path[i..];
      i := i + 1;
      assert rest[1..] == path[i..];
      RestStep(rest, segments, current);
      if ch == '.' {
        segments := Flush(segments, current);
        current := "";
      } else if ch == '[' {
        segments := Flush(segments, current);
        current := "";
        var content, j, closed := ReadBracket(path, i);
        if !closed {
          return BadJsonPath(path);
        }
        i := j;
        match Bracketed(content) {
          case Some(s) => segments := segments + [s];
          case None => return BadJsonPath(path);
        }
      } else if ch == ']' {
        return BadJsonPath(path);
      } else {
        current := current + [ch];
      }
    }
    assert path[i..] == [];
    RestEnds(segments, current);
    segments := Flush(segments, current);
    if segments == [] {
      return BadJsonPath(path);
    }
    r := Segments(segments);
  }

  lemma ParseFromStart(text: string)
    ensures var stripped := StripDollar(Trim(text));
            var rest := ParseRest(stripped, [], "");
            ParseFn(text) == if rest.None? || rest.value == [] then BadJsonPath(stripped) else Segments(rest.value)
  {
    hide ParseRest, StripDollar, Trim;
  }

  lemma RestStep(rest: string, segments: Path, current: string)
    requires rest != []
    ensures var r, ch, after := ParseRest(rest, segments, current), rest[0], rest[1..];
            if ch == '.' then r == ParseRest(after, Flush(segments, current), "")
            else if ch == '[' then
              var cut := SplitOnce(after, ']');
              if cut.None? || Bracketed(cut.value.0).None? then r == None
              else r == ParseRest(cut.value.1, Flush(segments, current) + [Bracketed(cut.value.0).value], "")
            else if ch == ']' then r == None
            else r == ParseRest(after, segments, current + [ch])
  {
    hide SplitOnce, Flush, Bracketed;
  }

  lemma RestEnds(segments: Path, current: string)
    ensures ParseRest([], segments, current) == Some(Flush(segments, current))
  {
    hide Flush;
  }

  /** Read characters up to a `]`. */
  method ReadBracket(path: string, from: nat) returns (content: string, next: nat, closed: bool)
    requires from <= |path|
    ensures closed ==> next <= |path| && next == from + |content| + 1 && SplitOnce(path[from..], ']') == Some((content, path[next..]))
    ensures !closed ==> SplitOnce(path[from..], ']') == None
  {
    hide SplitOnce;
    content, next, closed := "", from, false;
    while next < |path|
      invariant from <= next <= |path|
      invariant content == path[from..next] && ']' !in content
    {
      var ch := path[next];
      next := next + 1;
      if ch == ']' {
        closed := true;
        assert path[from..] == content + [']'] + path[next..];
        SplitOnceFirst(content, ']', path[next..]);
        return;
      }
      content := content + [ch];
    }
    NoBracket(path[from..]);
  }

  lemma NoBracket(s: string)
    ensures ']' !in s ==> SplitOnce(s, ']') == None
  {
  }

  // ---------- select ----------

  datatype Selected = Found(value: Option<Value>) | PathError(path: string)

  method Select(root: Value, path: string) returns (r: Selected)
    ensures r == SelectFn(root, path)
  {
    var parsed := Parse(path);
    if parsed.BadJsonPath? {
      return PathError(parsed.path);
    }
    var current := root;
    var i := 0;
    assert parsed.segments[0..] == parsed.segments;
    while i < |parsed.segments|
      invariant 0 <= i <= |parsed.segments|
      invariant Follow(root, parsed.segments) == Follow(current, parsed.segments[i..])
    {
      assert parsed.segments[i..][1..] == parsed.segments[i + 1..];
      match Child(current, parsed.segments[i]) {
        case Some(value) => current := value;
        case None => return Found(None);
      }
      i := i + 1;
    }
    r := Found(Some(current));
  }

  function SelectFn(root: Value, path: string): Selected {
    match ParseFn(path)
    case BadJsonPath(p) => PathError(p)
    case Segments(segments) => Found(Follow(root, segments))
  }
}
