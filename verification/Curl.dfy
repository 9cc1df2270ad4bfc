/** Printing a request as a `curl` command, and the words a POSIX shell reads back
    from it. */
module Curl {
  import opened Text
  import opened Redaction

  datatype SentRequest = SentRequest(verb: string, url: string, headers: seq<(string, string)>, body: Option<string>)

  const CURL_MANAGED := {"content-length", "host"}

  // ---------- the printer ----------

  /** Single quotes around the value; a quote inside closes, escapes and reopens. */
  function Quote(value: string): string {
    "'" + Replace(value, "'", "'\\''") + "'"
  }

  function HeaderLine(name: string, value: string, secrets: seq<string>, show: bool): string
    requires NonEmpty(secrets)
  {
    name + ": " + HeaderForDisplay(name, value, secrets, show)
  }

  predicate Managed(name: string) {
    Lower(name) in CURL_MANAGED
  }

  function HeaderParts(headers: seq<(string, string)>, secrets: seq<string>, show: bool): seq<string>
    requires NonEmpty(secrets)
  {
    if headers == [] then []
    else OnePart(headers[0], secrets, show) + HeaderParts(headers[1..], secrets, show)
  }

  function OnePart(header: (string, string), secrets: seq<string>, show: bool): seq<string>
    requires NonEmpty(secrets)
  {
    if Managed(header.0) then [] else ["-H " + Quote(HeaderLine(header.0, header.1, secrets, show))]
  }

  predicate HasBody(r: SentRequest) {
    r.body.Some? && r.body.value != ""
  }

  predicate IsGet(r: SentRequest) {
    Lower(r.verb) == "get"
  }

  /** `upper` is full upper-casing: any function will do. */
  function Parts(r: SentRequest, upper: string -> string, secrets: seq<string>, show: bool): seq<string>
    requires NonEmpty(secrets)
  {
    ["curl"]
    + (if IsGet(r) then [] else ["-X " + upper(r.verb)])
    + [Quote(ApplyAll(secrets, r.url))]
    + HeaderParts(r.headers, secrets, show)
    + (if HasBody(r) then ["--data-raw " + Quote(ApplyAll(secrets, r.body.value))] else [])
  }

  function Joiner(multiline: bool): string {
    if multiline then " \\\n  " else " "
  }

  method DisplayHeader(name: string, value: string, redactor: Redactor, show: bool) returns (shown: string)
    requires redactor.Valid()
    ensures NonEmpty(redactor.secrets) && shown == HeaderForDisplay(name, value, redactor.secrets, show)
  {
    shown := redactor.Apply(value);
    if show {
      shown := value;
    } else if IsCredentialHeader(name) {
      shown := MASK;
    }
  }

  method PushHeaders(headers: seq<(string, string)>, redactor: Redactor, show: bool, front: seq<string>)
    returns (parts: seq<string>)
    requires redactor.Valid()
    ensures NonEmpty(redactor.secrets) && parts == front + HeaderParts(headers, redactor.secrets, show)
  {
    parts := front;
    LongIsNonEmpty(redactor.secrets);
    var i := 0;
    assert headers[0..] == headers;
    while i < |headers|
      invariant 0 <= i <= |headers|
      invariant parts + HeaderParts(headers[i..], redactor.secrets, show) == front + HeaderParts(headers, redactor.secrets, show)
    {
      hide Quote, HeaderForDisplay, Lower, HeaderParts;
      PartsStep(headers, i, redactor.secrets, show, parts);
      var (name, value) := headers[i];
      i := i + 1;
      if Lower(name) in CURL_MANAGED {
        continue;
      }
      var shown := DisplayHeader(name, value, redactor, show);
      parts := parts + ["-H " + Quote(name + ": " + shown)];
    }
    assert parts + [] == parts;
  }

  lemma PartsStep(headers: seq<(string, string)>, i: nat, secrets: seq<string>, show: bool, parts: seq<string>)
    requires i < |headers| && NonEmpty(secrets)
    ensures parts + HeaderParts(headers[i..], secrets, show)
            == parts + OnePart(headers[i], secrets, show) + HeaderParts(headers[i + 1..], secrets, show)
    ensures parts + [] == parts
  {
    assert headers[i..][1..] == headers[i + 1..];
  }

  method ToCurl(r: SentRequest, upper: string -> string, redactor: Redactor, multiline: bool, show: bool) returns (command: string)
    requires redactor.Valid()
    ensures NonEmpty(redactor.secrets)
    ensures command == Join(Parts(r, upper, redactor.secrets, show), Joiner(multiline))
  {
    hide Quote, HeaderParts;
    var parts := ["curl"];
    if !IsGet(r) {
      parts := parts + ["-X " + upper(r.verb)];
    } else {
      assert parts + [] == parts;
    }
    var url := redactor.Apply(r.url);
    parts := parts + [Quote(url)];
    parts := PushHeaders(r.headers, redactor, show, parts);
    if HasBody(r) {
      var body := redactor.Apply(r.body.value);
      parts := parts + ["--data-raw " + Quote(body)];
    } else {
      assert parts + [] == parts;
    }
    assert parts + [] == parts;
    assert parts == Parts(r, upper, redactor.secrets, show);
    command := Join(parts, Joiner(multiline));
  }

  // ---------- the shell's reader ----------

  /** Characters that are not literal outside quotes (XCU section 2.2), other than
      the backslash, the single quote and the blanks, which `Lex` handles.  A command
      line with one of them is not a plain list of words. */
  predicate Special(c: char) {
    c in {'|', '&', ';', '<', '>', '(', ')', '$', '`', '"', '\n', '*', '?', '[', '#', '~', '=', '%'}
  }

  function AddWord(words: seq<string>, word: Option<string>): seq<string> {
    match word case None => words case Some(w) => words + [w]
  }

  function Extend(word: Option<string>, more: string): Option<string> {
    match word case None => Some(more) case Some(w) => Some(w + more)
  }

  /** The words of a command line: a backslash quotes the next character or, before
      a newline, joins the lines (section 2.2.1); between single quotes everything is
      literal (section 2.2.2); blanks separate. */
  function Lex(s: string, words: seq<string>, word: Option<string>): Option<seq<string>>
    decreases |s|
  {
    if s == "" then Some(AddWord(words, word))
    else if s[0] == '\\' then
      if |s| < 2 then None
      else if s[1] == '\n' then Lex(s[2..], words, word)
      else Lex(s[2..], words, Extend(word, [s[1]]))
    else if s[0] == '\'' then
      (match SplitOnce(s[1..], '\'')
       case None => None
       case Some((content, after)) => Lex(after, words, Extend(word, content)))
    else if s[0] == ' ' || s[0] == '\t' then Lex(s[1..], AddWord(words, word), None)
    else if Special(s[0]) then None
    else Lex(s[1..], words, Extend(word, [s[0]]))
  }

  function ShellWords(command: string): Option<seq<string>> {
    Lex(command, [], None)
  }

  // ---------- the request as words ----------

  function OneWords(header: (string, string), secrets: seq<string>, show: bool): seq<string>
    requires NonEmpty(secrets)
  {
    if Managed(header.0) then [] else ["-H", HeaderLine(header.0, header.1, secrets, show)]
  }

  function HeaderWords(headers: seq<(string, string)>, secrets: seq<string>, show: bool): seq<string>
    requires NonEmpty(secrets)
  {
    if headers == [] then []
    else OneWords(headers[0], secrets, show) + HeaderWords(headers[1..], secrets, show)
  }

  /** The redacted request itself, one word a value. */
  function Argv(r: SentRequest, upper: string -> string, secrets: seq<string>, show: bool): seq<string>
    requires NonEmpty(secrets)
  {
    ["curl"]
    + (if IsGet(r) then [] else ["-X", upper(r.verb)])
    + [ApplyAll(secrets, r.url)]
    + HeaderWords(r.headers, secrets, show)
    + (if HasBody(r) then ["--data-raw", ApplyAll(secrets, r.body.value)] else [])
  }

  predicate PlainChar(c: char) {
    !Special(c) && c !in {'\\', '\'', ' ', '\t'}
  }

  predicate PlainWord(w: string) {
    w != "" && forall i :: 0 <= i < |w| ==> PlainChar(w[i])
  }

  // ---------- words come back unchanged ----------

  lemma {:induction false} LexPlain(w: string, rest: string, words: seq<string>, word: Option<string>)
    requires PlainWord(w)
    ensures Lex(w + rest, words, word) == Lex(rest, words, Extend(word, w))
    decreases |w|
  {
    assert PlainChar(w[0]);
    assert (w + rest)[1..] == w[1..] + rest;
    var word' := Extend(word, [w[0]]);
    if |w| == 1 {
      assert w[1..] + rest == rest && w == [w[0]];
    } else {
      LexPlain(w[1..], rest, words, word');
      assert [w[0]] + w[1..] == w;
      if word.Some? { assert word.value + [w[0]] + w[1..] == word.value + w; }
    }
  }

  lemma LexQuoted(content: string, rest: string, words: seq<string>, word: Option<string>)
    requires '\'' !in content
    ensures Lex("'" + content + "'" + rest, words, word) == Lex(rest, words, Extend(word, content))
  {
    var s := "'" + content + "'" + rest;
    assert s[1..] == content + ['\''] + rest;
    SplitOnceFirst(content, '\'', rest);
  }

  lemma OccursChar(s: string, c: char, j: int)
    ensures OccursAt(s, [c], j) <==> 0 <= j < |s| && s[j] == c
  {
    if 0 <= j < |s| { assert s[j..j + 1] == [s[j]]; }
  }

  /** Up to the first quote, if any, there is none. */
  lemma UpToQuote(value: string)
    ensures var n := match Find(value, "'") case None => |value| case Some(i) => i; '\'' !in value[..n]
    ensures Find(value, "'").Some? ==> value == value[..Find(value, "'").value] + "'" + value[Find(value, "'").value + 1..]
  {
    var n := match Find(value, "'") case None => |value| case Some(i) => i;
    forall j | 0 <= j < n ensures value[j] != '\'' { OccursChar(value, '\'', j); }
    if Find(value, "'").Some? { OccursChar(value, '\'', n); }
  }

  /** Whatever a value holds, its quoted form is one word that reads as the value. */
  lemma {:induction false} LexQuote(value: string, rest: string, words: seq<string>, word: Option<string>)
    ensures Lex(Quote(value) + rest, words, word) == Lex(rest, words, Extend(word, value))
    decreases |value|
  {
    UpToQuote(value);
    match Find(value, "'")
    case None =>
      assert value[..|value|] == value;
      LexQuoted(value, rest, words, word);
    case Some(i) =>
      hide Lex, Quote, Find, Extend;
      var before, after := value[..i], value[i + 1..];
      QuoteStep(value, i);
      assert Quote(value) + rest == "'" + before + "'" + ("\\'" + (Quote(after) + rest));
      LexQuoted(before, "\\'" + (Quote(after) + rest), words, word);
      LexEscapedQuote(Quote(after) + rest, words, Extend(word, before));
      LexQuote(after, rest, words, Extend(Extend(word, before), "'"));
      ExtendThrice(word, before, "'", after);
  }

  lemma QuoteStep(value: string, i: nat)
    requires Find(value, "'") == Some(i)
    ensures Quote(value) == "'" + value[..i] + "'" + ("\\'" + Quote(value[i + 1..]))
  {
    hide Find;
    var rest := Replace(value[i + 1..], "'", "'\\''");
    assert Replace(value, "'", "'\\''") == value[..i] + "'\\''" + rest;
    QuotesJoin(value[..i], rest);
  }

  lemma QuotesJoin(a: string, rest: string)
    ensures "'" + (a + "'\\''" + rest) + "'" == "'" + a + "'" + ("\\'" + ("'" + rest + "'"))
  {
    assert "'\\''" == "'" + ("\\'" + "'");
  }

  lemma LexEscapedQuote(rest: string, words: seq<string>, word: Option<string>)
    ensures Lex("\\'" + rest, words, word) == Lex(rest, words, Extend(word, "'"))
  {
    assert ("\\'" + rest)[2..] == rest;
  }

  lemma ExtendThrice(word: Option<string>, a: string, b: string, c: string)
    ensures Extend(Extend(Extend(word, a), b), c) == Extend(word, a + b + c)
  {
    if word.Some? { assert word.value + a + b + c == word.value + (a + b + c); }
  }

  /** Either joiner ends a word and starts the next. */
  lemma LexJoiner(multiline: bool, rest: string, words: seq<string>, word: Option<string>)
    ensures Lex(Joiner(multiline) + rest, words, word) == Lex(rest, AddWord(words, word), None)
  {
    var s := Joiner(multiline) + rest;
    var words' := AddWord(words, word);
    if multiline {
      var two := "  " + rest;
      assert two[1..] == " " + rest && (" " + rest)[1..] == rest;
      assert Lex(two, words', None) == Lex(" " + rest, words', None) == Lex(rest, words', None);
      var a := "\\\n" + two;
      assert s[1..] == a && a[2..] == two;
      assert Lex(a, words', None) == Lex(two, words', None);
    } else {
      assert s[1..] == rest;
    }
  }

  // ---------- parts of the command ----------

  /** A part reads as some words: in front of a separator or the end it adds them. */
  ghost predicate ReadsAs(part: string, ws: seq<string>) {
    && ws != []
    && forall rest: string, words: seq<string> {:trigger Lex(part + rest, words, None)} ::
         Lex(part + rest, words, None) == Lex(rest, words + ws[..|ws| - 1], Some(ws[|ws| - 1]))
  }

  lemma PlainReads(w: string)
    requires PlainWord(w)
    ensures ReadsAs(w, [w])
  {
    forall rest: string, words: seq<string> ensures Lex(w + rest, words, None) == Lex(rest, words + [w][..0], Some(w)) {
      LexPlain(w, rest, words, None);
      assert words + [w][..0] == words;
    }
  }

  lemma QuoteReads(value: string)
    ensures ReadsAs(Quote(value), [value])
  {
    forall rest: string, words: seq<string>
      ensures Lex(Quote(value) + rest, words, None) == Lex(rest, words + [value][..0], Some(value))
    {
      LexQuote(value, rest, words, None);
      assert words + [value][..0] == words;
    }
  }

  /** An option and its quoted value. */
  lemma OptionReads(flag: string, part: string, value: string)
    requires PlainWord(flag) && ReadsAs(part, [value])
    ensures ReadsAs(flag + " " + part, [flag, value])
  {
    forall rest: string, words: seq<string>
      ensures Lex(flag + " " + part + rest, words, None) == Lex(rest, words + [flag, value][..1], Some(value))
    {
      assert flag + " " + part + rest == flag + (Joiner(false) + (part + rest));
      LexPlain(flag, Joiner(false) + (part + rest), words, None);
      LexJoiner(false, part + rest, words, Some(flag));
      assert [value][..0] == [] && words + [flag] + [] == words + [flag, value][..1];
    }
  }

  ghost predicate AllRead(parts: seq<string>, wss: seq<seq<string>>) {
    |parts| == |wss| && forall i :: 0 <= i < |parts| ==> ReadsAs(parts[i], wss[i])
  }

  function Flatten(wss: seq<seq<string>>): seq<string> {
    if wss == [] then [] else wss[0] + Flatten(wss[1..])
  }

  /** Joined by either joiner, the parts read as all their words in turn. */
  lemma {:induction false} JoinedRead(parts: seq<string>, wss: seq<seq<string>>, multiline: bool, words: seq<string>)
    requires parts != [] && AllRead(parts, wss)
    ensures Lex(Join(parts, Joiner(multiline)), words, None) == Some(words + Flatten(wss))
    decreases |parts|
  {
    var part, ws := parts[0], wss[0];
    assert ReadsAs(part, ws);
    var front, last := ws[..|ws| - 1], ws[|ws| - 1];
    assert ws == front + [last];
    if |parts| == 1 {
      assert part + "" == part;
      assert Lex(part + "", words, None) == Lex("", words + front, Some(last));
      assert words + front + [last] == words + Flatten(wss) by { assert wss[1..] == []; }
    } else {
      var rest := Join(parts[1..], Joiner(multiline));
      assert part + Joiner(multiline) + rest == part + (Joiner(multiline) + rest);
      assert Lex(part + (Joiner(multiline) + rest), words, None) == Lex(Joiner(multiline) + rest, words + front, Some(last));
      LexJoiner(multiline, rest, words + front, Some(last));
      assert words + front + [last] == words + ws;
      assert AllRead(parts[1..], wss[1..]);
      JoinedRead(parts[1..], wss[1..], multiline, words + ws);
      assert words + ws + Flatten(wss[1..]) == words + Flatten(wss);
    }
  }

  lemma {:induction false} FlattenAppend(a: seq<seq<string>>, b: seq<seq<string>>)
    ensures Flatten(a + b) == Flatten(a) + Flatten(b)
    decreases |a|
  {
    if a == [] {
      assert a + b == b;
    } else {
      assert (a + b)[1..] == a[1..] + b;
      FlattenAppend(a[1..], b);
    }
  }

  lemma ReadAppend(a: seq<string>, wa: seq<seq<string>>, b: seq<string>, wb: seq<seq<string>>)
    requires AllRead(a, wa) && AllRead(b, wb)
    ensures AllRead(a + b, wa + wb) && Flatten(wa + wb) == Flatten(wa) + Flatten(wb)
  {
    hide ReadsAs, Flatten;
    FlattenAppend(wa, wb);
  }

  lemma OneReads(part: string, ws: seq<string>)
    requires ReadsAs(part, ws)
    ensures AllRead([part], [ws]) && Flatten([ws]) == ws
  {
    assert [ws][1..] == [];
  }

  lemma FlagReads(flag: string, value: string)
    requires PlainWord(flag)
    ensures AllRead([flag + " " + Quote(value)], [[flag, value]]) && Flatten([[flag, value]]) == [flag, value]
  {
    hide ReadsAs;
    QuoteReads(value);
    OptionReads(flag, Quote(value), value);
    OneReads(flag + " " + Quote(value), [flag, value]);
  }

  lemma NothingReads()
    ensures AllRead([], []) && Flatten([]) == []
  {
  }

  lemma OneHeaderReads(header: (string, string), secrets: seq<string>, show: bool) returns (wss: seq<seq<string>>)
    requires NonEmpty(secrets)
    ensures AllRead(OnePart(header, secrets, show), wss) && Flatten(wss) == OneWords(header, secrets, show)
  {
    hide ReadsAs, Quote, HeaderLine, Managed, AllRead, Flatten;
    NothingReads();
    wss := [];
    if !Managed(header.0) {
      var line := HeaderLine(header.0, header.1, secrets, show);
      assert PlainWord("-H");
      FlagReads("-H", line);
      assert "-H" + " " + Quote(line) == "-H " + Quote(line);
      wss := [["-H", line]];
    }
  }

  lemma {:induction false} HeadersRead(headers: seq<(string, string)>, secrets: seq<string>, show: bool)
    returns (wss: seq<seq<string>>)
    requires NonEmpty(secrets)
    ensures AllRead(HeaderParts(headers, secrets, show), wss) && Flatten(wss) == HeaderWords(headers, secrets, show)
    decreases |headers|
  {
    wss := [];
    if headers != [] {
      hide ReadsAs, AllRead, Flatten, OnePart, OneWords;
      var first := OneHeaderReads(headers[0], secrets, show);
      var rest := HeadersRead(headers[1..], secrets, show);
      ReadAppend(OnePart(headers[0], secrets, show), first, HeaderParts(headers[1..], secrets, show), rest);
      wss := first + rest;
    }
  }

  lemma VerbReads(r: SentRequest, upper: string -> string) returns (wss: seq<seq<string>>)
    requires IsGet(r) || PlainWord(upper(r.verb))
    ensures AllRead(if IsGet(r) then [] else ["-X " + upper(r.verb)], wss)
    ensures Flatten(wss) == if IsGet(r) then [] else ["-X", upper(r.verb)]
  {
    wss := [];
    if !IsGet(r) {
      hide ReadsAs;
      assert PlainWord("-X");
      PlainReads(upper(r.verb));
      OptionReads("-X", upper(r.verb), upper(r.verb));
      assert "-X" + " " + upper(r.verb) == "-X " + upper(r.verb);
      OneReads("-X " + upper(r.verb), ["-X", upper(r.verb)]);
      wss := [["-X", upper(r.verb)]];
    }
  }

  lemma BodyReads(r: SentRequest, secrets: seq<string>) returns (wss: seq<seq<string>>)
    requires NonEmpty(secrets)
    ensures AllRead(if HasBody(r) then ["--data-raw " + Quote(ApplyAll(secrets, r.body.value))] else [], wss)
    ensures Flatten(wss) == if HasBody(r) then ["--data-raw", ApplyAll(secrets, r.body.value)] else []
  {
    wss := [];
    if HasBody(r) {
      hide ReadsAs, Quote, ApplyAll;
      var body := ApplyAll(secrets, r.body.value);
      assert PlainWord("--data-raw");
      FlagReads("--data-raw", body);
      assert "--data-raw" + " " + Quote(body) == "--data-raw " + Quote(body);
      wss := [["--data-raw", body]];
    }
  }

  /** Printed on one line or on several, a request whose method is a plain word reads
      back as the redacted request itself, one word a value. */
  lemma ShellReadsRequest(r: SentRequest, upper: string -> string, secrets: seq<string>, multiline: bool, show: bool)
    requires NonEmpty(secrets) && (IsGet(r) || PlainWord(upper(r.verb)))
    ensures ShellWords(Join(Parts(r, upper, secrets, show), Joiner(multiline))) == Some(Argv(r, upper, secrets, show))
  {
    hide ReadsAs, Quote, AllRead, Flatten, Joiner, Join, Lex, HeaderParts, HeaderWords, ApplyAll;
    assert PlainWord("curl");
    PlainReads("curl");
    OneReads("curl", ["curl"]);
    var w1 := VerbReads(r, upper);
    var url := ApplyAll(secrets, r.url);
    QuoteReads(url);
    OneReads(Quote(url), [url]);
    var w3 := HeadersRead(r.headers, secrets, show);
    var w4 := BodyReads(r, secrets);

    var p1 := if IsGet(r) then [] else ["-X " + upper(r.verb)];
    var p3 := HeaderParts(r.headers, secrets, show);
    var p4 := if HasBody(r) then ["--data-raw " + Quote(ApplyAll(secrets, r.body.value))] else [];
    ReadAppend(["curl"], [["curl"]], p1, w1);
    ReadAppend(["curl"] + p1, [["curl"]] + w1, [Quote(url)], [[url]]);
    ReadAppend(["curl"] + p1 + [Quote(url)], [["curl"]] + w1 + [[url]], p3, w3);
    ReadAppend(["curl"] + p1 + [Quote(url)] + p3, [["curl"]] + w1 + [[url]] + w3, p4, w4);
    var wss := [["curl"]] + w1 + [[url]] + w3 + w4;
    JoinedRead(Parts(r, upper, secrets, show), wss, multiline, []);
    assert [] + Flatten(wss) == Flatten(wss);
  }
}
