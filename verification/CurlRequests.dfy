/** The request that curl makes of a printed command. */
module CurlRequests {
  import opened Text
  import opened Marks
  import opened Redaction
  import opened Curl

  // ---------- the words, for each part of the request ----------

  /** What is shown of a header: its value where that was asked for, nothing of a
      credential, and otherwise the value with its secrets masked. */
  ghost predicate ShownAs(name: string, value: string, secrets: seq<string>, show: bool, shown: string)
    requires NonEmpty(secrets)
  {
    shown == if show then value
             else if Lower(Trim(name)) in {"authorization", "proxy-authorization", "cookie", "set-cookie", "x-api-key", "api-key",
                                           "x-auth-token", "x-access-token", "x-csrf-token", "authentication"}
             then "\U{2022}\U{2022}\U{2022}\U{2022}redacted\U{2022}\U{2022}\U{2022}\U{2022}"
             else ApplyAll(secrets, value)
  }

  lemma ShownIs(name: string, value: string, secrets: seq<string>, show: bool)
    requires NonEmpty(secrets)
    ensures ShownAs(name, value, secrets, show, HeaderForDisplay(name, value, secrets, show))
  {
    hide Lower, Trim, ApplyAll;
    MaskText();
  }

  lemma MaskText()
    ensures MASK == "\U{2022}\U{2022}\U{2022}\U{2022}redacted\U{2022}\U{2022}\U{2022}\U{2022}"
  {
  }

  // ---------- curl reads its arguments ----------

  /** The options a command uses: the last method, the URLs, the header lines and the last data, in order. */
  datatype Command = Command(verb: Option<string>, urls: seq<string>, headers: seq<string>, data: Option<string>)

  function ReadOptions(c: Command, words: seq<string>): Command
    decreases |words|
  {
    if words == [] then c
    else if |words| >= 2 && words[0] == "-X" then ReadOptions(c.(verb := Some(words[1])), words[2..])
    else if |words| >= 2 && words[0] == "-H" then ReadOptions(c.(headers := c.headers + [words[1]]), words[2..])
    else if |words| >= 2 && words[0] == "--data-raw" then ReadOptions(c.(data := Some(words[1])), words[2..])
    else ReadOptions(c.(urls := c.urls + [words[0]]), words[1..])
  }

  /** The method curl uses: the one asked for, or POST with data and GET without. */
  function MethodUsed(c: Command): string {
    if c.verb.Some? then c.verb.value else if c.data.Some? then "POST" else "GET"
  }

  /** The header lines of a request, less those curl sets itself. */
  function HeaderLines(headers: seq<(string, string)>, secrets: seq<string>, show: bool): seq<string>
    requires NonEmpty(secrets)
  {
    if headers == [] then []
    else (if Lower(headers[0].0) in {"content-length", "host"} then []
          else [headers[0].0 + ": " + HeaderForDisplay(headers[0].0, headers[0].1, secrets, show)])
         + HeaderLines(headers[1..], secrets, show)
  }

  lemma OptionRead(c: Command, value: string, rest: seq<string>)
    ensures ReadOptions(c, ["-X", value] + rest) == ReadOptions(c.(verb := Some(value)), rest)
    ensures ReadOptions(c, ["-H", value] + rest) == ReadOptions(c.(headers := c.headers + [value]), rest)
    ensures ReadOptions(c, ["--data-raw", value] + rest) == ReadOptions(c.(data := Some(value)), rest)
    ensures value !in {"-X", "-H", "--data-raw"} ==> ReadOptions(c, [value] + rest) == ReadOptions(c.(urls := c.urls + [value]), rest)
  {
    assert (["-X", value] + rest)[2..] == rest && (["-H", value] + rest)[2..] == rest;
    assert (["--data-raw", value] + rest)[2..] == rest && ([value] + rest)[1..] == rest;
  }

  lemma HeaderFirst(headers: seq<(string, string)>, secrets: seq<string>, show: bool, rest: seq<string>)
    requires NonEmpty(secrets) && headers != []
    ensures var line := HeaderLine(headers[0].0, headers[0].1, secrets, show);
            var words, lines := HeaderWords(headers[1..], secrets, show), HeaderLines(headers[1..], secrets, show);
            && HeaderWords(headers, secrets, show) + rest
               == (if Managed(headers[0].0) then words + rest else ["-H", line] + (words + rest))
            && HeaderLines(headers, secrets, show) == (if Managed(headers[0].0) then lines else [line] + lines)
  {
    hide HeaderForDisplay, Lower;
  }

  lemma NoHeaders(secrets: seq<string>, show: bool, rest: seq<string>)
    requires NonEmpty(secrets)
    ensures HeaderWords([], secrets, show) + rest == rest && HeaderLines([], secrets, show) == []
  {
  }

  lemma {:induction false} HeadersRead(c: Command, headers: seq<(string, string)>, secrets: seq<string>, show: bool, rest: seq<string>)
    requires NonEmpty(secrets)
    ensures ReadOptions(c, HeaderWords(headers, secrets, show) + rest)
            == ReadOptions(c.(headers := c.headers + HeaderLines(headers, secrets, show)), rest)
    decreases |headers|
  {
    hide *;
    if headers == [] {
      NoHeaders(secrets, show, rest);
      assert c.headers + [] == c.headers;
    } else {
      HeaderFirst(headers, secrets, show, rest);
      var words, lines := HeaderWords(headers[1..], secrets, show), HeaderLines(headers[1..], secrets, show);
      if Managed(headers[0].0) {
        HeadersRead(c, headers[1..], secrets, show, rest);
      } else {
        var line := HeaderLine(headers[0].0, headers[0].1, secrets, show);
        OptionRead(c, line, words + rest);
        HeadersRead(c.(headers := c.headers + [line]), headers[1..], secrets, show, rest);
        assert c.headers + [line] + lines == c.headers + ([line] + lines);
      }
    }
  }

  /** The command as curl reads it. */
  function CommandOf(r: SentRequest, upper: string -> string, secrets: seq<string>, show: bool): Command
    requires NonEmpty(secrets)
  {
    ReadOptions(Command(None, [], [], None), Argv(r, upper, secrets, show)[1..])
  }

  /** A printed command asks curl for the redacted request: its method unless it is GET,
      its URL, its headers in order and its body unless it is empty. */
  lemma CommandAsks(r: SentRequest, upper: string -> string, secrets: seq<string>, show: bool)
    requires NonEmpty(secrets) && ApplyAll(secrets, r.url) !in {"-X", "-H", "--data-raw"}
    ensures Argv(r, upper, secrets, show)[0] == "curl"
    ensures CommandOf(r, upper, secrets, show)
            == Command(if Spells(r.verb, "GET") then None else Some(upper(r.verb)),
                       [ApplyAll(secrets, r.url)],
                       HeaderLines(r.headers, secrets, show),
                       if r.body == None || r.body == Some("") then None else Some(ApplyAll(secrets, r.body.value)))
  {
    hide ReadOptions, HeaderLines, HeaderWords, ApplyAll, Lower, Spells;
    VerbIsGet(r);
    var start := Command(None, [], [], None);
    var url := ApplyAll(secrets, r.url);
    var a := if IsGet(r) then [] else ["-X", upper(r.verb)];
    var d := if HasBody(r) then ["--data-raw", ApplyAll(secrets, r.body.value)] else [];
    var rest := HeaderWords(r.headers, secrets, show) + d;
    assert Argv(r, upper, secrets, show)[1..] == a + ([url] + rest);
    var c := if IsGet(r) then start else start.(verb := Some(upper(r.verb)));
    OptionRead(start, upper(r.verb), [url] + rest);
    assert [] + ([url] + rest) == [url] + rest;
    OptionRead(c, url, rest);
    assert [] + [url] == [url];
    var c' := c.(urls := [url]);
    HeadersRead(c', r.headers, secrets, show, d);
    assert [] + HeaderLines(r.headers, secrets, show) == HeaderLines(r.headers, secrets, show);
    DataRead(c'.(headers := HeaderLines(r.headers, secrets, show)), d);
  }

  lemma VerbIsGet(r: SentRequest)
    ensures IsGet(r) <==> Spells(r.verb, "GET")
  {
    LowerIff(r.verb, "GET");
    assert Lower("GET") == "get";
  }

  lemma DataRead(c: Command, d: seq<string>)
    requires d == [] || (|d| == 2 && d[0] == "--data-raw")
    ensures ReadOptions(c, d) == if d == [] then c else c.(data := Some(d[1]))
  {
    if d != [] { OptionRead(c, d[1], []); assert d == ["--data-raw", d[1]] + []; }
  }

  /** The method curl uses is the request's if and only if the request is not a GET with
      a body: that one is sent as POST. */
  lemma MethodKeptIff(r: SentRequest, upper: string -> string, secrets: seq<string>, show: bool)
    requires NonEmpty(secrets) && ApplyAll(secrets, r.url) !in {"-X", "-H", "--data-raw"}
    requires Spells(r.verb, "GET") ==> upper(r.verb) == "GET"
    ensures MethodUsed(CommandOf(r, upper, secrets, show)) == upper(r.verb)
            <==> !(Spells(r.verb, "GET") && r.body != None && r.body != Some(""))
  {
    hide CommandOf, ApplyAll, HeaderLines, Spells;
    CommandAsks(r, upper, secrets, show);
  }

  // ---------- what the reader refuses ----------

  /** Outside quotes, a character that means something else to the shell is not read as
      a word. */
  lemma SpecialRefused(c: char, rest: string, words: seq<string>, word: Option<string>)
    requires c in {'|', '&', ';', '<', '>', '(', ')', '$', '`', '"', '\n', '*', '?', '[', '#', '~', '=', '%'}
    ensures Lex([c] + rest, words, word) == None
  {
  }

  /** Blanks end a word, and begin none. */
  lemma BlanksEnd(rest: string, words: seq<string>, word: Option<string>)
    ensures forall c :: c in {' ', '\t'} ==>
              Lex([c] + rest, words, word) == Lex(rest, if word == None then words else words + [word.value], None)
  {
    forall c | c in {' ', '\t'}
      ensures Lex([c] + rest, words, word) == Lex(rest, if word == None then words else words + [word.value], None)
    {
      assert ([c] + rest)[1..] == rest;
    }
  }
}
