/** From the bytes of an event stream to its events: the parser against section 9.2.6 of
    the WHATWG HTML standard. */
module SseStream {
  import opened Text
  import opened Decimal
  import opened Sse
  import opened SseEvents
  import opened SseStandard

  // ---------- the standard's events ----------

  function StandardRetry(value: string): Option<nat> {
    if OnlyDigits(value) then Some(ValueOf(value)) else None
  }

  function StandardRetries(values: seq<string>): seq<nat> {
    if values == [] then [] else OptionSeq(StandardRetry(values[0])) + StandardRetries(values[1..])
  }

  /** The standard's event of a block, its retry time read by the standard's test too. */
  function StandardBlock(id: Option<string>, block: seq<string>): seq<Event> {
    Map((e: Event) => e.(retryMs := Last(StandardRetries(ValuesOf(block, "retry")), None)), StandardBlockEvent(id, block))
  }

  function StandardBlocks(id: Option<string>, lines: seq<string>): seq<Event>
    decreases |lines|
  {
    match IndexOf(lines, "")
    case None => []
    case Some(i) => StandardBlock(id, lines[..i]) + StandardBlocks(IdAfter(id, lines[..i]), lines[i + 1..])
  }

  /** The events the standard reads from the bytes of a stream. */
  function StandardStream(lossy: seq<byte> -> string, bytes: seq<byte>): seq<Event> {
    StandardBlocks(None, Map(lossy, StandardLines(bytes)))
  }

  // ---------- retry times ----------

  /** Every retry value is one that both tests read alike. */
  ghost predicate PlainRetries(lines: seq<string>) {
    forall line :: line in lines && ValueOn(line, "retry").Some? ==> PlainRetry(ValueOn(line, "retry").value)
  }

  lemma RetryRead(value: string)
    requires PlainRetry(value)
    ensures ParseUnsigned(value, U64_MAX) == StandardRetry(value)
  {
    hide ValueOf;
    RetryAgreesIff(value);
    if OnlyDigits(value) { assert IsDigit(value[0]); }
  }

  lemma {:induction false} RetriesRead(lines: seq<string>)
    requires PlainRetries(lines)
    ensures ValidRetries(ValuesOf(lines, "retry")) == StandardRetries(ValuesOf(lines, "retry"))
  {
    hide ValueOn, PlainRetry, ParseUnsigned, StandardRetry;
    if lines != [] {
      var v, rest := ValueOn(lines[0], "retry"), ValuesOf(lines[1..], "retry");
      RetriesRead(lines[1..]);
      assert [] + rest == rest;
      if v.Some? {
        RetryRead(v.value);
        assert ([v.value] + rest)[1..] == rest;
      }
    }
  }

  lemma BlockRead(id: Option<string>, block: seq<string>)
    requires PlainRetries(block)
    ensures StandardBlock(id, block) == StandardBlockEvent(id, block)
  {
    hide ValuesOf, ValidRetries, StandardRetries, PlainRetries, IdAfter;
    RetriesRead(block);
  }

  lemma PlainParts(lines: seq<string>, i: nat)
    requires PlainRetries(lines) && i < |lines|
    ensures PlainRetries(lines[..i]) && PlainRetries(lines[i + 1..])
  {
    hide ValueOn, PlainRetry;
  }

  lemma BlocksCut(id: Option<string>, lines: seq<string>)
    ensures IndexOf(lines, "").None? ==> StandardBlocks(id, lines) == [] && StandardEventsOf(id, lines) == []
    ensures IndexOf(lines, "").Some? ==>
              var i := IndexOf(lines, "").value;
              StandardBlocks(id, lines) == StandardBlock(id, lines[..i]) + StandardBlocks(IdAfter(id, lines[..i]), lines[i + 1..])
  {
    hide StandardBlock, IdAfter;
  }

  lemma {:induction false} BlocksRead(id: Option<string>, lines: seq<string>)
    requires PlainRetries(lines)
    ensures StandardBlocks(id, lines) == StandardEventsOf(id, lines)
    decreases |lines|
  {
    hide StandardBlock, StandardBlockEvent, IdAfter, PlainRetries, StandardBlocks, StandardEventsOf;
    BlocksCut(id, lines);
    if IndexOf(lines, "").Some? {
      var i := IndexOf(lines, "").value;
      CutAtBlank(id, lines, i);
      PlainParts(lines, i);
      BlockRead(id, lines[..i]);
      BlocksRead(IdAfter(id, lines[..i]), lines[i + 1..]);
    }
  }

  // ---------- from bytes to events ----------

  /** However a stream arrives, the parser gives the events of the standard if and only if
      every block that sets a field has a data line, provided that every CR is followed
      by an LF, no byte order mark stands in front and every retry time is plain. */
  lemma StreamAgreesIff(lossy: seq<byte> -> string, chunks: seq<seq<byte>>)
    requires EveryCrHasLf(Concat(chunks)) && !(BOM <= Concat(chunks) && LF in Concat(chunks))
    requires PlainRetries(Map(lossy, ParserLines(Concat(chunks))))
    ensures PushAll(lossy, State([], FRESH), chunks).events == StandardStream(lossy, Concat(chunks))
            <==> DataInEveryBlock(Map(lossy, ParserLines(Concat(chunks))))
  {
    hide PushAll, ParserLines, StandardLines, PlainRetries, EventsOf, StandardBlocks, DataInEveryBlock, EveryCrHasLf,
         Idle, Split;
    var bytes := Concat(chunks);
    var lines := Map(lossy, ParserLines(bytes));
    StreamEvents(lossy, chunks);
    ParserTexts(lossy, bytes);
    LinesAgreeIff(bytes);
    BlocksRead(None, lines);
    DispatchIff(None, lines);
  }

  // ---------- the end of a stream ----------

  /** The lines behind the last blank one. */
  function Tail(lines: seq<string>): seq<string>
    decreases |lines|
  {
    match IndexOf(lines, "")
    case None => lines
    case Some(i) => Tail(lines[i + 1..])
  }

  /** The line a stream breaks off in. */
  function LastLine(lossy: seq<byte> -> string, bytes: seq<byte>): seq<string> {
    var parts := Split(bytes, LF);
    if parts[|parts| - 1] == [] then [] else [lossy(parts[|parts| - 1])]
  }

  lemma TailStep(lines: seq<string>)
    ensures IndexOf(lines, "").None? ==> Tail(lines) == lines
    ensures IndexOf(lines, "").Some? ==> Tail(lines) == Tail(lines[IndexOf(lines, "").value + 1..])
  {
  }

  lemma FreshAfter(id: Option<string>, lines: seq<string>)
    ensures After(FRESH.(lastId := id), lines).started <==> Sets(lines)
  {
    hide ValuesOf, AcceptedIds, ValidRetries;
  }

  lemma FieldsAppend(f: Fields, a: seq<string>, b: seq<string>)
    ensures Lines(f, a + b).0 == Lines(Lines(f, a).0, b).0
  {
    hide Line, Lines;
    LinesAppend(f, a, b);
  }

  /** After the first blank line the parser is idle, whatever stood before it. */
  lemma FieldsBehindBlank(id: Option<string>, block: seq<string>, rest: seq<string>)
    requires "" !in block
    ensures Lines(FRESH.(lastId := id), block + ([""] + rest)).0 == Lines(FRESH.(lastId := IdAfter(id, block)), rest).0
  {
    hide Line, Lines, After, BlockEvent, IdAfter;
    var f := FRESH.(lastId := id);
    FieldsAppend(f, block, [""] + rest);
    LinesWithoutBlank(f, block);
    FieldsAppend(After(f, block), [""], rest);
    BlankLine(id, block);
  }

  /** An event is under way exactly when a line since the last blank one set a field. */
  lemma {:induction false} StartedIff(id: Option<string>, lines: seq<string>)
    ensures Lines(FRESH.(lastId := id), lines).0.started <==> Sets(Tail(lines))
    decreases |lines|
  {
    hide Sets, Lines, After, IdAfter, Tail;
    TailStep(lines);
    match IndexOf(lines, "")
    case None =>
      LinesWithoutBlank(FRESH.(lastId := id), lines);
      FreshAfter(id, lines);
    case Some(i) =>
      assert lines == lines[..i] + ([""] + lines[i + 1..]);
      FieldsBehindBlank(id, lines[..i], lines[i + 1..]);
      StartedIff(IdAfter(id, lines[..i]), lines[i + 1..]);
  }

  lemma FinishedIff(lossy: seq<byte> -> string, f: Fields, rest: seq<byte>)
    ensures Finished(lossy, State(rest, f)).event.Some?
            <==> Lines(f, if rest == [] then [] else [lossy(rest)]).0.started
  {
    hide Line;
    if rest != [] { assert [lossy(rest)][1..] == []; }
  }

  /** What `finish` gives after a whole stream: an event exactly when a line since the
      last blank one, the unfinished one included, set a field. */
  lemma FinishGivesIff(lossy: seq<byte> -> string, chunks: seq<seq<byte>>)
    ensures var bytes := Concat(chunks);
            Finished(lossy, PushAll(lossy, State([], FRESH), chunks).state).event.Some?
            <==> Sets(Tail(Map(lossy, ParserLines(bytes)) + LastLine(lossy, bytes)))
  {
    hide Line, Lines, Finished, Drain, PushAll, Sets, Tail, ParserLines, Split;
    var bytes := Concat(chunks);
    var lines, parts := Map(lossy, ParserLines(bytes)), Split(bytes, LF);
    ChunksDoNotMatter(lossy, State([], FRESH), chunks);
    assert [] + bytes == bytes;
    PushFoldsLines(lossy, State(bytes, FRESH));
    ParserTexts(lossy, bytes);
    FinishedIff(lossy, Lines(FRESH, lines).0, parts[|parts| - 1]);
    LinesAppend(FRESH, lines, LastLine(lossy, bytes));
    FreshIsIdle();
    StartedIff(None, lines + LastLine(lossy, bytes));
  }

  lemma NeverMore(id: Option<string>, lines: seq<string>)
    ensures |StandardEventsOf(id, lines)| <= |EventsOf(id, lines)|
  {
    hide EventsOf, StandardEventsOf, DataInEveryBlock;
    DispatchCounts(id, lines);
  }

  lemma EventsAppended(events: seq<Event>, last: Option<Event>, standard: seq<Event>)
    requires |standard| <= |events|
    ensures events + OptionSeq(last) == standard <==> events == standard && last.None?
  {
    if last.None? { assert events + OptionSeq(last) == events; }
  }

  /** The events of a whole stream, that of `finish` included, are those of the standard
      if and only if every block has data and no field is set behind the last one. */
  lemma FinishedStreamAgreesIff(lossy: seq<byte> -> string, chunks: seq<seq<byte>>)
    requires EveryCrHasLf(Concat(chunks)) && !(BOM <= Concat(chunks) && LF in Concat(chunks))
    requires PlainRetries(Map(lossy, ParserLines(Concat(chunks))))
    ensures var pushed, bytes := PushAll(lossy, State([], FRESH), chunks), Concat(chunks);
            var lines := Map(lossy, ParserLines(bytes));
            pushed.events + OptionSeq(Finished(lossy, pushed.state).event) == StandardStream(lossy, bytes)
            <==> DataInEveryBlock(lines) && !Sets(Tail(lines + LastLine(lossy, bytes)))
  {
    hide PushAll, ParserLines, StandardLines, PlainRetries, EventsOf, StandardEventsOf, StandardBlocks, DataInEveryBlock,
         EveryCrHasLf, Idle, Split, Finished, Sets, Tail, LastLine;
    var pushed, bytes := PushAll(lossy, State([], FRESH), chunks), Concat(chunks);
    var lines := Map(lossy, ParserLines(bytes));
    StreamAgreesIff(lossy, chunks);
    FinishGivesIff(lossy, chunks);
    StreamEvents(lossy, chunks);
    ParserTexts(lossy, bytes);
    LinesAgreeIff(bytes);
    BlocksRead(None, lines);
    NeverMore(None, lines);
    EventsAppended(pushed.events, Finished(lossy, pushed.state).event, StandardStream(lossy, bytes));
  }
}
