/** What the parser's events are: one for each block of lines that ends in a blank
    line and sets some field. */
module SseEvents {
  import opened Text
  import opened Decimal
  import opened Sse

  // ---------- between events ----------

  /** Nothing is pending while no line has set anything. */
  predicate Idle(f: Fields) {
    !f.started ==> f.name == None && f.data == [] && f.retryMs == None
  }

  lemma {:induction false} LinesKeepIdle(f: Fields, lines: seq<string>)
    requires Idle(f)
    ensures Idle(Lines(f, lines).0)
    decreases |lines|
  {
    if lines != [] {
      LineKeepsIdle(f, lines[0]);
      LinesKeepIdle(Line(f, lines[0]).fields, lines[1..]);
    }
  }

  /** A line keeps the parser idle or busy consistently, and after an event nothing
      of it is left but the id. */
  lemma LineKeepsIdle(f: Fields, line: string)
    requires Idle(f)
    ensures Idle(Line(f, line).fields)
    ensures Line(f, line).event.Some? ==> f.started && Line(f, line).fields == FRESH.(lastId := f.lastId)
  {
    hide FieldOf, ParseUnsigned;
  }

  /** A line is a field and its value around the first colon, less one space in front of
      the value; without a colon the value is empty. */
  lemma FieldReads(name: string, value: string)
    requires ':' !in name
    ensures FieldOf(name + ": " + value) == (name, value)
    ensures value == "" || value[0] != ' ' ==> FieldOf(name + ":" + value) == (name, value)
    ensures FieldOf(name) == (name, "")
  {
    hide SplitOnce;
    SplitOnceFirst(name, ':', " " + value);
    SplitOnceFirst(name, ':', value);
    assert name + ": " + value == name + [':'] + (" " + value) && name + ":" + value == name + [':'] + value;
    assert (" " + value)[1..] == value;
  }

  // ---------- a block of lines ----------

  /** The value a line gives to a field. */
  function ValueOn(line: string, field: string): Option<string> {
    if line == "" || line[0] == ':' then None
    else if FieldOf(line).0 == field then Some(FieldOf(line).1)
    else None
  }

  function ValuesOf(lines: seq<string>, field: string): seq<string> {
    if lines == [] then []
    else OptionSeq(ValueOn(lines[0], field)) + ValuesOf(lines[1..], field)
  }

  function Last<T>(xs: seq<T>, before: Option<T>): Option<T> {
    if xs == [] then before else Some(xs[|xs| - 1])
  }

  function AcceptedIds(values: seq<string>): seq<string> {
    Filter((v: string) => '\0' !in v, values)
  }

  function ValidRetries(values: seq<string>): seq<nat> {
    if values == [] then []
    else OptionSeq(ParseUnsigned(values[0], U64_MAX)) + ValidRetries(values[1..])
  }

  /** Whether some line sets one of the four fields. */
  predicate Sets(lines: seq<string>) {
    ValuesOf(lines, "event") != [] || ValuesOf(lines, "data") != [] || ValuesOf(lines, "id") != []
    || ValuesOf(lines, "retry") != []
  }

  /** The fields after some lines without a blank one: the last name, all the data,
      the last accepted id and the last valid retry. */
  function After(f: Fields, lines: seq<string>): Fields {
    Fields(Last(ValuesOf(lines, "event"), f.name),
           f.data + ValuesOf(lines, "data"),
           Last(AcceptedIds(ValuesOf(lines, "id")), f.lastId),
           Last(ValidRetries(ValuesOf(lines, "retry")), f.retryMs),
           f.started || Sets(lines))
  }

  lemma LastCons<T>(x: seq<T>, xs: seq<T>, before: Option<T>)
    requires |x| <= 1
    ensures Last(x + xs, before) == Last(xs, Last(x, before))
  {
    if xs == [] { assert x + xs == x; }
  }

  lemma {:induction false} ValidRetriesAppend(a: seq<string>, b: seq<string>)
    requires |a| <= 1
    ensures ValidRetries(a + b) == ValidRetries(a) + ValidRetries(b)
  {
    if a == [] {
      assert a + b == b;
    } else {
      assert (a + b)[1..] == b && a[1..] == [];
    }
  }

  lemma ValuesStep(lines: seq<string>, field: string)
    requires lines != []
    ensures ValuesOf([lines[0]], field) == OptionSeq(ValueOn(lines[0], field))
    ensures ValuesOf(lines, field) == ValuesOf([lines[0]], field) + ValuesOf(lines[1..], field)
  {
    hide ValueOn;
    assert [lines[0]][1..] == [];
  }

  lemma IdsStep(lines: seq<string>, before: Option<string>)
    requires lines != []
    ensures Last(AcceptedIds(ValuesOf(lines, "id")), before)
            == Last(AcceptedIds(ValuesOf(lines[1..], "id")), Last(AcceptedIds(ValuesOf([lines[0]], "id")), before))
  {
    hide ValueOn, ValuesOf, Filter;
    ValuesStep(lines, "id");
    var a, b := ValuesOf([lines[0]], "id"), ValuesOf(lines[1..], "id");
    FilterAppend((v: string) => '\0' !in v, a, b);
    assert AcceptedIds(a + b) == AcceptedIds(a) + AcceptedIds(b);
    LastCons(AcceptedIds(a), AcceptedIds(b), before);
  }

  lemma RetriesStep(lines: seq<string>, before: Option<nat>)
    requires lines != []
    ensures Last(ValidRetries(ValuesOf(lines, "retry")), before)
            == Last(ValidRetries(ValuesOf(lines[1..], "retry")), Last(ValidRetries(ValuesOf([lines[0]], "retry")), before))
  {
    hide ValueOn, ValuesOf;
    ValuesStep(lines, "retry");
    var a, b := ValuesOf([lines[0]], "retry"), ValuesOf(lines[1..], "retry");
    ValidRetriesAppend(a, b);
    OneRetry(a);
    LastCons(ValidRetries(a), ValidRetries(b), before);
  }

  lemma OneRetry(a: seq<string>)
    requires |a| <= 1
    ensures ValidRetries(a) == if a == [] then [] else OptionSeq(ParseUnsigned(a[0], U64_MAX))
  {
    if a != [] { assert a[1..] == []; }
  }

  /** `After` absorbs lines one at a time. */
  lemma AfterStep(f: Fields, lines: seq<string>)
    requires lines != []
    ensures After(f, lines) == After(After(f, [lines[0]]), lines[1..])
  {
    hide ValueOn, ValuesOf, AcceptedIds, ValidRetries, Last;
    var one, rest := [lines[0]], lines[1..];
    ValuesStep(lines, "event");
    ValuesStep(lines, "data");
    ValuesStep(lines, "id");
    ValuesStep(lines, "retry");
    LastCons(ValuesOf(one, "event"), ValuesOf(rest, "event"), f.name);
    assert f.data + (ValuesOf(one, "data") + ValuesOf(rest, "data")) == f.data + ValuesOf(one, "data") + ValuesOf(rest, "data");
    IdsStep(lines, f.lastId);
    RetriesStep(lines, f.retryMs);
  }

  lemma AfterOne(f: Fields, line: string)
    ensures var name, data := ValueOn(line, "event"), ValueOn(line, "data");
            var id, retry := ValueOn(line, "id"), ValueOn(line, "retry");
            After(f, [line]) == Fields(if name.Some? then name else f.name,
                                       f.data + OptionSeq(data),
                                       if id.Some? && '\0' !in id.value then id else f.lastId,
                                       if retry.Some? && ParseUnsigned(retry.value, U64_MAX).Some?
                                       then ParseUnsigned(retry.value, U64_MAX) else f.retryMs,
                                       f.started || name.Some? || data.Some? || id.Some? || retry.Some?)
  {
    hide ValueOn, ParseUnsigned, ValuesOf;
    ValuesStep([line], "event");
    ValuesStep([line], "data");
    ValuesStep([line], "id");
    ValuesStep([line], "retry");
    OneRetry(ValuesOf([line], "retry"));
    var ids := ValuesOf([line], "id");
    if ids != [] { assert ids[1..] == []; }
  }

  lemma LineIsAfter(f: Fields, line: string)
    requires line != ""
    ensures Line(f, line) == Stepped(After(f, [line]), None)
  {
    hide After, ParseUnsigned, FieldOf;
    AfterOne(f, line);
    assert f.data + [] == f.data;
  }

  lemma {:induction false} LinesWithoutBlank(f: Fields, lines: seq<string>)
    requires "" !in lines
    ensures Lines(f, lines) == (After(f, lines), [])
    decreases |lines|
  {
    if lines == [] {
      assert f.data + [] == f.data;
    } else {
      LineIsAfter(f, lines[0]);
      LinesWithoutBlank(After(f, [lines[0]]), lines[1..]);
      AfterStep(f, lines);
    }
  }

  // ---------- all the events ----------

  /** The event of one block, given the id before it. */
  function BlockEvent(id: Option<string>, block: seq<string>): seq<Event> {
    if !Sets(block) then []
    else [Event(Last(ValuesOf(block, "event"), None), Join(ValuesOf(block, "data"), "\n"),
                IdAfter(id, block), Last(ValidRetries(ValuesOf(block, "retry")), None))]
  }

  function IdAfter(id: Option<string>, lines: seq<string>): Option<string> {
    Last(AcceptedIds(ValuesOf(lines, "id")), id)
  }

  /** The events of a stream: cut its lines at the blank ones. */
  function EventsOf(id: Option<string>, lines: seq<string>): seq<Event>
    decreases |lines|
  {
    match IndexOf(lines, "")
    case None => []
    case Some(i) => BlockEvent(id, lines[..i]) + EventsOf(IdAfter(id, lines[..i]), lines[i + 1..])
  }

  lemma {:induction false} LinesAppend(f: Fields, a: seq<string>, b: seq<string>)
    ensures var (f', ea) := Lines(f, a);
            var (f'', eb) := Lines(f', b);
            Lines(f, a + b) == (f'', ea + eb)
    decreases |a|
  {
    hide Line, Lines, OptionSeq;
    if a == [] {
      assert a + b == b;
      NothingToTake(f, Lines(f, b).1);
    } else {
      assert (a + b)[1..] == a[1..] + b;
      LinesAppend(Line(f, a[0]).fields, a[1..], b);
      LinesStep(f, a);
      LinesStep(f, a + b);
      var one := OptionSeq(Line(f, a[0]).event);
      var ea := Lines(Line(f, a[0]).fields, a[1..]).1;
      var eb := Lines(Lines(f, a).0, b).1;
      assert one + (ea + eb) == one + ea + eb;
    }
  }

  lemma NothingToTake(f: Fields, events: seq<Event>)
    ensures Lines(f, []) == (f, []) && [] + events == events
  {
  }

  lemma NothingSet(id: Option<string>, block: seq<string>)
    requires !Sets(block)
    ensures After(FRESH.(lastId := id), block) == FRESH.(lastId := id) && IdAfter(id, block) == id
  {
    hide ValuesOf;
    var none: seq<string> := [];
    assert none + [] == [];
  }

  lemma BlankLine(id: Option<string>, block: seq<string>)
    ensures Lines(After(FRESH.(lastId := id), block), [""])
            == (FRESH.(lastId := IdAfter(id, block)), BlockEvent(id, block))
  {
    hide ValuesOf;
    var f := After(FRESH.(lastId := id), block);
    var none: seq<string> := [];
    assert [""][1..] == none;
    assert none + ValuesOf(block, "data") == ValuesOf(block, "data");
    var step := Line(f, "");
    assert Lines(step.fields, none) == (step.fields, []);
    assert Lines(f, [""]) == (step.fields, OptionSeq(step.event) + []);
    if Sets(block) {
      assert step.event == Some(BlockEvent(id, block)[0]);
      assert OptionSeq(step.event) + [] == BlockEvent(id, block);
    } else {
      NothingSet(id, block);
    }
  }

  /** From an idle parser, the events are exactly those of the blocks: each carries
      its block's name, data and retry, and the last accepted id seen so far. */
  lemma {:induction false} EventsAreBlocks(id: Option<string>, lines: seq<string>)
    ensures Lines(FRESH.(lastId := id), lines).1 == EventsOf(id, lines)
    decreases |lines|
  {
    hide ValuesOf, Sets, Line, Lines, After, BlockEvent, IdAfter, EventsOf;
    var f := FRESH.(lastId := id);
    EventsCut(id, lines);
    match IndexOf(lines, "")
    case None =>
      LinesWithoutBlank(f, lines);
    case Some(i) =>
      var block, rest := lines[..i], lines[i + 1..];
      assert lines == block + ([""] + rest);
      LinesAppend(f, block, [""] + rest);
      LinesWithoutBlank(f, block);
      LinesAppend(After(f, block), [""], rest);
      BlankLine(id, block);
      EventsAreBlocks(IdAfter(id, block), rest);
      var later := Lines(FRESH.(lastId := IdAfter(id, block)), rest).1;
      assert [] + (BlockEvent(id, block) + later) == BlockEvent(id, block) + later;
  }

  /** The events up to the first blank line, and after it. */
  lemma EventsCut(id: Option<string>, lines: seq<string>)
    ensures IndexOf(lines, "").None? ==> EventsOf(id, lines) == []
    ensures IndexOf(lines, "").Some? ==>
              var i := IndexOf(lines, "").value;
              EventsOf(id, lines) == BlockEvent(id, lines[..i]) + EventsOf(IdAfter(id, lines[..i]), lines[i + 1..])
  {
    hide BlockEvent, IdAfter;
  }

  /** For every stream and every way of cutting it. */
  lemma StreamEvents(lossy: seq<byte> -> string, chunks: seq<seq<byte>>)
    ensures var parts := Split(Concat(chunks), LF);
            && PushAll(lossy, State([], FRESH), chunks).events == EventsOf(None, Texts(lossy, parts[..|parts| - 1]))
            && PushAll(lossy, State([], FRESH), chunks).state.buffer == parts[|parts| - 1]
            && Idle(PushAll(lossy, State([], FRESH), chunks).state.fields)
  {
    hide Line, LineText, EventsOf, Idle, Drain, PushAll;
    var stream := Concat(chunks);
    ChunksDoNotMatter(lossy, State([], FRESH), chunks);
    assert [] + stream == stream;
    PushFoldsLines(lossy, State(stream, FRESH));
    var parts := Split(stream, LF);
    EventsAreBlocks(None, Texts(lossy, parts[..|parts| - 1]));
    FreshIsIdle();
    LinesKeepIdle(FRESH, Texts(lossy, parts[..|parts| - 1]));
  }

  lemma FreshIsIdle()
    ensures Idle(FRESH) && FRESH.(lastId := None) == FRESH
  {
  }
}
