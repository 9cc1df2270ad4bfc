/** Server-sent events: an incremental parser whose result does not depend on how
    the bytes were cut. */
module Sse {
  import opened Text
  import opened Decimal

  datatype Event = Event(name: Option<string>, data: string, id: Option<string>, retryMs: Option<nat>)

  const LF: byte := 10
  const CR: byte := 13

  /** What the lines since the last event have set, and the last id ever set. */
  datatype Fields = Fields(name: Option<string>, data: seq<string>, lastId: Option<string>,
                           retryMs: Option<nat>, started: bool)

  const FRESH := Fields(None, [], None, None, false)

  /** What one line does: the fields after it and the event it dispatches, if any. */
  datatype Stepped = Stepped(fields: Fields, event: Option<Event>)

  // ---------- one line ----------

  function StripSpace(value: string): string {
    if " " <= value then value[1..] else value
  }

  /** Field name and value of a line that is neither blank nor a comment. */
  function FieldOf(line: string): (string, string) {
    match SplitOnce(line, ':')
    case Some((field, value)) => (field, StripSpace(value))
    case None => (line, "")
  }

  function Line(f: Fields, line: string): Stepped {
    if line == "" then
      if f.started then Stepped(Cleared(f), Some(Dispatched(f))) else Stepped(f, None)
    else if line[0] == ':' then Stepped(f, None)
    else
      var (field, value) := FieldOf(line);
      Stepped(Absorb(f, field, value), None)
  }

  function Absorb(f: Fields, field: string, value: string): Fields {
    if field == "event" then f.(name := Some(value), started := true)
    else if field == "data" then f.(data := f.data + [value], started := true)
    else if field == "id" then f.(lastId := if '\0' in value then f.lastId else Some(value), started := true)
    else if field == "retry" then
      var ms := ParseUnsigned(value, U64_MAX);
      f.(retryMs := if ms.Some? then ms else f.retryMs, started := true)
    else f
  }

  function Dispatched(f: Fields): Event {
    Event(f.name, Join(f.data, "\n"), f.lastId, f.retryMs)
  }

  function Cleared(f: Fields): Fields {
    Fields(None, [], f.lastId, None, false)
  }

  // ---------- the parser ----------

  /** Everything a parser holds. `lossy` stands for `from_utf8_lossy`: nothing below
      depends on what it does. */
  datatype State = State(buffer: seq<byte>, fields: Fields)

  datatype Pushed = Pushed(state: State, events: seq<Event>)

  function StripCr(line: seq<byte>): seq<byte> {
    if line != [] && line[|line| - 1] == CR then line[..|line| - 1] else line
  }

  function LineText(lossy: seq<byte> -> string, line: seq<byte>): string {
    lossy(StripCr(line))
  }

  function OptionSeq<T>(o: Option<T>): seq<T> {
    match o case None => [] case Some(x) => [x]
  }

  /** Take every complete line out of the buffer. */
  function Drain(lossy: seq<byte> -> string, s: State): Pushed
    decreases |s.buffer|
  {
    match IndexOf(s.buffer, LF)
    case None => Pushed(s, [])
    case Some(i) =>
      var step := Line(s.fields, LineText(lossy, s.buffer[..i]));
      var rest := Drain(lossy, State(s.buffer[i + 1..], step.fields));
      Pushed(rest.state, OptionSeq(step.event) + rest.events)
  }

  function Push(lossy: seq<byte> -> string, s: State, chunk: seq<byte>): Pushed {
    Drain(lossy, s.(buffer := s.buffer + chunk))
  }

  /** Push the pieces of a stream one after another. */
  function PushAll(lossy: seq<byte> -> string, s: State, chunks: seq<seq<byte>>): Pushed
    decreases |chunks|
  {
    if chunks == [] then Pushed(s, [])
    else
      var first := Push(lossy, s, chunks[0]);
      var rest := PushAll(lossy, first.state, chunks[1..]);
      Pushed(rest.state, first.events + rest.events)
  }

  /** The end of a stream: a line without LF is taken, then an event under way given. */
  function Finished(lossy: seq<byte> -> string, s: State): Stepped {
    var fields := if s.buffer == [] then s.fields else Line(s.fields, lossy(s.buffer)).fields;
    if fields.started then Stepped(Cleared(fields), Some(Dispatched(fields))) else Stepped(fields, None)
  }

  function Concat(chunks: seq<seq<byte>>): seq<byte> {
    if chunks == [] then [] else chunks[0] + Concat(chunks[1..])
  }

  class Parser {
    var buffer: seq<byte>
    var name: Option<string>
    var data: seq<string>
    var lastId: Option<string>
    var retryMs: Option<nat>
    var started: bool
    const lossy: seq<byte> -> string

    constructor (lossy: seq<byte> -> string)
      ensures Now() == State([], FRESH) && this.lossy == lossy
    {
      buffer, name, data, lastId, retryMs, started := [], None, [], None, None, false;
      this.lossy := lossy;
    }

    function Now(): State
      reads this
    {
      State(buffer, Fields(name, data, lastId, retryMs, started))
    }

    method PushChunk(chunk: seq<byte>) returns (events: seq<Event>)
      modifies this
      ensures Pushed(Now(), events) == Push(lossy, old(Now()), chunk)
    {
      hide Line, LineText, Drain;
      buffer := buffer + chunk;
      events := [];
      ghost var whole := Drain(lossy, Now());
      NoEvents(whole.events);
      while true
        invariant whole == Pushed(Drain(lossy, Now()).state, events + Drain(lossy, Now()).events)
        decreases |buffer|
      {
        match IndexOf(buffer, LF) {
          case None =>
            DrainNothing(lossy, Now());
            NoEvents(events);
            return;
          case Some(index) =>
            DrainStep(lossy, Now(), events, index);
            var line := LineText(lossy, buffer[..index]);
            buffer := buffer[index + 1..];
            var event := TakeLine(line);
            NoEvents(events);
            if event.Some? {
              events := events + [event.value];
            }
        }
      }
    }

    /** The stream is over: give the event that no blank line has ended. */
    method Finish() returns (event: Option<Event>)
      modifies this
      ensures Stepped(Now().fields, event) == Finished(lossy, old(Now())) && Now().buffer == []
    {
      if buffer != [] {
        var line := lossy(buffer);
        buffer := [];
        var ignored := TakeLine(line);
      }
      event := None;
      if started {
        var e := Dispatch();
        event := Some(e);
      }
    }

    method TakeLine(line: string) returns (event: Option<Event>)
      modifies this`name, this`data, this`lastId, this`retryMs, this`started
      ensures Stepped(Now().fields, event) == Line(old(Now()).fields, line)
    {
      if line == "" {
        if started {
          var e := Dispatch();
          return Some(e);
        }
        return None;
      }
      if line[0] == ':' {
        return None;
      }
      var (field, value) := FieldOf(line);
      if field == "event" {
        name := Some(value);
        started := true;
      } else if field == "data" {
        data := data + [value];
        started := true;
      } else if field == "id" {
        if '\0' !in value {
          lastId := Some(value);
        }
        started := true;
      } else if field == "retry" {
        var ms := ParseUnsigned(value, U64_MAX);
        if ms.Some? {
          retryMs := ms;
        }
        started := true;
      }
      event := None;
    }

    method Dispatch() returns (event: Event)
      modifies this`name, this`data, this`retryMs, this`started
      ensures event == Dispatched(old(Now()).fields) && Now().fields == Cleared(old(Now()).fields)
    {
      event := Event(name, Join(data, "\n"), lastId, retryMs);
      name, retryMs := None, None;
      data := [];
      started := false;
    }
  }

  lemma NoEvents(events: seq<Event>)
    ensures [] + events == events && events + [] == events
  {
  }

  lemma DrainNothing(lossy: seq<byte> -> string, s: State)
    requires IndexOf(s.buffer, LF).None?
    ensures Drain(lossy, s) == Pushed(s, [])
  {
  }

  lemma DrainStep(lossy: seq<byte> -> string, s: State, events: seq<Event>, i: nat)
    requires IndexOf(s.buffer, LF) == Some(i)
    ensures var step := Line(s.fields, LineText(lossy, s.buffer[..i]));
            var rest := Drain(lossy, State(s.buffer[i + 1..], step.fields));
            && Drain(lossy, s).state == rest.state
            && events + Drain(lossy, s).events == events + OptionSeq(step.event) + rest.events
  {
    hide Line, LineText;
  }

  // ---------- cutting the stream changes nothing ----------

  lemma {:induction false} IndexOfPrefix(x: seq<byte>, b: seq<byte>)
    ensures IndexOf(x, LF).Some? ==> IndexOf(x + b, LF) == IndexOf(x, LF)
  {
    if x != [] && x[0] != LF {
      assert (x + b)[1..] == x[1..] + b;
      IndexOfPrefix(x[1..], b);
    }
  }

  /** What is left after draining holds no complete line. */
  lemma {:induction false} DrainLeavesTail(lossy: seq<byte> -> string, s: State)
    ensures LF !in Drain(lossy, s).state.buffer
    decreases |s.buffer|
  {
    hide Line, LineText;
    if IndexOf(s.buffer, LF).Some? {
      var i := IndexOf(s.buffer, LF).value;
      DrainLeavesTail(lossy, State(s.buffer[i + 1..], Line(s.fields, LineText(lossy, s.buffer[..i])).fields));
    }
  }

  lemma {:induction false} DrainAppend(lossy: seq<byte> -> string, s: State, b: seq<byte>)
    ensures var first := Drain(lossy, s);
            var then_ := Push(lossy, first.state, b);
            Push(lossy, s, b) == Pushed(then_.state, first.events + then_.events)
    decreases |s.buffer|
  {
    hide Line, LineText, Drain, IndexOf, OptionSeq;
    IndexOfPrefix(s.buffer, b);
    match IndexOf(s.buffer, LF)
    case None =>
      DrainNothing(lossy, s);
      NoEvents(Push(lossy, s, b).events);
    case Some(i) =>
      var x := s.buffer;
      assert (x + b)[..i] == x[..i] && (x + b)[i + 1..] == x[i + 1..] + b;
      var step := Line(s.fields, LineText(lossy, x[..i]));
      var next := State(x[i + 1..], step.fields);
      DrainAppend(lossy, next, b);
      DrainFirst(lossy, s, i);
      DrainFirst(lossy, s.(buffer := x + b), i);
      var rest := Drain(lossy, next);
      var more := Push(lossy, rest.state, b).events;
      assert OptionSeq(step.event) + (rest.events + more) == OptionSeq(step.event) + rest.events + more;
  }

  lemma DrainFirst(lossy: seq<byte> -> string, s: State, i: nat)
    requires IndexOf(s.buffer, LF) == Some(i)
    ensures var step := Line(s.fields, LineText(lossy, s.buffer[..i]));
            var rest := Drain(lossy, State(s.buffer[i + 1..], step.fields));
            Drain(lossy, s) == Pushed(rest.state, OptionSeq(step.event) + rest.events)
  {
    hide Line, LineText;
  }

  /** However a stream is cut, pushing the pieces yields the events and the state of
      pushing it whole. */
  lemma {:induction false} ChunksDoNotMatter(lossy: seq<byte> -> string, s: State, chunks: seq<seq<byte>>)
    requires LF !in s.buffer
    ensures PushAll(lossy, s, chunks) == Push(lossy, s, Concat(chunks))
    decreases |chunks|
  {
    hide Drain;
    if chunks == [] {
      DrainNothing(lossy, s);
      assert s.buffer + [] == s.buffer;
    } else {
      var first := Push(lossy, s, chunks[0]);
      DrainLeavesTail(lossy, s.(buffer := s.buffer + chunks[0]));
      ChunksDoNotMatter(lossy, first.state, chunks[1..]);
      DrainAppend(lossy, s.(buffer := s.buffer + chunks[0]), Concat(chunks[1..]));
      assert s.buffer + chunks[0] + Concat(chunks[1..]) == s.buffer + (chunks[0] + Concat(chunks[1..]));
    }
  }

  // ---------- lines ----------

  /** Take lines one after another. */
  function Lines(f: Fields, lines: seq<string>): (Fields, seq<Event>)
    decreases |lines|
  {
    if lines == [] then (f, [])
    else
      var step := Line(f, lines[0]);
      var (f', events) := Lines(step.fields, lines[1..]);
      (f', OptionSeq(step.event) + events)
  }

  function Texts(lossy: seq<byte> -> string, lines: seq<seq<byte>>): seq<string> {
    Map((line: seq<byte>) => LineText(lossy, line), lines)
  }

  lemma LinesStep(f: Fields, lines: seq<string>)
    requires lines != []
    ensures var (f', events) := Lines(Line(f, lines[0]).fields, lines[1..]);
            Lines(f, lines) == (f', OptionSeq(Line(f, lines[0]).event) + events)
  {
    hide Line;
  }

  /** Pushing is folding `Line` over the complete LF-terminated lines; the last,
      unterminated one stays in the buffer. */
  lemma {:induction false} PushFoldsLines(lossy: seq<byte> -> string, s: State)
    ensures var parts := Split(s.buffer, LF);
            var (fields, events) := Lines(s.fields, Texts(lossy, parts[..|parts| - 1]));
            Drain(lossy, s) == Pushed(State(parts[|parts| - 1], fields), events)
    decreases |s.buffer|
  {
    hide Line, LineText, Drain, Lines, OptionSeq;
    var parts := Split(s.buffer, LF);
    match IndexOf(s.buffer, LF)
    case None =>
      DrainNothing(lossy, s);
      NoLines(lossy, s.fields, parts);
    case Some(i) =>
      var step := Line(s.fields, LineText(lossy, s.buffer[..i]));
      var next := State(s.buffer[i + 1..], step.fields);
      PushFoldsLines(lossy, next);
      DrainFirst(lossy, s, i);
      var rest := Split(next.buffer, LF);
      assert parts == [s.buffer[..i]] + rest;
      var texts := Texts(lossy, parts[..|parts| - 1]);
      assert texts[0] == LineText(lossy, s.buffer[..i]);
      assert texts[1..] == Texts(lossy, rest[..|rest| - 1]);
      LinesStep(s.fields, texts);
  }

  lemma NoLines(lossy: seq<byte> -> string, f: Fields, parts: seq<seq<byte>>)
    requires |parts| == 1
    ensures Lines(f, Texts(lossy, parts[..0])) == (f, [])
  {
  }
}
