/** The capture log: an append-only file of lines, read backwards in chunks. */
module CaptureLog {
  import opened Text
  import opened LineCodec

  // ---------- the simple reader ----------

  /** The captures on some lines, in order; empty and undecodable lines yield none. */
  function Decoded(lines: seq<Bytes>): seq<LoggedCapture> {
    if lines == [] then []
    else OnLine(lines[0]) + Decoded(lines[1..])
  }

  function OnLine(line: Bytes): seq<LoggedCapture> {
    if line == [] then []
    else match DecodeLine(line)
      case None => []
      case Some(c) => [c]
  }

  /** Split the whole file on LF, decode, reverse. */
  function NewestFirst(content: Bytes): seq<LoggedCapture> {
    Reverse(Decoded(Split(content, LF)))
  }

  /** What a visitor saw, whether it still wants more, and its final state. */
  datatype Visit<S> = Visit(seen: seq<LoggedCapture>, wantsMore: bool, state: S)

  /** Hand captures to a visitor until it refuses one. */
  function VisitAll<S>(visit: (S, LoggedCapture) -> (S, bool), s: S, cs: seq<LoggedCapture>): Visit<S> {
    if cs == [] then Visit([], true, s)
    else
      var (s', more) := visit(s, cs[0]);
      if !more then Visit([cs[0]], false, s')
      else
        var rest := VisitAll(visit, s', cs[1..]);
        Visit([cs[0]] + rest.seen, rest.wantsMore, rest.state)
  }

  /** Continue an interrupted walk. */
  function Then<S>(visit: (S, LoggedCapture) -> (S, bool), v: Visit<S>, cs: seq<LoggedCapture>): Visit<S> {
    if !v.wantsMore then v
    else
      var rest := VisitAll(visit, v.state, cs);
      Visit(v.seen + rest.seen, rest.wantsMore, rest.state)
  }

  lemma {:induction false} VisitAppend<S>(visit: (S, LoggedCapture) -> (S, bool), s: S, a: seq<LoggedCapture>, b: seq<LoggedCapture>)
    ensures VisitAll(visit, s, a + b) == Then(visit, VisitAll(visit, s, a), b)
  {
    if a == [] {
      assert a + b == b;
      assert [] + VisitAll(visit, s, b).seen == VisitAll(visit, s, b).seen;
    } else {
      assert (a + b)[1..] == a[1..] + b;
      VisitAppend(visit, visit(s, a[0]).0, a[1..], b);
    }
  }

  /** The visited captures are a prefix of those offered, cut just after the
      first one refused. */
  lemma {:induction false} VisitIsCut<S>(visit: (S, LoggedCapture) -> (S, bool), s: S, cs: seq<LoggedCapture>)
    ensures var v := VisitAll(visit, s, cs);
            && v.seen <= cs
            && if v.wantsMore then v.seen == cs
               else
                 && v.seen != []
                 && VisitAll(visit, s, v.seen[..|v.seen| - 1]).wantsMore
                 && !visit(VisitAll(visit, s, v.seen[..|v.seen| - 1]).state, v.seen[|v.seen| - 1]).1
  {
    if cs != [] && visit(s, cs[0]).1 {
      var s' := visit(s, cs[0]).0;
      VisitIsCut(visit, s', cs[1..]);
      var v := VisitAll(visit, s', cs[1..]);
      var all := [cs[0]] + v.seen;
      assert VisitAll(visit, s, cs).seen == all;
      if !v.wantsMore {
        assert all[..|all| - 1][1..] == v.seen[..|v.seen| - 1];
        assert all[|all| - 1] == v.seen[|v.seen| - 1];
      }
    } else if cs != [] {
      assert [cs[0]][..0] == [];
    }
  }

  lemma {:induction false} DecodedAppend(a: seq<Bytes>, b: seq<Bytes>)
    ensures Decoded(a + b) == Decoded(a) + Decoded(b)
  {
    if a == [] {
      assert a + b == b;
    } else {
      assert (a + b)[1..] == a[1..] + b;
      DecodedAppend(a[1..], b);
      assert OnLine(a[0]) + (Decoded(a[1..]) + Decoded(b)) == OnLine(a[0]) + Decoded(a[1..]) + Decoded(b);
    }
  }

  lemma ReverseAppend<T>(a: seq<T>, b: seq<T>)
    ensures Reverse(a + b) == Reverse(b) + Reverse(a)
  {
  }

  lemma NewestFirstAppend(a: Bytes, b: Bytes)
    ensures NewestFirst(a + [LF] + b) == NewestFirst(b) + NewestFirst(a)
  {
    SplitAppend(a, LF, b);
    DecodedAppend(Split(a, LF), Split(b, LF));
    ReverseAppend(Decoded(Split(a, LF)), Decoded(Split(b, LF)));
  }

  lemma ThenThen<S>(visit: (S, LoggedCapture) -> (S, bool), v: Visit<S>, a: seq<LoggedCapture>, b: seq<LoggedCapture>)
    ensures Then(visit, Then(visit, v, a), b) == Then(visit, v, a + b)
  {
    VisitAppend(visit, v.state, a, b);
    if v.wantsMore {
      var x := VisitAll(visit, v.state, a);
      assert v.seen + (x.seen + VisitAll(visit, x.state, b).seen) == v.seen + x.seen + VisitAll(visit, x.state, b).seen;
    }
  }

  lemma ThenNothing<S>(visit: (S, LoggedCapture) -> (S, bool), v: Visit<S>)
    ensures Then(visit, v, []) == v
  {
  }

  // ---------- the chunked reader ----------

  /** The captures of lines `i` onward, newest first, are those of the later lines
      and then the one on line `i`. */
  lemma LineStep(lines: seq<Bytes>, i: nat)
    requires i < |lines|
    ensures Reverse(Decoded(lines[i..])) == Reverse(Decoded(lines[i + 1..])) + OnLine(lines[i])
  {
    hide DecodeLine;
    assert lines[i..][1..] == lines[i + 1..];
    ReverseAppend(OnLine(lines[i]), Decoded(lines[i + 1..]));
    assert Reverse(OnLine(lines[i])) == OnLine(lines[i]);
  }

  lemma LinesBefore(lines: seq<Bytes>, i: nat)
    requires i <= |lines|
    ensures Reverse(Decoded(lines)) == Reverse(Decoded(lines[i..])) + Reverse(Decoded(lines[..i]))
  {
    hide Decoded;
    assert lines == lines[..i] + lines[i..];
    DecodedAppend(lines[..i], lines[i..]);
    ReverseAppend(Decoded(lines[..i]), Decoded(lines[i..]));
  }

  /** Visit the lines of a fully read stretch, last line first. */
  method VisitLines<S>(complete: Bytes, visit: (S, LoggedCapture) -> (S, bool), v0: Visit<S>) returns (v: Visit<S>)
    requires v0.wantsMore
    ensures v == Then(visit, v0, NewestFirst(complete))
  {
    hide Decoded, Reverse, VisitAll, Split, DecodeLine;
    var lines := Split(complete, LF);
    v := v0;
    LinesBefore(lines, |lines|);
    NoLines(lines);
    ThenNothing(visit, v0);
    for i := |lines| downto 0
      invariant v.wantsMore
      invariant v == Then(visit, v0, Reverse(Decoded(lines[i..])))
    {
      var line := lines[i];
      LineStep(lines, i);
      ThenThen(visit, v0, Reverse(Decoded(lines[i + 1..])), OnLine(line));
      ThenNothing(visit, v);
      if line == [] {
        continue;
      }
      match DecodeLine(line)
      case None =>
      case Some(capture) =>
        ThenOne(visit, v, capture);
        var (s, more) := visit(v.state, capture);
        v := Visit(v.seen + [capture], more, s);
        if !more {
          LinesBefore(lines, i);
          ThenThen(visit, v0, Reverse(Decoded(lines[i..])), Reverse(Decoded(lines[..i])));
          return;
        }
    }
    assert lines[0..] == lines;
  }

  lemma NoLines(lines: seq<Bytes>)
    ensures lines[|lines|..] == [] && Reverse(Decoded([])) == []
  {
  }

  lemma ThenOne<S>(visit: (S, LoggedCapture) -> (S, bool), v: Visit<S>, c: LoggedCapture)
    requires v.wantsMore
    ensures var (s, more) := visit(v.state, c); Then(visit, v, [c]) == Visit(v.seen + [c], more, s)
  {
    var (s, more) := visit(v.state, c);
    assert [c][1..] == [] && [c] + [] == [c];
    assert VisitAll(visit, s, []) == Visit([], true, s);
    assert VisitAll(visit, v.state, [c]) == Visit([c], more, s);
  }

  /** Where a backward scan stands: the bytes not yet read, the carried tail, and
      what was read and visited after the LF that ends the tail. */
  ghost predicate Standing<S>(content: Bytes, remaining: nat, tail: Bytes, done: Option<Bytes>,
                              visit: (S, LoggedCapture) -> (S, bool), s0: S, v: Visit<S>)
    requires remaining <= |content|
  {
    match done
    case None => content == content[..remaining] + tail && v == Visit([], true, s0)
    case Some(rest) =>
      content == content[..remaining] + tail + [LF] + rest && v == VisitAll(visit, s0, NewestFirst(rest))
  }

  /** Reading one more chunk in front of the tail. */
  lemma ChunkInFront(content: Bytes, before: nat, remaining: nat, tail: Bytes, rest: Bytes)
    requires before <= remaining <= |content|
    requires content == content[..remaining] + tail + rest
    ensures content == content[..before] + (content[before..remaining] + tail) + rest
  {
    assert content[..remaining] == content[..before] + content[before..remaining];
  }

  /** Splitting the chunk at its first LF moves the stretch behind it to the
      visited side. */
  lemma CarryOver<S>(content: Bytes, before: nat, chunk: Bytes, index: nat, done: Option<Bytes>,
                     visit: (S, LoggedCapture) -> (S, bool), s0: S, v: Visit<S>)
    requires before <= |content| && index < |chunk| && chunk[index] == LF
    requires Standing(content, before, chunk, done, visit, s0, v)
    ensures var rest := if done.None? then chunk[index + 1..] else chunk[index + 1..] + [LF] + done.value;
            Standing(content, before, chunk[..index], Some(rest), visit, s0,
                     Then(visit, v, NewestFirst(chunk[index + 1..])))
  {
    hide NewestFirst;
    var carry, complete := chunk[..index], chunk[index + 1..];
    assert chunk == carry + [LF] + complete;
    match done
    case None =>
      assert content == content[..before] + carry + [LF] + complete;
      FromStart(visit, s0, NewestFirst(complete));
    case Some(old_) =>
      RightOfCarry(content[..before], carry, complete, old_);
      NewestFirstAppend(complete, old_);
      VisitAppend(visit, s0, NewestFirst(old_), NewestFirst(complete));
  }

  lemma RightOfCarry(left: Bytes, carry: Bytes, complete: Bytes, old_: Bytes)
    ensures left + (carry + [LF] + complete) + [LF] + old_ == left + carry + [LF] + (complete + [LF] + old_)
  {
  }

  lemma FromStart<S>(visit: (S, LoggedCapture) -> (S, bool), s0: S, cs: seq<LoggedCapture>)
    ensures Then(visit, Visit([], true, s0), cs) == VisitAll(visit, s0, cs)
  {
    var rest := VisitAll(visit, s0, cs);
    assert [] + rest.seen == rest.seen;
  }

  /** At the start of the file the whole chunk is complete. */
  lemma WholeHead<S>(content: Bytes, chunk: Bytes, done: Option<Bytes>,
                     visit: (S, LoggedCapture) -> (S, bool), s0: S, v: Visit<S>)
    requires Standing(content, 0, chunk, done, visit, s0, v)
    ensures Then(visit, v, NewestFirst(chunk)) == VisitAll(visit, s0, NewestFirst(content))
  {
    hide NewestFirst;
    match done
    case None =>
      assert content == chunk;
      FromStart(visit, s0, NewestFirst(chunk));
    case Some(rest) =>
      assert content == chunk + [LF] + rest;
      NewestFirstAppend(chunk, rest);
      VisitAppend(visit, s0, NewestFirst(rest), NewestFirst(chunk));
  }

  lemma StoppedEarly<S>(content: Bytes, remaining: nat, tail: Bytes, done: Option<Bytes>,
                        visit: (S, LoggedCapture) -> (S, bool), s0: S, v: Visit<S>)
    requires remaining <= |content| && Standing(content, remaining, tail, done, visit, s0, v) && !v.wantsMore
    ensures v == VisitAll(visit, s0, NewestFirst(content))
  {
    hide NewestFirst;
    var head := content[..remaining] + tail;
    assert content == head + [LF] + done.value;
    NewestFirstAppend(head, done.value);
    VisitAppend(visit, s0, NewestFirst(done.value), NewestFirst(head));
  }

  lemma OneLine(tail: Bytes)
    requires LF !in tail
    ensures NewestFirst(tail) == OnLine(tail)
  {
    SplitNone(tail, LF);
    assert Decoded([tail]) == OnLine(tail) + Decoded([]);
  }

  /** `scan_backwards`: read `content` in chunks from its end and visit captures
      newest first.  Whatever the chunk size, what is visited is what the simple
      reader would offer, up to the first refusal. */
  method ScanBackwards<S>(content: Bytes, chunkSize: nat, visit: (S, LoggedCapture) -> (S, bool), s0: S) returns (v: Visit<S>)
    requires chunkSize >= 1
    ensures v == VisitAll(visit, s0, NewestFirst(content))
  {
    hide NewestFirst, VisitAll, Then, Standing;
    v := Visit([], true, s0);
    var remaining := |content|;
    var tail: Bytes := [];
    ghost var done: Option<Bytes> := None;
    StandingAtEnd(content, visit, s0);

    while remaining > 0
      invariant 0 <= remaining <= |content|
      invariant v.wantsMore
      invariant LF !in tail
      invariant Standing(content, remaining, tail, done, visit, s0, v)
      decreases remaining
    {
      var readSize := if chunkSize < remaining then chunkSize else remaining;
      ghost var was := remaining;
      remaining := remaining - readSize;
      var chunk := content[remaining..remaining + readSize] + tail;
      StandingChunk(content, remaining, was, tail, done, visit, s0, v);

      match IndexOf(chunk, LF)
      case None =>
        if remaining > 0 {
          tail := chunk;
          continue;
        }
        // The start of the file: the chunk is one complete line.
        WholeHead(content, chunk, done, visit, s0, v);
        v := VisitLines(chunk, visit, v);
        return;
      case Some(index) =>
        CarryOver(content, remaining, chunk, index, done, visit, s0, v);
        var complete := chunk[index + 1..];
        tail := chunk[..index];
        v := VisitLines(complete, visit, v);
        done := Some(if done.None? then complete else complete + [LF] + done.value);
        if !v.wantsMore {
          StoppedEarly(content, remaining, tail, done, visit, s0, v);
          return;
        }
    }

    // The file's first line has no LF before it.
    WholeHead(content, tail, done, visit, s0, v);
    OneLine(tail);
    ThenNothing(visit, v);
    if tail != [] {
      match DecodeLine(tail)
      case None =>
      case Some(capture) =>
        ThenOne(visit, v, capture);
        var (s, more) := visit(v.state, capture);
        v := Visit(v.seen + [capture], more, s);
    }
  }

  lemma StandingAtEnd<S>(content: Bytes, visit: (S, LoggedCapture) -> (S, bool), s0: S)
    ensures Standing(content, |content|, [], None, visit, s0, Visit([], true, s0))
  {
    assert content == content[..|content|] + [];
  }

  lemma StandingChunk<S>(content: Bytes, before: nat, remaining: nat, tail: Bytes, done: Option<Bytes>,
                         visit: (S, LoggedCapture) -> (S, bool), s0: S, v: Visit<S>)
    requires before <= remaining <= |content| && Standing(content, remaining, tail, done, visit, s0, v)
    ensures Standing(content, before, content[before..remaining] + tail, done, visit, s0, v)
  {
    match done
    case None =>
      assert content[..remaining] + tail + [] == content[..remaining] + tail;
      ChunkInFront(content, before, remaining, tail, []);
    case Some(rest) =>
      assert content[..remaining] + tail + ([LF] + rest) == content[..remaining] + tail + [LF] + rest;
      ChunkInFront(content, before, remaining, tail, [LF] + rest);
  }
}
