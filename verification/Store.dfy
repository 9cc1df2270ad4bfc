/** The capture store: a cached append handle on a log that `clear` unlinks, and
    the queries that walk the log backwards. */
module Store {
  import opened Text
  import opened LineCodec
  import opened CaptureFilters
  import opened CaptureLog

  // ---------- the file behind the log ----------

  /** Files by inode number, the inode the log's path names, and the inode of the
      cached handle. */
  datatype Disk = Disk(files: seq<Bytes>, linked: Option<nat>, writer: Option<nat>)
  {
    /** A held handle is a handle on the file the path names, and that file holds
        whole lines. */
    predicate Valid() {
      && (linked.Some? ==> linked.value < |files|)
      && (writer.Some? ==> writer == linked)
      && WholeLines(Content())
    }

    function Content(): Bytes {
      if linked.Some? && linked.value < |files| then files[linked.value] else []
    }

    function Captures(): seq<LoggedCapture> {
      Decoded(Split(Content(), LF))
    }

    /** Open the path for appending, creating the file if the path names none. */
    function Open(): Disk {
      if writer.Some? then this
      else if linked.Some? then this.(writer := linked)
      else Disk(files + [[]], Some(|files|), Some(|files|))
    }

    function Write(bytes: Bytes): Disk
      requires writer.Some? && writer.value < |files|
    {
      this.(files := files[writer.value := files[writer.value] + bytes])
    }

    function Append(c: LoggedCapture): Disk
      requires Valid()
    {
      Open().Write(EncodeLine(c) + [LF])
    }

    function Clear(): Disk {
      this.(linked := None, writer := None)
    }
  }

  predicate WholeLines(content: Bytes) {
    content == [] || content[|content| - 1] == LF
  }

  lemma DecodedOfTwo(line: Bytes, next: Bytes)
    ensures Decoded([line]) == OnLine(line)
    ensures Decoded([line, next]) == OnLine(line) + OnLine(next)
  {
    assert [line][1..] == [] && [next][1..] == [] && [line, next][1..] == [next];
    assert Decoded([next]) == OnLine(next) + Decoded([]);
  }

  lemma SplitLine(line: Bytes)
    requires LF !in line
    ensures Split(line + [LF], LF) == [line, []]
  {
    SplitNone<byte>([], LF);
    SplitFirst(line, LF, []);
    assert line + [LF] + [] == line + [LF];
  }

  /** A write in whole lines adds exactly its capture. */
  lemma DecodedGrows(content: Bytes, c: LoggedCapture)
    requires WholeLines(content)
    ensures Decoded(Split(content + EncodeLine(c) + [LF], LF)) == Decoded(Split(content, LF)) + [c]
  {
    hide EncodeLine, DecodeLine, Split, Decoded;
    var line := EncodeLine(c);
    DecodeEncode(c);
    SplitLine(line);
    DecodedOfTwo(line, []);
    assert OnLine(line) + OnLine([]) == [c];
    if content == [] {
      assert content + line + [LF] == line + [LF];
      SplitNone(content, LF);
      DecodedOfTwo(content, []);
    } else {
      var head := content[..|content| - 1];
      assert content == head + [LF] + [];
      assert content + line + [LF] == head + [LF] + (line + [LF]);
      SplitAppend(head, LF, []);
      SplitNone<byte>([], LF);
      SplitAppend(head, LF, line + [LF]);
      DecodedAppend(Split(head, LF), [[]]);
      DecodedAppend(Split(head, LF), [line, []]);
      DecodedOfTwo([], []);
    }
  }

  /** An append keeps the handle on the linked file, adds one capture, and writes
      to no other file. */
  lemma AppendKeeps(d: Disk, c: LoggedCapture)
    requires d.Valid()
    ensures d.Append(c).Valid()
    ensures d.Append(c).Captures() == d.Captures() + [c]
    ensures d.Append(c).linked.Some?
    ensures |d.files| <= |d.Append(c).files|
    ensures forall i :: 0 <= i < |d.files| && d.linked != Some(i) ==> d.Append(c).files[i] == d.files[i]
  {
    hide EncodeLine, Decoded, Split;
    DecodedGrows(d.Content(), c);
    var o := d.Open();
    assert o.Content() == d.Content();
    var line := EncodeLine(c) + [LF];
    assert d.Append(c).Content() == d.Content() + line;
    assert d.Content() + line == d.Content() + EncodeLine(c) + [LF];
  }

  lemma ClearKeeps(d: Disk)
    requires d.Valid()
    ensures d.Clear().Valid() && d.Clear().Captures() == [] && d.Clear().files == d.files
  {
    SplitNone([], LF);
    assert Decoded([[]]) == OnLine([]) + Decoded([[]][1..]);
  }

  // ---------- histories ----------

  datatype Op = OpAppend(capture: LoggedCapture) | OpClear

  function Step(d: Disk, op: Op): Disk
    requires d.Valid()
  {
    match op case OpAppend(c) => d.Append(c) case OpClear => d.Clear()
  }

  /** The captures appended since the last clear. */
  function Surviving(before: seq<LoggedCapture>, ops: seq<Op>): seq<LoggedCapture> {
    if ops == [] then before
    else match ops[|ops| - 1]
      case OpAppend(c) => Surviving(before, ops[..|ops| - 1]) + [c]
      case OpClear => []
  }

  /** The disk after some operations. */
  function Run(d: Disk, ops: seq<Op>): (e: Disk)
    requires d.Valid()
    ensures e.Valid()
    decreases |ops|
  {
    if ops == [] then d
    else
      var m := Run(d, ops[..|ops| - 1]);
      StepKeeps(m, ops[|ops| - 1]);
      Step(m, ops[|ops| - 1])
  }

  lemma StepKeeps(d: Disk, op: Op)
    requires d.Valid()
    ensures Step(d, op).Valid()
    ensures Step(d, op).Captures() == match op { case OpAppend(c) => d.Captures() + [c] case OpClear => [] }
    ensures |d.files| <= |Step(d, op).files|
    ensures forall i :: 0 <= i < |d.files| && d.linked != Some(i) ==>
              Step(d, op).files[i] == d.files[i] && Step(d, op).linked != Some(i)
  {
    hide EncodeLine, Decoded, Split;
    match op
    case OpAppend(c) => AppendKeeps(d, c);
    case OpClear => ClearKeeps(d);
  }

  lemma {:induction false} RunAppend(d: Disk, a: seq<Op>, b: seq<Op>)
    requires d.Valid()
    ensures Run(d, a + b) == Run(Run(d, a), b)
    decreases |b|
  {
    hide Step, Disk.Valid;
    if b == [] {
      assert a + b == a;
    } else {
      var n := |b| - 1;
      assert (a + b)[..|a + b| - 1] == a + b[..n] && (a + b)[|a + b| - 1] == b[n];
      RunAppend(d, a, b[..n]);
    }
  }

  lemma {:induction false} RunKeeps(d: Disk, ops: seq<Op>)
    requires d.Valid()
    ensures Run(d, ops).Captures() == Surviving(d.Captures(), ops)
    ensures |d.files| <= |Run(d, ops).files|
    ensures forall i :: 0 <= i < |d.files| && d.linked != Some(i) ==>
              Run(d, ops).files[i] == d.files[i] && Run(d, ops).linked != Some(i)
    decreases |ops|
  {
    if ops != [] {
      hide Step, Disk.Valid, Disk.Captures;
      RunKeeps(d, ops[..|ops| - 1]);
      StepKeeps(Run(d, ops[..|ops| - 1]), ops[|ops| - 1]);
    }
  }

  /** After any run of appends and clears the log holds exactly the captures appended
      since the last clear, and a file that is not the linked one at any moment of the
      run keeps its bytes from then on and is never linked again. */
  lemma HistoryRefinesLog(d: Disk, ops: seq<Op>, k: nat)
    requires d.Valid() && k <= |ops|
    ensures var m, e := Run(d, ops[..k]), Run(d, ops);
            && e.Captures() == Surviving(d.Captures(), ops)
            && |m.files| <= |e.files|
            && forall i :: 0 <= i < |m.files| && m.linked != Some(i) ==> e.files[i] == m.files[i] && e.linked != Some(i)
  {
    hide Disk.Captures, Disk.Valid, Run, Surviving;
    assert ops[..k] + ops[k..] == ops;
    RunAppend(d, ops[..k], ops[k..]);
    RunKeeps(d, ops);
    RunKeeps(Run(d, ops[..k]), ops[k..]);
  }

  // ---------- what the queries answer ----------

  function FirstN<T>(n: nat, xs: seq<T>): seq<T> {
    if |xs| <= n then xs else xs[..n]
  }

  predicate IdMatches(id: Bytes, c: LoggedCapture) {
    c.id == id || id <= c.id
  }

  function FirstMatch(id: Bytes, cs: seq<LoggedCapture>): Option<LoggedCapture> {
    if cs == [] then None
    else if IdMatches(id, cs[0]) then Some(cs[0])
    else FirstMatch(id, cs[1..])
  }

  /** The visitor of `list`: collect matches, stop at the limit. */
  function Collect(f: CaptureFilter, limit: nat): (seq<LoggedCapture>, LoggedCapture) -> (seq<LoggedCapture>, bool) {
    (found: seq<LoggedCapture>, c: LoggedCapture) =>
      var found' := if f.Matches(c) then found + [c] else found;
      (found', |found'| < limit)
  }

  lemma {:induction false} CollectIsFilter(f: CaptureFilter, limit: nat, found: seq<LoggedCapture>, cs: seq<LoggedCapture>)
    requires |found| < limit
    ensures VisitAll(Collect(f, limit), found, cs).state
            == FirstN(limit, found + Filter((c: LoggedCapture) => f.Matches(c), cs))
    decreases |cs|
  {
    hide CaptureFilter.Matches;
    var p := (c: LoggedCapture) => f.Matches(c);
    if cs == [] {
      assert found + Filter(p, cs) == found;
    } else {
      var found' := if f.Matches(cs[0]) then found + [cs[0]] else found;
      assert found + Filter(p, cs) == found' + Filter(p, cs[1..]);
      if |found'| < limit {
        CollectIsFilter(f, limit, found', cs[1..]);
      } else {
        assert (found' + Filter(p, cs[1..]))[..limit] == found';
      }
    }
  }

  /** Those listed are the captures a filter wants, in the parts of their URLs. */
  lemma FirstOfMatches(limit: nat, f: CaptureFilter, cs: seq<LoggedCapture>)
    ensures var found := FirstN(limit, Filter((c: LoggedCapture) => f.Matches(c), cs));
            && |found| <= limit
            && (limit == 0 ==> found == [])
            && forall c: LoggedCapture, scheme, host, rest :: UrlParts(c.url, scheme, host, rest) && limit >= |cs| ==>
                 (c in found <==> c in cs && Wanted(f, c, host))
  {
    hide CaptureFilter.Matches, Wanted, UrlParts;
    forall c: LoggedCapture, scheme, host, rest | UrlParts(c.url, scheme, host, rest) ensures f.Matches(c) <==> Wanted(f, c, host) {
      MatchesIff(f, c, scheme, host, rest);
    }
  }

  function Seek(id: Bytes): (Option<LoggedCapture>, LoggedCapture) -> (Option<LoggedCapture>, bool) {
    (found: Option<LoggedCapture>, c: LoggedCapture) => if IdMatches(id, c) then (Some(c), false) else (found, true)
  }

  lemma {:induction false} SeekIsFirst(id: Bytes, cs: seq<LoggedCapture>)
    ensures VisitAll(Seek(id), None, cs).state == FirstMatch(id, cs)
  {
    if cs != [] { SeekIsFirst(id, cs[1..]); }
  }

  function Tally(): (nat, LoggedCapture) -> (nat, bool) {
    (total: nat, c: LoggedCapture) => (total + 1, true)
  }

  lemma {:induction false} TallyCounts(total: nat, cs: seq<LoggedCapture>)
    ensures VisitAll(Tally(), total, cs).state == total + |cs|
    decreases |cs|
  {
    if cs != [] { TallyCounts(total + 1, cs[1..]); }
  }

  /** Asking for the start of a capture's id, or for all of it, finds that capture if
      and only if no newer id starts so: the newest match wins even over an exact one. */
  lemma {:induction false} FirstMatchIff(id: Bytes, cs: seq<LoggedCapture>, k: nat)
    requires k < |cs| && id <= cs[k].id && forall j :: 0 <= j < k ==> cs[j] != cs[k]
    ensures FirstMatch(id, cs) == Some(cs[k]) <==> forall j :: 0 <= j < k ==> !(id <= cs[j].id)
  {
    if k > 0 && !(id <= cs[0].id) {
      FirstMatchIff(id, cs[1..], k - 1);
      assert forall j :: 1 <= j < k ==> cs[j] == cs[1..][j - 1];
    }
  }

  /** What an append does to the three fields. */
  lemma AppendIs(d: Disk, c: LoggedCapture)
    requires d.Valid()
    ensures var o := d.Open();
            && o.writer.Some? && o.writer.value < |o.files|
            && d.Append(c) == o.(files := o.files[o.writer.value := o.files[o.writer.value] + (EncodeLine(c) + [LF])])
  {
    hide EncodeLine, Disk.Content;
  }

  // ---------- the store ----------

  const CHUNK: nat := 64 * 1024

  class CaptureStore {
    var files: seq<Bytes>
    var linked: Option<nat>
    /** The handle kept open between appends. */
    var writer: Option<nat>

    function State(): Disk
      reads this
    {
      Disk(files, linked, writer)
    }

    ghost predicate Valid()
      reads this
    {
      State().Valid()
    }

    /** The log, newest capture first. */
    ghost function Newest(): seq<LoggedCapture>
      reads this
    {
      Reverse(State().Captures())
    }

    /** A store over an existing path, with nothing open. */
    constructor (files: seq<Bytes>, linked: Option<nat>)
      requires Disk(files, linked, None).Valid()
      ensures Valid() && State() == Disk(files, linked, None)
    {
      this.files, this.linked, this.writer := files, linked, None;
    }

    method Append(capture: LoggedCapture)
      requires Valid()
      modifies this
      ensures Valid() && State() == old(State()).Append(capture)
      ensures State().Content() == old(State()).Content() + EncodeLine(capture) + [10]
      ensures Newest() == [capture] + old(Newest())
    {
      hide EncodeLine, Disk.Valid, Disk.Append, Disk.Captures;
      ghost var before := State();
      AppendKeeps(before, capture);
      AppendIs(before, capture);
      var line := EncodeLine(capture);
      if writer.None? {
        if linked.None? {
          linked := Some(|files|);
          files := files + [[]];
        }
        writer := linked;
      }
      files := files[writer.value := files[writer.value] + (line + [LF])];
      assert State() == before.Append(capture);
      assert Newest() == [capture] + Reverse(before.Captures());
    }

    method Clear()
      requires Valid()
      modifies this
      ensures Valid() && State() == old(State()).Clear()
      ensures Newest() == []
    {
      ClearKeeps(State());
      writer := None;
      linked := None;
    }

    /** The newest matches. */
    method List(filter: CaptureFilter, limit: nat) returns (captures: seq<LoggedCapture>)
      requires Valid()
      ensures captures == FirstN(limit, Filter((c: LoggedCapture) => filter.Matches(c), Newest()))
      ensures |captures| <= limit
      ensures forall c: LoggedCapture, scheme, host, rest :: UrlParts(c.url, scheme, host, rest) && limit >= |Newest()| ==>
                (c in captures <==> c in Newest() && Wanted(filter, c, host))
    {
      hide Wanted, UrlParts, FirstN, CaptureFilter.Matches;
      FirstOfMatches(limit, filter, Newest());
      captures := [];
      if limit == 0 {
        return;
      }
      var v := ScanBackwards(State().Content(), CHUNK, Collect(filter, limit), captures);
      CollectIsFilter(filter, limit, [], Newest());
      captures := v.state;
      var p := (c: LoggedCapture) => filter.Matches(c);
      assert [] + Filter(p, Newest()) == Filter(p, Newest());
    }

    /** The newest capture whose id is, or starts with, `id`. */
    method Get(id: Bytes) returns (found: Option<LoggedCapture>)
      requires Valid()
      ensures found == FirstMatch(id, Newest())
    {
      var v := ScanBackwards(State().Content(), CHUNK, Seek(id), None);
      SeekIsFirst(id, Newest());
      found := v.state;
    }

    method Count() returns (total: nat)
      requires Valid()
      ensures total == |Newest()|
    {
      var v := ScanBackwards(State().Content(), CHUNK, Tally(), 0);
      TallyCounts(0, Newest());
      total := v.state;
    }
  }
}
