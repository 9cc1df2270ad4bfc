/** Where the event-stream parser and section 9.2.6 of the WHATWG HTML standard agree,
    and where they do not. */
module SseStandard {
  import opened Text
  import opened Decimal
  import opened Sse
  import opened SseEvents

  // ---------- which blocks are dispatched ----------

  /** The standard drops a block whose data buffer is empty; what it did to the last id
      stays. */
  function StandardBlockEvent(id: Option<string>, block: seq<string>): seq<Event> {
    if ValuesOf(block, "data") == [] then [] else BlockEvent(id, block)
  }

  function StandardEventsOf(id: Option<string>, lines: seq<string>): seq<Event>
    decreases |lines|
  {
    match IndexOf(lines, "")
    case None => []
    case Some(i) => StandardBlockEvent(id, lines[..i]) + StandardEventsOf(IdAfter(id, lines[..i]), lines[i + 1..])
  }

  /** Every block before a blank line that sets some field has a data line. */
  predicate DataInEveryBlock(lines: seq<string>)
    decreases |lines|
  {
    match IndexOf(lines, "")
    case None => true
    case Some(i) => (Sets(lines[..i]) ==> ValuesOf(lines[..i], "data") != []) && DataInEveryBlock(lines[i + 1..])
  }

  lemma OneBlock(id: Option<string>, block: seq<string>)
    ensures if Sets(block) ==> ValuesOf(block, "data") != [] then StandardBlockEvent(id, block) == BlockEvent(id, block)
            else StandardBlockEvent(id, block) == [] && |BlockEvent(id, block)| == 1
  {
    hide ValuesOf, AcceptedIds, ValidRetries;
  }

  lemma CutAtBlank(id: Option<string>, lines: seq<string>, i: nat)
    requires IndexOf(lines, "") == Some(i)
    ensures EventsOf(id, lines) == BlockEvent(id, lines[..i]) + EventsOf(IdAfter(id, lines[..i]), lines[i + 1..])
    ensures StandardEventsOf(id, lines)
            == StandardBlockEvent(id, lines[..i]) + StandardEventsOf(IdAfter(id, lines[..i]), lines[i + 1..])
    ensures DataInEveryBlock(lines)
            <==> (Sets(lines[..i]) ==> ValuesOf(lines[..i], "data") != []) && DataInEveryBlock(lines[i + 1..])
  {
    hide BlockEvent, StandardBlockEvent, Sets, ValuesOf, IdAfter;
  }

  lemma {:induction false} DispatchCounts(id: Option<string>, lines: seq<string>)
    ensures if DataInEveryBlock(lines) then StandardEventsOf(id, lines) == EventsOf(id, lines)
            else |StandardEventsOf(id, lines)| < |EventsOf(id, lines)|
    decreases |lines|
  {
    if IndexOf(lines, "").Some? {
      hide BlockEvent, StandardBlockEvent, Sets, ValuesOf, IdAfter, EventsOf, StandardEventsOf, DataInEveryBlock;
      var i := IndexOf(lines, "").value;
      CutAtBlank(id, lines, i);
      OneBlock(id, lines[..i]);
      DispatchCounts(IdAfter(id, lines[..i]), lines[i + 1..]);
    }
  }

  /** The events are those of the standard if and only if every block that sets a field
      has a data line: blocks of a name, an id or a retry time alone are what differs. */
  lemma DispatchIff(id: Option<string>, lines: seq<string>)
    ensures EventsOf(id, lines) == StandardEventsOf(id, lines) <==> DataInEveryBlock(lines)
  {
    hide EventsOf, StandardEventsOf, DataInEveryBlock;
    DispatchCounts(id, lines);
  }

  lemma NameAlone(line: string, name: string)
    requires line != "" && line[0] != ':' && FieldOf(line) == ("event", name)
    ensures BlockEvent(None, [line]) == [Event(Some(name), "", None, None)] && StandardBlockEvent(None, [line]) == []
  {
    hide FieldOf;
    var none: seq<string> := [];
    ValuesStep([line], "event");
    ValuesStep([line], "data");
    ValuesStep([line], "id");
    ValuesStep([line], "retry");
    OneRetry(none);
  }

  lemma PingIsName()
    ensures FieldOf("event: ping") == ("event", "ping")
  {
    hide SplitOnce;
    assert "event: ping" == "event" + [':'] + " ping" && " ping"[1..] == "ping";
    SplitOnceFirst("event", ':', " ping");
  }

  /** A block with a name alone is dispatched here and dropped by the standard. */
  lemma NameAloneIsDispatched()
    ensures EventsOf(None, ["event: ping", ""]) == [Event(Some("ping"), "", None, None)]
    ensures StandardEventsOf(None, ["event: ping", ""]) == []
  {
    hide BlockEvent, StandardBlockEvent, IdAfter, FieldOf, IndexOf;
    var line := "event: ping";
    PingIsName();
    NameAlone(line, "ping");
    IndexOfAppend([line], "", []);
    var lines := [line] + [""] + [];
    assert lines == [line, ""] && lines[..1] == [line] && lines[2..] == [];
    CutAtBlank(None, lines, 1);
  }

  // ---------- where lines end ----------

  /** Index of the first LF or CR. */
  function FirstEnd(bytes: seq<byte>): (r: Option<nat>)
    ensures r.Some? ==> r.value < |bytes| && (bytes[r.value] == LF || bytes[r.value] == CR)
    ensures r.Some? ==> LF !in bytes[..r.value] && CR !in bytes[..r.value]
    ensures r.None? ==> LF !in bytes && CR !in bytes
  {
    if bytes == [] then None
    else if bytes[0] == LF || bytes[0] == CR then Some(0)
    else match FirstEnd(bytes[1..])
      case None => None
      case Some(i) =>
        assert bytes[..i + 1] == [bytes[0]] + bytes[1..][..i];
        Some(i + 1)
  }

  predicate CrLfAt(bytes: seq<byte>, i: int) {
    0 <= i && i + 1 < |bytes| && bytes[i] == CR && bytes[i + 1] == LF
  }

  /** The complete lines of the standard: each ends with LF, with CR and LF, or with a
      CR alone. */
  function StandardCut(bytes: seq<byte>): seq<seq<byte>>
    decreases |bytes|
  {
    match FirstEnd(bytes)
    case None => []
    case Some(i) => [bytes[..i]] + StandardCut(bytes[if CrLfAt(bytes, i) then i + 2 else i + 1..])
  }

  const BOM: seq<byte> := [0xEF, 0xBB, 0xBF]

  function StripBom(bytes: seq<byte>): seq<byte> {
    if BOM <= bytes then bytes[3..] else bytes
  }

  function StandardLines(bytes: seq<byte>): seq<seq<byte>> {
    StandardCut(StripBom(bytes))
  }

  function Stripped(): seq<byte> -> seq<byte> {
    (line: seq<byte>) => StripCr(line)
  }

  /** The complete lines of the parser: cut at LF, one CR taken off the end. */
  function ParserLines(bytes: seq<byte>): seq<seq<byte>> {
    var parts := Split(bytes, LF);
    Map(Stripped(), parts[..|parts| - 1])
  }

  /** Lines end at byte 10, and a byte 13 in front of it does not count. */
  lemma LinesOfBytes(a: seq<byte>, rest: seq<byte>)
    requires 10 !in a
    ensures ParserLines(a + [13] + [10] + rest) == [a] + ParserLines(rest)
    ensures a == [] || a[|a| - 1] != 13 ==> ParserLines(a + [10] + rest) == [a] + ParserLines(rest)
    ensures ParserLines(a) == []
  {
    hide ParserLines;
    ParserFirst(a + [13], rest);
    ParserFirst(a, rest);
    ParserNone(a);
    assert StripCr(a + [13]) == a;
  }

  /** These are the lines whose texts the parser takes. */
  lemma ParserTexts(lossy: seq<byte> -> string, bytes: seq<byte>)
    ensures var parts := Split(bytes, LF);
            Texts(lossy, parts[..|parts| - 1]) == Map(lossy, ParserLines(bytes))
  {
    hide Split, StripCr;
  }

  ghost predicate EveryCrHasLf(bytes: seq<byte>) {
    forall i :: 0 <= i < |bytes| && bytes[i] == CR ==> CrLfAt(bytes, i)
  }

  lemma ParserFirst(a: seq<byte>, rest: seq<byte>)
    requires LF !in a
    ensures ParserLines(a + [LF] + rest) == [StripCr(a)] + ParserLines(rest)
  {
    hide Split, StripCr;
    SplitFirst(a, LF, rest);
    var parts := Split(rest, LF);
    assert ([a] + parts)[..|parts|] == [a] + parts[..|parts| - 1];
  }

  lemma ParserNone(a: seq<byte>)
    requires LF !in a
    ensures ParserLines(a) == []
  {
    hide Split;
    SplitNone(a, LF);
  }

  /** Bytes without LF in front add no line. */
  lemma ParserSkips(a: seq<byte>, rest: seq<byte>)
    requires LF !in a
    ensures |ParserLines(a + rest)| == |ParserLines(rest)|
  {
    hide ParserLines, StripCr;
    match IndexOf(rest, LF)
    case None =>
      ParserNone(rest);
      ParserNone(a + rest);
    case Some(j) =>
      var b, c := rest[..j], rest[j + 1..];
      assert rest == b + [LF] + c && a + rest == (a + b) + [LF] + c;
      ParserFirst(b, c);
      ParserFirst(a + b, c);
  }

  lemma CrLfTail(front: seq<byte>, rest: seq<byte>)
    requires front != [] && front[|front| - 1] == LF
    requires forall i :: 0 <= i < |front| && front[i] == CR ==> CrLfAt(front, i)
    ensures EveryCrHasLf(front + rest) <==> EveryCrHasLf(rest)
  {
    var all := front + rest;
    if EveryCrHasLf(all) {
      forall i | 0 <= i < |rest| && rest[i] == CR ensures CrLfAt(rest, i) {
        assert all[|front| + i] == CR;
        assert CrLfAt(all, |front| + i);
      }
    }
    if EveryCrHasLf(rest) {
      forall i | 0 <= i < |all| && all[i] == CR ensures CrLfAt(all, i) {
        if i < |front| {
          assert front[i] == CR;
          assert CrLfAt(front, i);
        } else {
          assert rest[i - |front|] == CR;
          assert CrLfAt(rest, i - |front|);
        }
      }
    }
  }

  /** The parser never has more lines than the standard, and as many only if the cuts
      are the same. */
  lemma {:induction false} CutCounts(bytes: seq<byte>)
    ensures if EveryCrHasLf(bytes) then ParserLines(bytes) == StandardCut(bytes)
            else |ParserLines(bytes)| < |StandardCut(bytes)|
    decreases |bytes|
  {
    hide ParserLines, EveryCrHasLf, FirstEnd;
    match FirstEnd(bytes)
    case None =>
      ParserNone(bytes);
      NoCr(bytes);
    case Some(i) =>
      var a := bytes[..i];
      if bytes[i] == LF {
        var rest := bytes[i + 1..];
        assert bytes == a + [LF] + rest;
        ParserFirst(a, rest);
        CrLfTail(a + [LF], rest);
        CutCounts(rest);
      } else if CrLfAt(bytes, i) {
        var rest := bytes[i + 2..];
        assert bytes == (a + [CR]) + [LF] + rest;
        ParserFirst(a + [CR], rest);
        assert StripCr(a + [CR]) == a;
        assert CrLfAt(a + [CR] + [LF], i);
        CrLfTail(a + [CR] + [LF], rest);
        CutCounts(rest);
      } else {
        var rest := bytes[i + 1..];
        assert bytes == (a + [CR]) + rest;
        ParserSkips(a + [CR], rest);
        LoneCr(bytes, i);
        CutCounts(rest);
      }
  }

  lemma NoCr(bytes: seq<byte>)
    requires CR !in bytes
    ensures EveryCrHasLf(bytes)
  {
  }

  lemma LoneCr(bytes: seq<byte>, i: nat)
    requires i < |bytes| && bytes[i] == CR && !CrLfAt(bytes, i)
    ensures !EveryCrHasLf(bytes)
  {
  }

  lemma BomLines(rest: seq<byte>)
    ensures |ParserLines(BOM + rest)| == |ParserLines(rest)|
    ensures LF in rest ==> ParserLines(BOM + rest) != ParserLines(rest)
    ensures LF !in rest ==> ParserLines(BOM + rest) == ParserLines(rest) == []
    ensures EveryCrHasLf(BOM + rest) <==> EveryCrHasLf(rest)
  {
    hide ParserLines;
    ParserSkips(BOM, rest);
    match IndexOf(rest, LF)
    case None =>
      ParserNone(rest);
      ParserNone(BOM + rest);
      BomHasNoCr(rest);
    case Some(j) =>
      var b, c := rest[..j], rest[j + 1..];
      assert rest == b + [LF] + c && BOM + rest == (BOM + b) + [LF] + c;
      ParserFirst(b, c);
      ParserFirst(BOM + b, c);
      assert |StripCr(BOM + b)| == 3 + |StripCr(b)|;
      assert ParserLines(BOM + rest)[0] != ParserLines(rest)[0];
      BomHasNoCr(rest);
  }

  lemma BomHasNoCr(rest: seq<byte>)
    ensures EveryCrHasLf(BOM + rest) <==> EveryCrHasLf(rest)
  {
    var all := BOM + rest;
    if EveryCrHasLf(all) {
      forall i | 0 <= i < |rest| && rest[i] == CR ensures CrLfAt(rest, i) {
        assert all[3 + i] == CR;
        assert CrLfAt(all, 3 + i);
      }
    }
    if EveryCrHasLf(rest) {
      forall i | 0 <= i < |all| && all[i] == CR ensures CrLfAt(all, i) {
        assert rest[i - 3] == CR;
        assert CrLfAt(rest, i - 3);
      }
    }
  }

  /** The two cut a stream into the same lines if and only if every CR is followed by
      an LF and there is no byte order mark in front of a complete line. */
  lemma LinesAgreeIff(bytes: seq<byte>)
    ensures ParserLines(bytes) == StandardLines(bytes)
            <==> EveryCrHasLf(bytes) && !(BOM <= bytes && LF in bytes)
  {
    hide ParserLines, StandardCut, EveryCrHasLf;
    CutCounts(StripBom(bytes));
    if BOM <= bytes {
      assert bytes == BOM + bytes[3..];
      BomLines(bytes[3..]);
    }
  }

  lemma {:induction false} FirstEndAfter(a: seq<byte>, end: byte, rest: seq<byte>)
    requires LF !in a && CR !in a && (end == LF || end == CR)
    ensures FirstEnd(a + [end] + rest) == Some(|a|)
  {
    if a != [] {
      assert (a + [end] + rest)[1..] == a[1..] + [end] + rest;
      FirstEndAfter(a[1..], end, rest);
    }
  }

  /** A stream that ends its lines with CR alone gives the parser no line at all. */
  lemma CrAloneEndsNoLine()
    ensures var stream: seq<byte> := [100, 97, 116, 97, CR, CR];
            ParserLines(stream) == [] && StandardLines(stream) == [[100, 97, 116, 97], []]
  {
    var stream: seq<byte> := [100, 97, 116, 97, CR, CR];
    ParserNone(stream);
    assert stream[5..] == [CR] && [CR][1..] == [];
    assert StandardCut([CR]) == [[]] + StandardCut([]);
    FirstEndAfter([100, 97, 116, 97], CR, [CR]);
    assert stream == [100, 97, 116, 97] + [CR] + [CR];
    assert stream[..4] == [100, 97, 116, 97];
  }

  lemma MarkedLine()
    ensures ParserLines(BOM + [58, LF]) == [BOM + [58]] && StandardLines(BOM + [58, LF]) == [[58]]
  {
    assert BOM + [58, LF] == (BOM + [58]) + [LF] + [];
    ParserFirst(BOM + [58], []);
    ParserNone([]);
    assert (BOM + [58, LF])[3..] == [58, LF];
    FirstEndAfter([58], LF, []);
    assert [58, LF] == [58] + [LF] + [];
    assert [58, LF][..1] == [58] && [58, LF][2..] == [];
    assert StandardCut([58, LF]) == [[58]] + StandardCut([]);
  }

  /** A byte order mark stays in the parser's first line. */
  lemma MarkStays()
    ensures ParserLines([0xEF, 0xBB, 0xBF, 58, 10]) == [[0xEF, 0xBB, 0xBF, 58]] && StandardLines([0xEF, 0xBB, 0xBF, 58, 10]) == [[58]]
  {
    hide ParserLines, StandardLines;
    MarkedLine();
    assert BOM + [58, LF] == [0xEF, 0xBB, 0xBF, 58, 10] && BOM + [58] == [0xEF, 0xBB, 0xBF, 58];
  }

  // ---------- which retry times count ----------

  /** The standard's test: digits and nothing else. */
  predicate OnlyDigits(value: string) {
    value != "" && AllDigits(value)
  }

  /** No `+` in front of digits, and no number that does not fit 64 bits. */
  predicate PlainRetry(value: string) {
    && !("+" <= value && OnlyDigits(value[1..]) && ValueOf(value[1..]) <= U64_MAX)
    && !(OnlyDigits(value) && ValueOf(value) > U64_MAX)
  }

  /** A retry time counts here exactly when it does in the standard, unless it has a `+`
      in front or does not fit 64 bits. */
  lemma RetryAgreesIff(value: string)
    ensures (ParseUnsigned(value, U64_MAX).Some? <==> OnlyDigits(value)) <==> PlainRetry(value)
  {
    hide ValueOf;
    if value != "" { assert value[0] == '+' <==> "+" <= value; }
  }
}
