/** A small concrete line format for captures, in the place of JSON: one line
    without LF, never empty, from which the capture can be read back. */
module LineCodec {
  import opened Text

  type Bytes = seq<byte>

  const LF: byte := 10
  const COMMA: byte := 44
  const BACKSLASH: byte := 92

  /** A capture as its line in the log shows it: the fields the log's readers look at,
      and the rest of the record unread. Texts are UTF-8. */
  datatype LoggedCapture = LoggedCapture(id: Bytes, verb: Bytes, url: Bytes, session: Option<Bytes>, status: Option<Status>, payload: Bytes)

  type Status = n: int | 0 <= n < 0x1_0000

  function EscapeByte(b: byte): Bytes {
    if b == LF then [BACKSLASH, 110]
    else if b == COMMA then [BACKSLASH, 99]
    else if b == BACKSLASH then [BACKSLASH, BACKSLASH]
    else [b]
  }

  function Escape(s: Bytes): (r: Bytes)
    ensures LF !in r && COMMA !in r
  {
    if s == [] then [] else EscapeByte(s[0]) + Escape(s[1..])
  }

  function Unescape(s: Bytes): Option<Bytes> {
    if s == [] then Some([])
    else if s[0] != BACKSLASH then Cons(s[0], Unescape(s[1..]))
    else if |s| < 2 then None
    else if s[1] == 110 then Cons(LF, Unescape(s[2..]))
    else if s[1] == 99 then Cons(COMMA, Unescape(s[2..]))
    else if s[1] == BACKSLASH then Cons(BACKSLASH, Unescape(s[2..]))
    else None
  }

  function Cons(b: byte, rest: Option<Bytes>): Option<Bytes> {
    match rest case None => None case Some(r) => Some([b] + r)
  }

  lemma UnescapeByte(b: byte, rest: Bytes)
    ensures Unescape(EscapeByte(b) + rest) == Cons(b, Unescape(rest))
  {
    var e := EscapeByte(b);
    assert (e + rest)[|e|..] == rest;
  }

  lemma {:induction false} UnescapeEscape(s: Bytes)
    ensures Unescape(Escape(s)) == Some(s)
  {
    if s != [] {
      hide Unescape, EscapeByte;
      UnescapeEscape(s[1..]);
      UnescapeByte(s[0], Escape(s[1..]));
      assert s == [s[0]] + s[1..];
    }
  }

  function OptionField(o: Option<Bytes>): Bytes {
    match o case None => [] case Some(x) => [43] + x
  }

  function FieldOption(f: Bytes): Option<Bytes> {
    if f == [] then None else Some(f[1..])
  }

  function StatusBytes(o: Option<Status>): Option<Bytes> {
    match o case None => None case Some(n) => Some([n / 256, n % 256])
  }

  function Fields(c: LoggedCapture): seq<Bytes> {
    [c.id, c.verb, c.url, OptionField(c.session), OptionField(StatusBytes(c.status)), c.payload]
  }

  function EncodeLine(c: LoggedCapture): Bytes {
    Join(Map(Escape, Fields(c)), [COMMA])
  }

  function UnescapeAll(parts: seq<Bytes>): Option<seq<Bytes>> {
    if parts == [] then Some([])
    else match (Unescape(parts[0]), UnescapeAll(parts[1..]))
      case (Some(f), Some(fs)) => Some([f] + fs)
      case _ => None
  }

  function StatusOf(st: Bytes): Status
    requires |st| == 2
  {
    var hi: int, lo: int := st[0], st[1];
    256 * hi + lo
  }

  function FromFields(fs: seq<Bytes>): Option<LoggedCapture> {
    if |fs| != 6 then None
    else match FieldOption(fs[4])
      case None => Some(LoggedCapture(fs[0], fs[1], fs[2], FieldOption(fs[3]), None, fs[5]))
      case Some(st) =>
        if |st| != 2 then None
        else Some(LoggedCapture(fs[0], fs[1], fs[2], FieldOption(fs[3]), Some(StatusOf(st)), fs[5]))
  }

  /** `from_slice`: `None` for a line that is not an encoded capture. */
  function DecodeLine(line: Bytes): Option<LoggedCapture> {
    match UnescapeAll(Split(line, COMMA))
    case None => None
    case Some(fs) => FromFields(fs)
  }

  lemma {:induction false} UnescapeAllEscaped(fs: seq<Bytes>)
    ensures UnescapeAll(Map(Escape, fs)) == Some(fs)
  {
    hide Unescape, Escape;
    if fs != [] {
      UnescapeEscape(fs[0]);
      UnescapeAllEscaped(fs[1..]);
      UnescapeFirst(Escape(fs[0]), Map(Escape, fs[1..]));
      assert Map(Escape, fs) == [Escape(fs[0])] + Map(Escape, fs[1..]);
      assert fs == [fs[0]] + fs[1..];
    }
  }

  lemma UnescapeFirst(part: Bytes, parts: seq<Bytes>)
    ensures Unescape(part).Some? && UnescapeAll(parts).Some?
            ==> UnescapeAll([part] + parts) == Some([Unescape(part).value] + UnescapeAll(parts).value)
  {
    hide Unescape;
    assert ([part] + parts)[1..] == parts;
  }

  lemma {:induction false} JoinWithout(parts: seq<Bytes>, sep: byte, b: byte)
    requires b != sep && forall p :: p in parts ==> b !in p
    ensures b !in Join(parts, [sep])
  {
    if |parts| > 1 { JoinWithout(parts[1..], sep, b); }
  }

  lemma FromFieldsBack(c: LoggedCapture)
    ensures FromFields(Fields(c)) == Some(c)
  {
    OptionFieldBack(c.session);
    OptionFieldBack(StatusBytes(c.status));
  }

  lemma OptionFieldBack(o: Option<Bytes>)
    ensures FieldOption(OptionField(o)) == o
  {
  }

  lemma JoinOfSeveral(parts: seq<Bytes>, sep: byte)
    requires |parts| > 1
    ensures Join(parts, [sep]) != []
  {
  }

  /** An encoded capture is one non-empty line and decodes to the capture. */
  lemma DecodeEncode(c: LoggedCapture)
    ensures DecodeLine(EncodeLine(c)) == Some(c)
    ensures EncodeLine(c) != [] && LF !in EncodeLine(c)
  {
    hide Fields, FromFields, Escape, UnescapeAll, Split, Join;
    FromFieldsBack(c);
    SixFields(c);
    var parts := Map(Escape, Fields(c));
    SplitOfJoin(parts, COMMA);
    UnescapeAllEscaped(Fields(c));
    JoinWithout(parts, COMMA, LF);
    JoinOfSeveral(parts, COMMA);
  }

  lemma SixFields(c: LoggedCapture)
    ensures |Fields(c)| == 6
  {
  }
}
