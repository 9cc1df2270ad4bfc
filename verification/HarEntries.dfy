/** What an entry of an archive says of a capture, and what is read of any entry. */
module HarEntries {
  import opened Text
  import opened Marks
  import opened FieldMaps
  import opened Captures
  import opened IsoTime
  import opened Hexadecimal
  import opened Har
  import Utf8

  // ---------- what is written ----------

  /** The value of a header for the archive: empty if there is none. */
  ghost predicate HeaderIs(m: Entries, name: string, v: string) {
    && ((forall i :: 0 <= i < |m| ==> !Spells(m[i].0, name)) ==> v == "")
    && (forall i :: FirstSpelling(m, name, i) ==>
          v == match m[i].1 case One(s) => s case Many(list) => if list == [] then "" else list[0])
  }

  lemma FirstOrIs(m: Entries, name: string)
    ensures HeaderIs(m, name, FirstOr(m, name))
  {
    hide First, FirstSpelling, Spells;
    FirstIs(m, name);
  }

  /** The request of a capture as the archive has it. */
  ghost predicate WrittenRequest(f: Foreign, r: CapturedRequest, q: Request) {
    && q.verb == r.verb && q.url == r.url && q.headers == Pairs(r.headers)
    && q.httpVersion == (if Trim(r.httpVersion) == "" then "HTTP/1.1" else Trim(r.httpVersion))
    && (q.postData.Some? <==> r.body.Some?)
    && (r.body.Some? ==>
          && HeaderIs(r.headers, "content-type", q.postData.value.mimeType)
          && q.postData.value.params == []
          && q.postData.value.text
             == Some(match r.body.value
                     case TextBody(text) => text
                     case Base64Body(data) => Utf8.Decode(match f.b64Decode(data) case None => [] case Some(bytes) => bytes)))
  }

  /** The response of a capture as the archive has it: a body that was not text is marked
      as encoded. */
  ghost predicate WrittenResponse(r: CapturedResponse, version: string, p: Response) {
    && p.status == r.status && p.statusText == r.statusText && p.headers == Pairs(r.headers) && p.httpVersion == version
    && HeaderIs(r.headers, "content-type", p.content.mimeType)
    && HeaderIs(r.headers, "location", p.redirectUrl)
    && p.content.text == (match r.body case None => None case Some(TextBody(text)) => Some(text) case Some(Base64Body(data)) => Some(data))
    && (p.content.encoding == Some("base64") <==> r.body.Some? && r.body.value.Base64Body?)
    && (p.content.encoding == None <==> !(r.body.Some? && r.body.value.Base64Body?))
  }

  /** The entry of a capture says when it started and how long it took, its request and
      its response, page and session. */
  lemma EntryIs(f: Foreign, c: Capture)
    ensures var e := EntryOf(f, c);
            && e.started == FormatIso8601(c.at) && e.time == c.durationMs as real
            && e.page == c.page && e.session == c.session
            && WrittenRequest(f, c.request, e.request)
            && (e.response.Some? <==> c.response.Some?)
            && (c.response.Some? ==> WrittenResponse(c.response.value, e.request.httpVersion, e.response.value))
  {
    hide Trim, First, FirstSpelling, Pairs, FormatIso8601, FirstOr, HeaderIs, Utf8.Decode, Utf8.Encode;
    FirstOrIs(c.request.headers, "content-type");
    if c.response.Some? {
      FirstOrIs(c.response.value.headers, "content-type");
      FirstOrIs(c.response.value.headers, "location");
    }
    if c.request.body.Some? && c.request.body.value.TextBody? { Utf8.DecodeOfEncode(c.request.body.value.text); }
  }

  // ---------- what is read ----------

  /** The body of a request: its text, or else its parameters joined as they are. */
  ghost predicate ReadBody(post: Option<PostData>, body: Option<CapturedBody>) {
    if post.Some? && post.value.text.Some? && post.value.text.value != "" then body == Some(TextBody(post.value.text.value))
    else if post.Some? && post.value.params != [] then body == Some(TextBody(Params(post.value.params)))
    else body == None
  }

  /** `name=value` for each pair, with `&` between them. */
  function Params(pairs: seq<(string, string)>): string
    decreases |pairs|
  {
    if pairs == [] then ""
    else if |pairs| == 1 then pairs[0].0 + "=" + pairs[0].1
    else pairs[0].0 + "=" + pairs[0].1 + "&" + Params(pairs[1..])
  }

  lemma {:induction false} ParamsJoined(pairs: seq<(string, string)>)
    ensures Join(Map(NameIsValue(), pairs), "&") == Params(pairs)
    decreases |pairs|
  {
    if |pairs| > 1 {
      assert Map(NameIsValue(), pairs)[1..] == Map(NameIsValue(), pairs[1..]);
      ParamsJoined(pairs[1..]);
    }
  }

  /** The body of a response: none without text, and encoded only where it says base64. */
  ghost predicate ReadContent(content: Content, body: Option<CapturedBody>) {
    if content.text == None || content.text == Some("") then body == None
    else if content.encoding == Some("base64") then body == Some(Base64Body(content.text.value))
    else body == Some(TextBody(content.text.value))
  }

  /** A duration of whole milliseconds, no less than none and no more than a day. */
  ghost predicate ReadDuration(time: real, ms: nat) {
    if time <= 0.0 then ms == 0
    else if time >= 86_400_000.0 then ms == 86_400_000
    else ms as real <= time < ms as real + 1.0
  }

  /** One more header is inserted, unless a colon is in front of its name. */
  lemma HeaderRead(headers: seq<(string, string)>, h: (string, string))
    ensures HeadersOf([]) == []
    ensures HeadersOf(headers + [h])
            == if h.0 != "" && h.0[0] == ':' then HeadersOf(headers) else Inserted(HeadersOf(headers), h.0, h.1)
  {
    hide Inserted;
    var all := headers + [h];
    assert all[..|headers|] == headers && all[..|all|] == all;
    OneMoreHeader(all, |headers|);
    assert ":" <= h.0 <==> h.0 != "" && h.0[0] == ':';
  }

  /** Any entry, from whatever program: skipped exactly when it has no URL or no method,
      and otherwise read field by field. */
  lemma EntryReads(f: Foreign, e: Entry, id: string, fallbackAt: nat)
    ensures var read := CaptureFromEntry(f, e, id, fallbackAt);
            && (read == None <==> e.request.url == "" || e.request.verb == "")
            && (read.Some? ==>
                  var c := read.value;
                  && c.id == id && c.page == e.page && c.session == e.session
                  && (ParseIso8601(e.started) == Some(c.at) || (ParseIso8601(e.started) == None && c.at == fallbackAt))
                  && ReadDuration(e.time, c.durationMs)
                  && c.request.verb == f.upper(e.request.verb) && c.request.url == e.request.url
                  && c.request.httpVersion == e.request.httpVersion && c.request.headers == HeadersOf(e.request.headers)
                  && ReadBody(e.request.postData, c.request.body)
                  && (c.response.Some? <==> e.response.Some?)
                  && (e.response.Some? ==>
                        && c.response.value.status == e.response.value.status
                        && c.response.value.statusText == e.response.value.statusText
                        && c.response.value.headers == HeadersOf(e.response.value.headers)
                        && ReadContent(e.response.value.content, c.response.value.body)))
  {
    hide HeadersOf, ParseIso8601, NameIsValue, Params, DurationOf;
    if e.request.postData.Some? { ParamsJoined(e.request.postData.value.params); }
    DurationRead(e.time);
  }

  lemma DurationRead(time: real)
    ensures ReadDuration(time, DurationOf(time))
  {
  }

  lemma OneMoreEntry(f: Foreign, entries: seq<Entry>, prefix: string, now: nat)
    requires entries != []
    ensures var n := |entries| - 1;
            var before, after := Imported(f, entries[..n], prefix, now), Imported(f, entries, prefix, now);
            var read := CaptureFromEntry(f, entries[n], EntryId(prefix, n), now + n);
            after == if read.Some? then (before.0 + [read.value], before.1) else (before.0, before.1 + 1)
  {
    hide CaptureFromEntry, EntryId;
  }

  ghost predicate Usable(e: Entry) {
    e.request.url != "" && e.request.verb != ""
  }

  lemma UsableIff(f: Foreign, e: Entry, id: string, fallbackAt: nat)
    ensures Usable(e) <==> CaptureFromEntry(f, e, id, fallbackAt).Some?
  {
    hide HeadersOf, ParseIso8601, RequestBodyOf, DurationOf, CapturedResponseOf;
  }

  lemma NoEntries(f: Foreign, prefix: string, now: nat)
    ensures Imported(f, [], prefix, now) == ([], 0)
  {
  }

  /** Every entry of a file is either read or counted as skipped. */
  lemma {:induction false} EntriesCounted(f: Foreign, entries: seq<Entry>, prefix: string, now: nat)
    ensures |Imported(f, entries, prefix, now).0| + Imported(f, entries, prefix, now).1 == |entries|
    decreases |entries|
  {
    hide CaptureFromEntry, EntryId, Imported;
    if entries == [] {
      NoEntries(f, prefix, now);
    } else {
      OneMoreEntry(f, entries, prefix, now);
      EntriesCounted(f, entries[..|entries| - 1], prefix, now);
    }
  }

  /** An entry is read, under the id of its position, exactly if it has a URL and a
      method; and otherwise it is one of those skipped. */
  lemma {:induction false} EntryAccounted(f: Foreign, entries: seq<Entry>, prefix: string, now: nat, k: nat)
    requires k < |entries|
    ensures var (captures, skipped) := Imported(f, entries, prefix, now);
            var read := CaptureFromEntry(f, entries[k], EntryId(prefix, k), now + k);
            if Usable(entries[k]) then read.Some? && read.value in captures else skipped > 0
    decreases |entries|
  {
    hide CaptureFromEntry, EntryId, Imported, Usable;
    var n := |entries| - 1;
    OneMoreEntry(f, entries, prefix, now);
    UsableIff(f, entries[k], EntryId(prefix, k), now + k);
    if k < n {
      EntryAccounted(f, entries[..n], prefix, now, k);
      assert entries[..n][k] == entries[k];
    }
  }

  // ---------- ids ----------

  function LowerDigit(n: nat): char
    requires n < 16
  {
    "0123456789abcdef"[n]
  }

  lemma Digit(n: nat)
    requires n < 16
    ensures HexDigit(n, false) == LowerDigit(n)
  {
  }

  lemma HexStep(n: nat)
    ensures Hex(n) == if n < 16 then [LowerDigit(n)] else Hex(n / 16) + [LowerDigit(n % 16)]
  {
    hide HexDigit, LowerDigit;
    Digit(n % 16);
  }

  lemma Padded(s: string)
    requires 1 <= |s|
    ensures PadTo4(s)
            == if |s| == 1 then "0" + ("0" + ("0" + s)) else if |s| == 2 then "0" + ("0" + s) else if |s| == 3 then "0" + s else s
  {
    hide PadTo4;
    PadStep(s);
    PadStep("0" + s);
    PadStep("0" + ("0" + s));
    PadStep("0" + ("0" + ("0" + s)));
  }

  lemma PadStep(s: string)
    ensures PadTo4(s) == if |s| >= 4 then s else PadTo4("0" + s)
  {
  }

  lemma FourDigits(i: nat)
    requires i < 0x1_0000
    ensures PadTo4(Hex(i)) == [LowerDigit(i / 16 / 16 / 16), LowerDigit(i / 16 / 16 % 16), LowerDigit(i / 16 % 16), LowerDigit(i % 16)]
  {
    hide Hex, PadTo4, LowerDigit;
    var a, b, c := i / 16, i / 16 / 16, i / 16 / 16 / 16;
    HexStep(i);
    HexStep(a);
    HexStep(b);
    HexStep(c);
    Zero();
    PaddedDigits(Hex(i), LowerDigit(c), LowerDigit(b % 16), LowerDigit(a % 16), LowerDigit(i % 16));
  }

  lemma PaddedDigits(s: string, p: char, q: char, r: char, t: char)
    requires || s == [p, q, r, t] || (p == '0' && s == [q, r, t]) || (p == q == '0' && s == [r, t])
             || (p == q == r == '0' && s == [t])
    ensures PadTo4(s) == [p, q, r, t]
  {
    hide PadTo4;
    Padded(s);
  }

  lemma Zero()
    ensures LowerDigit(0) == '0'
  {
  }

  /** The id of an entry is the prefix and its position in four digits of base sixteen;
      past 65536 entries there are more of them. */
  lemma EntryIdIs(prefix: string, i: nat)
    ensures i < 0x1_0000 ==>
              EntryId(prefix, i) == prefix + [LowerDigit(i / 16 / 16 / 16), LowerDigit(i / 16 / 16 % 16), LowerDigit(i / 16 % 16), LowerDigit(i % 16)]
    ensures i >= 0x1_0000 ==> EntryId(prefix, i) == EntryId(prefix, i / 16) + [LowerDigit(i % 16)]
  {
    hide Hex, PadTo4, LowerDigit;
    if i < 0x1_0000 {
      FourDigits(i);
    } else {
      HexStep(i);
      LongHex(i / 16);
      Padded(Hex(i));
      Padded(Hex(i / 16));
    }
  }

  lemma LongHex(n: nat)
    requires n >= 0x1000
    ensures |Hex(n)| >= 4
  {
    hide LowerDigit;
    HexStep(n);
    HexStep(n / 16);
    HexStep(n / 16 / 16);
    HexStep(n / 16 / 16 / 16);
  }
}
