/** HTTP Archives (HAR 1.2): captures written out, and read back. */
module Har {
  import opened Text
  import opened OrderedMap
  import opened FieldMaps
  import opened Captures
  import opened Sorting
  import opened Decimal
  import opened IsoTime
  import opened Hexadecimal
  import Utf8

  // ---------- the file ----------

  datatype PostData = PostData(mimeType: string, text: Option<string>, params: seq<(string, string)>)

  datatype Content = Content(mimeType: string, text: Option<string>, encoding: Option<string>)

  datatype Request = Request(verb: string, url: string, httpVersion: string, headers: seq<(string, string)>,
                             postData: Option<PostData>)

  datatype Response = Response(status: nat, statusText: string, httpVersion: string, headers: seq<(string, string)>,
                               content: Content, redirectUrl: string)

  datatype Entry = Entry(started: string, time: real, request: Request, response: Option<Response>,
                         page: Option<string>, session: Option<string>)

  /** What comes from elsewhere: full upper-casing and base64 decoding. */
  datatype Foreign = Foreign(upper: string -> string, b64Decode: string -> Option<seq<byte>>)

  // ---------- export ----------

  function FirstOr(m: Entries, key: string): string {
    match First(m, key) case None => "" case Some(v) => v
  }

  function NormaliseHttpVersion(version: string): string {
    if Trim(version) == "" then "HTTP/1.1" else Trim(version)
  }

  function BytesOf(f: Foreign, body: CapturedBody): seq<byte> {
    match body
    case TextBody(text) => Utf8.Encode(text)
    case Base64Body(data) => match f.b64Decode(data) case None => [] case Some(bytes) => bytes
  }

  function ContentOf(r: CapturedResponse): Content {
    var mimeType := FirstOr(r.headers, "content-type");
    match r.body
    case None => Content(mimeType, None, None)
    case Some(TextBody(text)) => Content(mimeType, Some(text), None)
    case Some(Base64Body(data)) => Content(mimeType, Some(data), Some("base64"))
  }

  function ResponseOf(r: CapturedResponse, httpVersion: string): Response {
    Response(r.status, r.statusText, httpVersion, Pairs(r.headers), ContentOf(r), FirstOr(r.headers, "location"))
  }

  function PostDataOf(f: Foreign, r: CapturedRequest): Option<PostData> {
    match r.body
    case None => None
    case Some(body) => Some(PostData(FirstOr(r.headers, "content-type"), Some(Utf8.Decode(BytesOf(f, body))), []))
  }

  function EntryOf(f: Foreign, c: Capture): Entry {
    var version := NormaliseHttpVersion(c.request.httpVersion);
    Entry(FormatIso8601(c.at), c.durationMs as real,
          Request(c.request.verb, c.request.url, version, Pairs(c.request.headers), PostDataOf(f, c.request)),
          match c.response case None => None case Some(r) => Some(ResponseOf(r, version)),
          c.page, c.session)
  }

  function ToEntry(f: Foreign): Capture -> Entry {
    (c: Capture) => EntryOf(f, c)
  }

  /** Entries in the order of their printed start. */
  function ByStarted(): (Entry, Entry) -> bool {
    (a: Entry, b: Entry) => !LexLess(b.started, a.started)
  }

  function Build(f: Foreign, captures: seq<Capture>): seq<Entry> {
    Sort(ByStarted(), Map(ToEntry(f), captures))
  }

  // ---------- import ----------

  const MAX_DURATION_MS: nat := 24 * 60 * 60 * 1000

  /** Names with a colon in front belong to HTTP/2 framing. */
  function RealHeader(): ((string, string)) -> bool {
    (h: (string, string)) => !(":" <= h.0)
  }

  function HeadersOf(headers: seq<(string, string)>): Entries {
    InsertAll([], Filter(RealHeader(), headers))
  }

  method ReadHeaders(headers: seq<(string, string)>) returns (m: FieldMap)
    ensures m.Valid() && m.entries == HeadersOf(headers)
  {
    hide Filter, InsertAll, Inserted;
    m := new FieldMap();
    NoHeaders(headers);
    for i := 0 to |headers|
      invariant fresh(m) && m.Valid() && m.entries == HeadersOf(headers[..i])
    {
      OneMoreHeader(headers, i);
      if !(":" <= headers[i].0) {
        m.Insert(headers[i].0, headers[i].1);
      }
    }
    assert headers[..|headers|] == headers;
  }

  lemma NoHeaders(headers: seq<(string, string)>)
    ensures HeadersOf(headers[..0]) == []
  {
  }

  lemma OneMoreHeader(headers: seq<(string, string)>, i: nat)
    requires i < |headers|
    ensures HeadersOf(headers[..i + 1])
            == if ":" <= headers[i].0 then HeadersOf(headers[..i])
               else Inserted(HeadersOf(headers[..i]), headers[i].0, headers[i].1)
  {
    hide Filter, Inserted;
    FilterSnoc(RealHeader(), headers, i);
    var kept := Filter(RealHeader(), headers[..i]);
    if !(":" <= headers[i].0) {
      var more := kept + [headers[i]];
      assert more[..|more| - 1] == kept && more[|more| - 1] == headers[i];
      assert InsertAll([], more) == Inserted(InsertAll([], kept), headers[i].0, headers[i].1);
    } else {
      assert kept + [] == kept;
    }
  }

  function NameIsValue(): ((string, string)) -> string {
    (p: (string, string)) => p.0 + "=" + p.1
  }

  function RequestBodyOf(post: PostData): Option<CapturedBody> {
    if post.text.Some? && post.text.value != "" then Some(TextBody(post.text.value))
    else if post.params != [] then Some(TextBody(Join(Map(NameIsValue(), post.params), "&")))
    else None
  }

  function BodyFromContent(content: Content): Option<CapturedBody> {
    if content.text.None? || content.text.value == "" then None
    else if content.encoding == Some("base64") then Some(Base64Body(content.text.value))
    else Some(TextBody(content.text.value))
  }

  function DurationOf(time: real): nat {
    if time <= 0.0 then 0
    else if time < MAX_DURATION_MS as real then
      assert time.Floor >= 0;
      time.Floor
    else MAX_DURATION_MS
  }

  function CapturedResponseOf(r: Response): CapturedResponse {
    CapturedResponse(r.status, r.statusText, HeadersOf(r.headers), BodyFromContent(r.content))
  }

  function CaptureFromEntry(f: Foreign, e: Entry, id: string, fallbackAt: nat): Option<Capture> {
    if e.request.url == "" || e.request.verb == "" then None
    else
      Some(Capture(id, match ParseIso8601(e.started) case Some(at) => at case None => fallbackAt,
                   DurationOf(e.time), e.session, e.page,
                   CapturedRequest(f.upper(e.request.verb), e.request.url, e.request.httpVersion, HeadersOf(e.request.headers),
                                   match e.request.postData case None => None case Some(post) => RequestBodyOf(post)),
                   match e.response case None => None case Some(r) => Some(CapturedResponseOf(r))))
  }

  /** The id of the entry at a position of the file. */
  function EntryId(prefix: string, index: nat): string {
    prefix + PadTo4(Hex(index))
  }

  /** The captures read and how many entries were skipped; `now` is the clock. */
  function Imported(f: Foreign, entries: seq<Entry>, prefix: string, now: nat): (seq<Capture>, nat)
    decreases |entries|
  {
    if entries == [] then ([], 0)
    else
      var n := |entries| - 1;
      var (captures, skipped) := Imported(f, entries[..n], prefix, now);
      match CaptureFromEntry(f, entries[n], EntryId(prefix, n), now + n)
      case Some(c) => (captures + [c], skipped)
      case None => (captures, skipped + 1)
  }

  method Import(f: Foreign, entries: seq<Entry>, prefix: string, now: nat) returns (captures: seq<Capture>, skipped: nat)
    ensures (captures, skipped) == Imported(f, entries, prefix, now)
  {
    hide EntryId, CaptureFromEntry;
    captures, skipped := [], 0;
    for i := 0 to |entries|
      invariant (captures, skipped) == Imported(f, entries[..i], prefix, now)
    {
      assert entries[..i + 1][..i] == entries[..i];
      match CaptureFromEntry(f, entries[i], EntryId(prefix, i), now + i) {
        case Some(c) => captures := captures + [c];
        case None => skipped := skipped + 1;
      }
    }
    assert entries[..|entries|] == entries;
  }

  // ---------- one capture out and in ----------

  predicate NoPseudo(m: Entries) {
    forall e :: e in m ==> !(":" <= e.0)
  }

  ghost predicate PortableHeaders(m: Entries) {
    Normal(m) && NoPseudo(m)
  }

  /** What the format can carry. */
  ghost predicate Portable(f: Foreign, c: Capture) {
    && c.request.verb != "" && f.upper(c.request.verb) == c.request.verb && c.request.url != ""
    && c.request.httpVersion != "" && Trimmed(c.request.httpVersion)
    && PortableHeaders(c.request.headers)
    && (c.request.body.Some? ==> c.request.body.value.TextBody? && c.request.body.value.text != "")
    && c.durationMs <= MAX_DURATION_MS
    && (c.response.Some? ==> PortableResponse(c.response.value))
  }

  ghost predicate PortableResponse(r: CapturedResponse) {
    && PortableHeaders(r.headers)
    && r.body != Some(TextBody("")) && r.body != Some(Base64Body(""))
  }

  lemma {:induction false} PairsKeys(m: Entries)
    ensures forall p :: p in Pairs(m) ==> exists e :: e in m && e.0 == p.0
  {
    if m != [] {
      PairsKeys(m[1..]);
      forall p | p in Pairs(m) ensures exists e :: e in m && e.0 == p.0 {
        if p in Pairs(m[1..]) {
          var e :| e in m[1..] && e.0 == p.0;
          assert e in m;
        } else {
          assert m[0] in m;
        }
      }
    }
  }

  lemma {:induction false} InsertAllReal(pairs: seq<(string, string)>)
    requires forall p :: p in pairs ==> RealHeader()(p)
    ensures NoPseudo(InsertAll([], pairs))
    decreases |pairs|
  {
    if pairs != [] {
      hide Put, Get;
      var n := |pairs| - 1;
      var before := InsertAll([], pairs[..n]);
      InsertAllReal(pairs[..n]);
      assert pairs[n] in pairs;
      PutKeys(before, pairs[n].0, Added(Get(before, pairs[n].0), pairs[n].1));
    }
  }

  /** Headers come back if and only if they are as insertion leaves them and none is a
      pseudo-header. */
  lemma HeadersSurvive(m: Entries)
    ensures HeadersOf(Pairs(m)) == m <==> PortableHeaders(m)
  {
    hide Pairs, InsertAll, Normal;
    EmptyIsNormal();
    InsertAllNormal([], Filter(RealHeader(), Pairs(m)));
    InsertAllReal(Filter(RealHeader(), Pairs(m)));
    if PortableHeaders(m) {
      PairsKeys(m);
      FilterAll(RealHeader(), Pairs(m));
      RebuiltFromPairs(m);
    }
  }

  lemma ResponseSurvives(r: CapturedResponse, httpVersion: string)
    ensures CapturedResponseOf(ResponseOf(r, httpVersion)) == r <==> PortableResponse(r)
  {
    hide HeadersOf, Pairs, PortableHeaders, First;
    HeadersSurvive(r.headers);
  }

  lemma RequestBodySurvives(f: Foreign, r: CapturedRequest)
    ensures (match PostDataOf(f, r) { case None => None case Some(post) => RequestBodyOf(post) }) == r.body
            <==> (r.body.Some? ==> r.body.value.TextBody? && r.body.value.text != "")
  {
    hide Utf8.Encode, Utf8.Decode, First;
    if r.body.Some? && r.body.value.TextBody? { Utf8.DecodeOfEncode(r.body.value.text); }
  }

  lemma VersionSurvives(version: string)
    ensures NormaliseHttpVersion(version) == version <==> version != "" && Trimmed(version)
  {
    hide Trim;
    if Trimmed(version) { TrimFixed(version); }
  }

  lemma DurationSurvives(ms: nat)
    ensures DurationOf(ms as real) == ms <==> ms <= MAX_DURATION_MS
  {
  }

  /** What is exported comes back as it was, but for the id, if and only if the format
      can carry it. */
  lemma CaptureSurvivesIff(f: Foreign, c: Capture, id: string, fallbackAt: nat)
    requires c.at <= I64_MAX
    ensures CaptureFromEntry(f, EntryOf(f, c), id, fallbackAt) == Some(c.(id := id)) <==> Portable(f, c)
  {
    hide HeadersOf, Pairs, PortableHeaders, PortableResponse, ParseIso8601, FormatIso8601, Trimmed, DurationOf,
         NormaliseHttpVersion, PostDataOf, RequestBodyOf, ResponseOf, CapturedResponseOf;
    HeadersSurvive(c.request.headers);
    RequestBodySurvives(f, c.request);
    VersionSurvives(c.request.httpVersion);
    DurationSurvives(c.durationMs);
    ParseOfFormat(c.at);
    if c.response.Some? { ResponseSurvives(c.response.value, NormaliseHttpVersion(c.request.httpVersion)); }
  }

  // ---------- whole archives ----------

  function ByTime(): (Capture, Capture) -> bool {
    (a: Capture, b: Capture) => a.at <= b.at
  }

  /** The earlier of two captures has the text that comes first. */
  predicate Orderly(a: Capture, b: Capture) {
    a.at < b.at ==> LexLess(FormatIso8601(a.at), FormatIso8601(b.at))
  }

  ghost predicate AllOrderly(cs: seq<Capture>) {
    forall a, b :: a in cs && b in cs ==> Orderly(a, b)
  }

  /** Years of one width are enough, and so is any time before the year 10000. */
  lemma SameWidthOrderly(cs: seq<Capture>)
    requires || (forall a, b :: a in cs && b in cs ==> |YearText(a.at)| == |YearText(b.at)|)
             || (forall c :: c in cs ==> c.at < YEAR_10000)
    ensures AllOrderly(cs)
  {
    hide YearText, FormatIso8601, LexLess, YEAR_10000;
    forall a, b | a in cs && b in cs ensures Orderly(a, b) {
      if a.at < YEAR_10000 && b.at < YEAR_10000 {
        FormatOrder(a.at, b.at);
      } else if |YearText(a.at)| == |YearText(b.at)| {
        SameWidthFormatOrder(a.at, b.at);
      }
    }
  }

  lemma {:induction false} InsertMapped(f: Foreign, c: Capture, cs: seq<Capture>)
    requires forall x :: x in cs ==> Orderly(c, x) && Orderly(x, c)
    ensures Insert(ByStarted(), EntryOf(f, c), Map(ToEntry(f), cs)) == Map(ToEntry(f), Insert(ByTime(), c, cs))
  {
    hide EntryOf, Orderly, Insert, ByStarted, ByTime;
    if cs == [] {
      NothingBefore(ByStarted(), EntryOf(f, c));
      NothingBefore(ByTime(), c);
      assert Map(ToEntry(f), [c]) == [EntryOf(f, c)];
    } else {
      assert cs[0] in cs;
      StartedAsTime(f, c, cs[0]);
      InsertMapped(f, c, cs[1..]);
      InsertStep(ByStarted(), EntryOf(f, c), EntryOf(f, cs[0]), Map(ToEntry(f), cs[1..]));
      InsertStep(ByTime(), c, cs[0], cs[1..]);
      assert cs == [cs[0]] + cs[1..];
      EntriesOf(f, cs[0], cs[1..]);
      EntriesOf(f, c, cs);
      EntriesOf(f, cs[0], Insert(ByTime(), c, cs[1..]));
    }
  }

  lemma EntriesOf(f: Foreign, c: Capture, cs: seq<Capture>)
    ensures Map(ToEntry(f), [c] + cs) == [EntryOf(f, c)] + Map(ToEntry(f), cs)
  {
    hide EntryOf;
  }

  lemma StartedAsTime(f: Foreign, c: Capture, d: Capture)
    requires Orderly(c, d) && Orderly(d, c)
    ensures ByStarted()(EntryOf(f, c), EntryOf(f, d)) == ByTime()(c, d)
  {
    hide FormatIso8601, LexLess, PostDataOf, ResponseOf, NormaliseHttpVersion, Pairs;
    if c.at < d.at {
      LexLessAsymmetric(FormatIso8601(c.at), FormatIso8601(d.at));
    } else if c.at == d.at {
      LexLessIrreflexive(FormatIso8601(c.at));
    }
  }

  lemma {:induction false} OrderlySortsByTime(f: Foreign, cs: seq<Capture>)
    requires AllOrderly(cs)
    ensures Build(f, cs) == Map(ToEntry(f), Sort(ByTime(), cs))
  {
    hide EntryOf, Insert, Orderly;
    if cs == [] {
      assert Map(ToEntry(f), cs) == [];
    } else {
      OrderlySortsByTime(f, cs[1..]);
      assert Map(ToEntry(f), cs)[1..] == Map(ToEntry(f), cs[1..]);
      SortMembers(ByTime(), cs[1..]);
      InsertMapped(f, cs[0], Sort(ByTime(), cs[1..]));
    }
  }

  lemma ByStartedTotal()
    ensures TotalOrder(ByStarted())
  {
    hide LexLess;
    forall x: Entry, y: Entry ensures ByStarted()(x, y) || ByStarted()(y, x) {
      if LexLess(x.started, y.started) { LexLessAsymmetric(x.started, y.started); }
    }
    forall x: Entry, y: Entry, z: Entry | ByStarted()(x, y) && ByStarted()(y, z) ensures ByStarted()(x, z) {
      LexLessTotal(x.started, y.started);
      if LexLess(z.started, x.started) && LexLess(x.started, y.started) {
        LexLessTransitive(z.started, x.started, y.started);
      }
    }
  }

  lemma TimeOrderIsTextOrder(f: Foreign, cs: seq<Capture>, a: Capture, b: Capture)
    requires Build(f, cs) == Map(ToEntry(f), Sort(ByTime(), cs))
    requires a in cs && b in cs && a.at < b.at
    ensures LexLess(FormatIso8601(a.at), FormatIso8601(b.at))
  {
    hide EntryOf, LexLess, FormatIso8601, Sort;
    var sorted := Sort(ByTime(), cs);
    SortMembers(ByTime(), cs);
    SortOrdered(ByTime(), cs);
    ByStartedTotal();
    SortOrdered(ByStarted(), Map(ToEntry(f), cs));
    var i :| 0 <= i < |sorted| && sorted[i] == a;
    var j :| 0 <= j < |sorted| && sorted[j] == b;
    assert forall k, l :: 0 <= k < l < |sorted| ==> ByTime()(sorted[k], sorted[l]);
    assert ByStarted()(Build(f, cs)[i], Build(f, cs)[j]);
    StartedOf(f, a);
    StartedOf(f, b);
    FormatsDiffer(a.at, b.at);
  }

  lemma StartedOf(f: Foreign, c: Capture)
    ensures EntryOf(f, c).started == FormatIso8601(c.at)
  {
  }

  /** Sorting by the printed start is the stable sort by time if and only if every
      earlier capture has the text that comes first. */
  lemma BuildSortsByTimeIff(f: Foreign, cs: seq<Capture>)
    ensures Build(f, cs) == Map(ToEntry(f), Sort(ByTime(), cs)) <==> AllOrderly(cs)
  {
    hide Build, Sort, Orderly;
    if AllOrderly(cs) { OrderlySortsByTime(f, cs); }
    if Build(f, cs) == Map(ToEntry(f), Sort(ByTime(), cs)) {
      forall a, b | a in cs && b in cs ensures Orderly(a, b) { OrderlyIfSorted(f, cs, a, b); }
    }
  }

  lemma OrderlyIfSorted(f: Foreign, cs: seq<Capture>, a: Capture, b: Capture)
    requires Build(f, cs) == Map(ToEntry(f), Sort(ByTime(), cs)) && a in cs && b in cs
    ensures Orderly(a, b)
  {
    hide Build, Sort, LexLess, FormatIso8601;
    if a.at < b.at { TimeOrderIsTextOrder(f, cs, a, b); }
  }

  function Renumbered(cs: seq<Capture>, prefix: string): seq<Capture> {
    seq(|cs|, i requires 0 <= i < |cs| => cs[i].(id := EntryId(prefix, i)))
  }

  lemma {:induction false} AllSurvive(f: Foreign, cs: seq<Capture>, prefix: string, now: nat)
    requires forall c :: c in cs ==> Portable(f, c) && c.at <= I64_MAX
    ensures Imported(f, Map(ToEntry(f), cs), prefix, now) == (Renumbered(cs, prefix), 0)
    decreases |cs|
  {
    hide EntryOf, CaptureFromEntry, Portable, EntryId;
    if cs != [] {
      var n := |cs| - 1;
      assert Map(ToEntry(f), cs)[..n] == Map(ToEntry(f), cs[..n]);
      AllSurvive(f, cs[..n], prefix, now);
      assert cs[n] in cs;
      CaptureSurvivesIff(f, cs[n], EntryId(prefix, n), now + n);
      assert Renumbered(cs, prefix) == Renumbered(cs[..n], prefix) + [cs[n].(id := EntryId(prefix, n))];
    }
  }

  ghost predicate SameInstant(at: nat, c: Capture) {
    c.at == at
  }

  /** Importing what was exported skips nothing and returns the captures, ids aside, in
      order of time, those of one instant in the order they were given. */
  lemma ImportOfExport(f: Foreign, cs: seq<Capture>, prefix: string, now: nat, at: nat)
    requires forall c :: c in cs ==> Portable(f, c) && c.at <= I64_MAX
    requires AllOrderly(cs)
    ensures var sorted := Sort(ByTime(), cs);
            && Imported(f, Build(f, cs), prefix, now) == (Renumbered(sorted, prefix), 0)
            && multiset(sorted) == multiset(cs)
            && (forall i, j :: 0 <= i < j < |sorted| ==> sorted[i].at <= sorted[j].at)
            && Filter((c: Capture) => SameInstant(at, c), sorted) == Filter((c: Capture) => SameInstant(at, c), cs)
  {
    hide Portable, Build, Imported, EntryOf, AllOrderly;
    OrderlySortsByTime(f, cs);
    SortMembers(ByTime(), cs);
    AllSurvive(f, Sort(ByTime(), cs), prefix, now);
    SortOrdered(ByTime(), cs);
    assert forall i, j :: 0 <= i < j < |Sort(ByTime(), cs)| ==> ByTime()(Sort(ByTime(), cs)[i], Sort(ByTime(), cs)[j]);
    SortStable(ByTime(), (c: Capture) => SameInstant(at, c), cs);
  }

  // ---------- ids ----------

  /** No two entries of a file get the same id. */
  lemma EntryIdsDiffer(prefix: string, i: nat, j: nat)
    requires EntryId(prefix, i) == EntryId(prefix, j)
    ensures i == j
  {
    hide Hex, PadTo4, Number;
    var a, b := PadTo4(Hex(i)), PadTo4(Hex(j));
    assert a == EntryId(prefix, i)[|prefix|..] && b == EntryId(prefix, j)[|prefix|..];
    NumberOfPadded(Hex(i));
    NumberOfPadded(Hex(j));
    NumberOfHex(i);
    NumberOfHex(j);
  }
}
