/** The headers and the query of a promoted file, resolved again. */
module PromotedHeaders {
  import opened Text
  import opened OrderedMap
  import opened FieldMaps
  import opened Captures
  import opened Forms
  import opened Resolution
  import opened ResolvedMaps
  import opened Promotion
  import opened PromotionMeaning

  // ---------- what stands in the file ----------

  /** Headers that the file keeps among its headers: not of one hop, no cookies unless
      asked for, and no bearer token. */
  predicate Stays(opts: Options, h: (string, string)) {
    && Lower(h.0) !in {"host", "content-length", "connection", "keep-alive", "proxy-authorization", "proxy-connection",
                       "transfer-encoding", "te", "trailer", "upgrade", "accept-encoding"}
    && !(Lower(h.0) == "cookie" && !opts.inlineCookies)
    && !(Lower(h.0) == "authorization" && "Bearer " <= h.1)
  }

  function Staying(opts: Options): ((string, string)) -> bool {
    (h: (string, string)) => Stays(opts, h)
  }

  /** Another credential stands in the file as a reference. */
  function Written(opts: Options, secret: string, h: (string, string)): (string, string) {
    if IsAuthorization(h) && !opts.inlineToken then (h.0, SecretRef(secret)) else h
  }

  function Writing(opts: Options, secret: string): ((string, string)) -> (string, string) {
    (h: (string, string)) => Written(opts, secret, h)
  }

  lemma OneWritten(opts: Options, session: Option<string>, secret: string, k: Kept, h: (string, string))
    ensures KeepHeader(opts, session, secret, k, h).headers
            == if Stays(opts, h) then Inserted(k.headers, h.0, Written(opts, secret, h).1) else k.headers
    ensures Stays(opts, h) && IsAuthorization(h) && !opts.inlineToken ==>
              (secret, h.1) in KeepHeader(opts, session, secret, k, h).secrets
    ensures k.secrets <= KeepHeader(opts, session, secret, k, h).secrets
  {
    hide Inserted, Trim, Lower, SecretRef;
    if IsAuthorization(h) { AuthorizationStays(h); }
  }

  lemma AuthorizationStays(h: (string, string))
    requires IsAuthorization(h)
    ensures Lower(h.0) !in HOP_BY_HOP && Lower(h.0) != "cookie"
  {
  }

  lemma InsertSnoc(pairs: seq<(string, string)>, p: (string, string))
    ensures InsertAll([], pairs + [p]) == Inserted(InsertAll([], pairs), p.0, p.1)
  {
    hide Inserted;
    assert (pairs + [p])[..|pairs|] == pairs;
  }

  lemma OneMoreWritten(opts: Options, secret: string, staying: seq<(string, string)>, h: (string, string))
    ensures InsertAll([], Map(Writing(opts, secret), staying + [h]))
            == Inserted(InsertAll([], Map(Writing(opts, secret), staying)), h.0, Written(opts, secret, h).1)
  {
    hide Inserted, InsertAll, Written;
    KeepsName(opts, secret, h);
    assert Map(Writing(opts, secret), staying + [h]) == Map(Writing(opts, secret), staying) + [Written(opts, secret, h)];
    InsertSnoc(Map(Writing(opts, secret), staying), Written(opts, secret, h));
  }

  /** The file's headers are those that stay, written so, inserted in order. */
  lemma {:induction false} HeadersWritten(opts: Options, session: Option<string>, secret: string, headers: seq<(string, string)>)
    ensures KeepHeaders(opts, session, secret, NOTHING_KEPT, headers).headers
            == InsertAll([], Map(Writing(opts, secret), Filter(Staying(opts), headers)))
    decreases |headers|
  {
    hide KeepHeader, Stays, Written, Filter, Inserted, InsertAll, Writing;
    if headers == [] {
      NoneWritten(opts, secret);
    } else {
      var n := |headers| - 1;
      HeadersWritten(opts, session, secret, headers[..n]);
      OneWritten(opts, session, secret, KeepHeaders(opts, session, secret, NOTHING_KEPT, headers[..n]), headers[n]);
      assert headers[..n + 1] == headers;
      FilterSnoc(Staying(opts), headers, n);
      var before := Filter(Staying(opts), headers[..n]);
      assert before + [] == before;
      OneMoreWritten(opts, secret, before, headers[n]);
    }
  }

  lemma NoneWritten(opts: Options, secret: string)
    ensures InsertAll([], Map(Writing(opts, secret), Filter(Staying(opts), []))) == []
  {
  }

  lemma KeepsName(opts: Options, secret: string, h: (string, string))
    ensures Written(opts, secret, h).0 == h.0
  {
  }

  lemma {:induction false} CredentialsKept(opts: Options, session: Option<string>, secret: string, headers: seq<(string, string)>)
    ensures forall h :: h in headers && Stays(opts, h) && IsAuthorization(h) && !opts.inlineToken ==>
              (secret, h.1) in KeepHeaders(opts, session, secret, NOTHING_KEPT, headers).secrets
    decreases |headers|
  {
    if headers != [] {
      hide KeepHeader, Stays, IsAuthorization;
      var n := |headers| - 1;
      CredentialsKept(opts, session, secret, headers[..n]);
      OneWritten(opts, session, secret, KeepHeaders(opts, session, secret, NOTHING_KEPT, headers[..n]), headers[n]);
    }
  }

  // ---------- what it resolves to ----------

  /** Where the file has the reference the environment has the secret; other text is
      its own. */
  function Restored(e: Env, secret: string): string -> string {
    (s: string) => if s == SecretRef(secret) && secret in e.secrets then e.secrets[secret] else s
  }

  /** A header with no template but what promotion writes. */
  ghost predicate PlainHeader(opts: Options, h: (string, string)) {
    !Contains(h.0, "{{") && ((IsAuthorization(h) && !opts.inlineToken) || !Contains(h.1, "{{"))
  }

  lemma ReferenceIsTemplate(secret: string)
    ensures Contains(SecretRef(secret), "{{")
  {
    assert OccursAt(SecretRef(secret), "{{", 0) by { assert SecretRef(secret)[0..2] == "{{"; }
  }

  lemma WrittenRestored(e: Env, opts: Options, secret: string, h: (string, string))
    requires PlainHeader(opts, h) && Referable(SECRET + secret) && Trimmed(secret)
    requires IsAuthorization(h) && !opts.inlineToken ==> secret in e.secrets && e.secrets[secret] == h.1
    ensures var w := Written(opts, secret, h);
            && w.0 == h.0 && Restored(e, secret)(w.1) == h.1
            && Resolve(e, w.0).result == Ok(w.0) && Resolve(e, w.1).result == Ok(Restored(e, secret)(w.1))
  {
    hide Contains, Resolve, SecretRef, Referable, Trimmed;
    ReferenceIsTemplate(secret);
    PlainTextResolves(e, h.0);
    if IsAuthorization(h) && !opts.inlineToken {
      ResolveSecret(e, secret);
    } else {
      PlainTextResolves(e, h.1);
    }
  }

  /** The promoted headers resolve to the captured ones, those left out aside, with
      every credential put back. */
  lemma HeadersSurvive(c: Capture, opts: Options, upper: string -> string, now: nat, e: Env)
    requires PromotionOf(c, opts, upper, now).Some? && Provides(e, PromotionOf(c, opts, upper, now).value)
    requires forall h :: h in Pairs(c.request.headers) ==> PlainHeader(opts, h)
    ensures ResolveEntries(e, PromotionOf(c, opts, upper, now).value.spec.headers).entries
            == Ok(InsertAll([], Filter(Staying(opts), Pairs(c.request.headers))))
  {
    hide Contains, Resolve, CutUrl, KeepHeaders, QueryFields, PromotedBody, SuggestName, SuggestSecretName, Pairs, PromotedUrl,
         PlainHeader, Stays, IsAuthorization, InsertAll, Filter, ResolveEntries;
    var secret, headers := SuggestSecretName(c.request.url), Pairs(c.request.headers);
    HeadersWritten(opts, c.session, secret, headers);
    CredentialsKept(opts, c.session, secret, headers);
    SecretNameIsSlug(c.request.url);
    SlugIsReferable(secret);
    StayingRestored(e, opts, secret, Filter(Staying(opts), headers));
  }

  lemma StayingRestored(e: Env, opts: Options, secret: string, staying: seq<(string, string)>)
    requires forall h :: h in staying ==> PlainHeader(opts, h)
    requires Referable(SECRET + secret) && Trimmed(secret)
    requires forall h :: h in staying && IsAuthorization(h) && !opts.inlineToken ==>
               secret in e.secrets && e.secrets[secret] == h.1
    ensures ResolveEntries(e, InsertAll([], Map(Writing(opts, secret), staying))).entries == Ok(InsertAll([], staying))
  {
    hide PlainHeader, IsAuthorization, Referable, Trimmed, Written, Restored, Resolve, InsertAll, ResolveEntries, MapValues;
    var g, written := Restored(e, secret), Map(Writing(opts, secret), staying);
    forall w | w in written
      ensures Resolve(e, w.0).result == Ok(w.0) && Resolve(e, w.1).result == Ok(g(w.1))
    {
      var i :| 0 <= i < |written| && written[i] == w;
      assert staying[i] in staying;
      WrittenRestored(e, opts, secret, staying[i]);
    }
    forall i | 0 <= i < |staying| ensures MapPair(g)(written[i]) == staying[i] {
      assert staying[i] in staying;
      WrittenRestored(e, opts, secret, staying[i]);
    }
    assert Map(MapPair(g), written) == staying;
    PairsResolve(e, written, g);
    InsertAllMapped(written, g);
  }

  /** A map of pairs that resolve one by one resolves to the map of their values. */
  lemma PairsResolve(e: Env, pairs: seq<(string, string)>, g: string -> string)
    requires forall p :: p in pairs ==> Resolve(e, p.0).result == Ok(p.0) && Resolve(e, p.1).result == Ok(g(p.1))
    ensures ResolveEntries(e, InsertAll([], pairs)).entries == Ok(MapValues(InsertAll([], pairs), g))
  {
    hide Resolve, InsertAll, ResolveEntries, MapValues, Ascending;
    var m := InsertAll([], pairs);
    InsertAllUnder(pairs, "");
    InsertAllAmong(pairs);
    forall entry | entry in m ensures ResolvesBy(e, entry, g) {
      assert EntryAmong(entry, pairs);
      var s := ValuesOf(entry.1)[0];
      assert (entry.0, s) in pairs;
      forall v | v in ValuesOf(entry.1) ensures Resolve(e, v).result == Ok(g(v)) { assert (entry.0, v) in pairs; }
    }
    MapResolvesBy(e, m, g);
  }

  function Same(): string -> string {
    (s: string) => s
  }

  lemma MapSame(m: Entries)
    ensures MapValues(m, Same()) == m
  {
    forall i | 0 <= i < |m| ensures MapValues(m, Same())[i] == m[i] {
      var v := m[i].1;
      assert v.Many? ==> Map(Same(), v.values) == v.values;
    }
  }

  /** The query's parameters resolve to themselves: what the file holds is what was
      captured, decoded. */
  lemma QuerySurvives(c: Capture, opts: Options, upper: string -> string, now: nat, e: Env)
    requires PromotionOf(c, opts, upper, now).Some? && DecodePairs(Pieces(SplitUrl(c.request.url).1)).Some?
    requires NoTemplate(DecodePairs(Pieces(SplitUrl(c.request.url).1)).value)
    ensures var pairs := DecodePairs(Pieces(SplitUrl(c.request.url).1)).value;
            && PromotionOf(c, opts, upper, now).value.spec.query == InsertAll([], pairs)
            && ResolveEntries(e, PromotionOf(c, opts, upper, now).value.spec.query).entries == Ok(InsertAll([], pairs))
  {
    hide Contains, Resolve, CutUrl, KeepHeaders, Pieces, DecodePairs, PromotedBody, SuggestName, SuggestSecretName, Pairs,
         PromotedUrl, InsertAll, ResolveEntries, MapValues;
    var pairs := DecodePairs(Pieces(SplitUrl(c.request.url).1)).value;
    forall p | p in pairs ensures Resolve(e, p.0).result == Ok(p.0) && Resolve(e, p.1).result == Ok(Same()(p.1)) {
      PlainTextResolves(e, p.0);
      PlainTextResolves(e, p.1);
    }
    PairsResolve(e, pairs, Same());
    MapSame(InsertAll([], pairs));
  }
}
