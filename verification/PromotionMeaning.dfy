/** A promoted request still means what was captured, and shows no credential. */
module PromotionMeaning {
  import opened Text
  import opened FieldMaps
  import opened Captures
  import opened Forms
  import opened Resolution
  import opened Promotion

  // ---------- references resolve ----------

  ghost predicate BracesAt(s: string, k: int) {
    0 <= k && k + 1 < |s| && s[k] == '{' && s[k + 1] == '{'
  }

  lemma TemplateIff(s: string)
    ensures Contains(s, "{{") <==> exists k :: BracesAt(s, k)
  {
    if k :| BracesAt(s, k) { assert OccursAt(s, "{{", k) by { assert s[k..k + 2] == "{{"; } }
    if k :| OccursAt(s, "{{", k) {
      assert s[k..k + 2][0] == '{' && s[k..k + 2][1] == '{';
      assert BracesAt(s, k);
    }
  }

  /** A template in a part of a URL, or in two joined at a `#`, is one in the URL. */
  lemma PartsWithin(a: string, mid: string, c: string)
    requires c == "" || c[0] == '#'
    ensures Contains(a + c, "{{") ==> Contains(a + mid + c, "{{")
  {
    hide Contains;
    var s := a + mid + c;
    TemplateIff(s);
    TemplateIff(a + c);
    if k :| BracesAt(a + c, k) {
      BracesKept(a, mid, c, k);
    }
  }

  lemma BracesKept(a: string, mid: string, c: string, k: int)
    requires c == "" || c[0] == '#'
    requires BracesAt(a + c, k)
    ensures BracesAt(a + mid + c, if k < |a| then k else k + |mid|)
  {
  }

  lemma HalvesWithin(a: string, b: string)
    ensures Contains(a, "{{") || Contains(b, "{{") ==> Contains(a + b, "{{")
  {
    hide Contains;
    TemplateIff(a + b);
    TemplateIff(a);
    TemplateIff(b);
    if k :| BracesAt(a, k) { assert BracesAt(a + b, k); }
    if k :| BracesAt(b, k) { assert BracesAt(a + b, k + |a|); }
  }

  /** A name that can be read back from between `{{` and `}}`. */
  ghost predicate Referable(name: string) {
    Trimmed(name) && !Contains(name + "}", "}}")
  }

  lemma FindClose(name: string, rest: string)
    requires !Contains(name + "}", "}}")
    ensures Find(name + "}}" + rest, "}}") == Some(|name|)
  {
    var s := name + "}}" + rest;
    assert OccursAt(s, "}}", |name|);
    forall j | 0 <= j < |name| ensures !OccursAt(s, "}}", j) {
      assert s[j..j + 2] == (name + "}")[j..j + 2];
      assert !OccursAt(name + "}", "}}", j);
    }
  }

  lemma ScanReference(name: string, rest: string)
    requires !Contains(name + "}", "}}")
    ensures ScanNext("{{" + name + "}}" + rest) == Reference("", Trim(name), rest)
  {
    hide Find, Trim, Contains;
    var s := "{{" + name + "}}" + rest;
    var after := name + "}}" + rest;
    assert OccursAt(s, "{{", 0) by { assert s[0..2] == "{{"; }
    assert s[2..] == after;
    FindClose(name, rest);
    assert after[..|name|] == name && after[|name| + 2..] == rest;
  }

  lemma PlainRest(e: Env, max: nat, template: string, rest: string, depth: nat, stack: seq<string>)
    requires depth <= max && !Contains(rest, "{{")
    ensures ExpandRest(e, max, template, rest, depth, stack) == Outcome(Ok(rest), {})
  {
  }

  function AppendText(r: Result<string, Error>, rest: string): Result<string, Error> {
    if r.Err? then r else Ok(r.value + rest)
  }

  /** A reference in front of plain text resolves to the name's value and the text. */
  lemma ResolveReference(e: Env, name: string, rest: string)
    requires !Contains(name + "}", "}}") && !Contains(rest, "{{")
    ensures Resolve(e, "{{" + name + "}}" + rest).result == AppendText(Lookup(e, MAX_DEPTH, Trim(name), 0, []).result, rest)
  {
    hide ScanNext, Lookup, Contains, Trim;
    var template := "{{" + name + "}}" + rest;
    ScanReference(name, rest);
    PlainRest(e, MAX_DEPTH, template, rest, 0, []);
    var value := Lookup(e, MAX_DEPTH, Trim(name), 0, []).result;
    if value.Ok? { assert "" + value.value + rest == value.value + rest; }
  }

  /** A name that is looked up among the variables. */
  predicate VariableName(e: Env, name: string) {
    !(SECRET <= name) && !(ENV <= name) && name !in e.generated
  }

  lemma ResolveVariable(e: Env, name: string, rest: string)
    requires Referable(name) && VariableName(e, name) && name in e.vars
    requires !Contains(e.vars[name], "{{") && !Contains(rest, "{{")
    ensures Resolve(e, "{{" + name + "}}" + rest).result == Ok(e.vars[name] + rest)
  {
    hide ScanNext, Contains, Resolve, Trim;
    ResolveReference(e, name, rest);
    TrimFixed(name);
    PlainRest(e, MAX_DEPTH, e.vars[name], e.vars[name], 1, [name]);
    assert [] + [name] == [name];
  }

  lemma ResolveSecret(e: Env, key: string)
    requires Referable(SECRET + key) && Trimmed(key) && key in e.secrets
    ensures Resolve(e, SecretRef(key)).result == Ok(e.secrets[key])
  {
    hide ScanNext, Contains, Resolve, Trim, Expand;
    var name := SECRET + key;
    TrimFixed(name);
    assert SecretRef(key) == "{{" + name + "}}" + "";
    TemplateIff("");
    ResolveReference(e, name, "");
    assert name[|SECRET|..] == key;
    TrimFixed(key);
    assert e.secrets[key] + "" == e.secrets[key];
  }

  // ---------- the suggested secret name ----------

  predicate IsSlug(c: char) {
    'a' <= c <= 'z' || '0' <= c <= '9' || c == '_'
  }

  lemma SecretNameIsSlug(url: string)
    ensures SuggestSecretName(url) != "" && forall c :: c in SuggestSecretName(url) ==> IsSlug(c)
  {
    hide SplitOrigin, TrimStartMatches;
    var host := match SplitOrigin(url) case None => url case Some((o, _)) => o;
    var bare := TrimStartMatches(TrimStartMatches(host, "https://"), "http://");
    forall c | c in Map(SlugChar, bare) ensures IsSlug(c) {
      var i :| 0 <= i < |bare| && Map(SlugChar, bare)[i] == c;
    }
  }

  lemma SlugIsReferable(key: string)
    requires key != "" && forall c :: c in key ==> IsSlug(c)
    ensures Trimmed(key) && Referable(SECRET + key)
  {
    var name := SECRET + key;
    assert key[0] in key && key[|key| - 1] in key;
    assert name[0] == 's' && name[|name| - 1] == key[|key| - 1];
    assert !Contains(name + "}", "}}") by {
      forall j ensures !OccursAt(name + "}", "}}", j) {
        if 0 <= j && j + 2 <= |name| + 1 {
          assert (name + "}")[j..j + 2][0] == name[j];
          if j >= |SECRET| { assert name[j] == key[j - |SECRET|] && key[j - |SECRET|] in key; }
          assert name[j] != '}';
        }
      }
    }
  }

  // ---------- what a promotion returns is enough to resolve it ----------

  /** An environment in which every variable and secret the promotion suggests has the
      value it suggests. */
  ghost predicate Provides(e: Env, p: Promoted) {
    && (forall kv :: kv in p.vars ==> kv.0 in e.vars && e.vars[kv.0] == kv.1)
    && (forall kv :: kv in p.secrets ==> kv.0 in e.secrets && e.secrets[kv.0] == kv.1)
  }

  lemma BaseHoldsNone(url: string)
    requires !Contains(url, "{{")
    ensures !Contains(SplitUrl(url).0, "{{")
  {
    hide Contains, CutUrl;
    var u := CutUrl(url);
    CutUrlJoins(url);
    PartsWithin(u.base, Asked(u), u.fragment);
  }

  /** The promoted URL resolves to the captured URL less its query, wherever the
      suggested variables have their suggested values. */
  lemma UrlSurvives(c: Capture, opts: Options, upper: string -> string, now: nat, e: Env)
    requires PromotionOf(c, opts, upper, now).Some?
    requires forall kv :: kv in PromotionOf(c, opts, upper, now).value.vars ==> kv.0 in e.vars && e.vars[kv.0] == kv.1
    requires !Contains(c.request.url, "{{")
    requires opts.baseUrlVar.Some? ==> Referable(opts.baseUrlVar.value) && VariableName(e, opts.baseUrlVar.value)
    ensures Resolve(e, PromotionOf(c, opts, upper, now).value.spec.url).result
            == Ok(CutUrl(c.request.url).base + CutUrl(c.request.url).fragment)
  {
    hide Contains, Resolve, CutUrl, SplitOrigin, Referable, KeepHeaders, QueryFields, PromotedBody, SuggestName, SuggestSecretName, Pairs;
    var base := SplitUrl(c.request.url).0;
    var p := PromotionOf(c, opts, upper, now).value;
    BaseHoldsNone(c.request.url);
    if opts.baseUrlVar.Some? && SplitOrigin(base).Some? {
      var (origin, path) := SplitOrigin(base).value;
      var name := opts.baseUrlVar.value;
      assert p.vars == [(name, origin)];
      assert (name, origin) in p.vars;
      HalvesWithin(origin, path);
      ResolveVariable(e, name, path);
    } else {
      PlainTextResolves(e, base);
    }
  }

  lemma PlainTextResolves(e: Env, template: string)
    requires !Contains(template, "{{")
    ensures Resolve(e, template).result == Ok(template)
  {
  }

  lemma {:induction false} LastBearerKept(opts: Options, session: Option<string>, secret: string, headers: seq<(string, string)>, i: nat)
    requires i < |headers| && IsBearer(headers[i])
    requires forall j :: i < j < |headers| ==> !IsBearer(headers[j])
    ensures var kept := KeepHeaders(opts, session, secret, NOTHING_KEPT, headers);
            && kept.auth == Some(Bearer(if opts.inlineToken then TokenOf(headers[i]) else SecretRef(secret)))
            && (!opts.inlineToken ==> (secret, TokenOf(headers[i])) in kept.secrets)
    decreases |headers|
  {
    hide Inserted, Trim, KeepHeader, Lower;
    var n := |headers| - 1;
    var before := KeepHeaders(opts, session, secret, NOTHING_KEPT, headers[..n]);
    if i < n {
      LastBearerKept(opts, session, secret, headers[..n], i);
      OtherKept(opts, session, secret, before, headers[n]);
    } else {
      BearerKept(opts, session, secret, before, headers[n]);
    }
  }

  lemma OtherKept(opts: Options, session: Option<string>, secret: string, k: Kept, h: (string, string))
    requires !IsBearer(h)
    ensures var k' := KeepHeader(opts, session, secret, k, h);
            (k.auth.Some? ==> k'.auth == k.auth) && k.secrets <= k'.secrets
  {
    hide Inserted, Trim;
  }

  lemma BearerKept(opts: Options, session: Option<string>, secret: string, k: Kept, h: (string, string))
    requires IsBearer(h)
    ensures var k' := KeepHeader(opts, session, secret, k, h);
            && k'.auth == Some(Bearer(if opts.inlineToken then TokenOf(h) else SecretRef(secret)))
            && (!opts.inlineToken ==> (secret, TokenOf(h)) in k'.secrets)
  {
    hide Inserted, Trim;
    BearerIsRead(h);
  }

  lemma BearerIsRead(h: (string, string))
    requires IsBearer(h)
    ensures Lower(h.0) == "authorization" && Lower(h.0) !in HOP_BY_HOP && Lower(h.0) != "cookie"
  {
  }

  /** Sending the promoted request sends the captured bearer token, trimmed. */
  lemma BearerSurvives(c: Capture, opts: Options, upper: string -> string, now: nat, e: Env, o: Outside, i: nat)
    requires PromotionOf(c, opts, upper, now).Some? && Provides(e, PromotionOf(c, opts, upper, now).value)
    requires i < |Pairs(c.request.headers)| && IsBearer(Pairs(c.request.headers)[i])
    requires forall j :: i < j < |Pairs(c.request.headers)| ==> !IsBearer(Pairs(c.request.headers)[j])
    requires opts.inlineToken ==> !Contains(TokenOf(Pairs(c.request.headers)[i]), "{{")
    ensures Authenticate(e, o, PromotionOf(c, opts, upper, now).value.spec.auth).added
            == Ok(AuthorizationHeader("Bearer " + TokenOf(Pairs(c.request.headers)[i])))
  {
    hide Contains, Resolve, SplitUrl, SplitOrigin, Referable, KeepHeaders, QueryFields, PromotedBody, SuggestName,
         SuggestSecretName, Pairs, Trimmed, TokenOf, PromotedUrl, IsBearer;
    var secret := SuggestSecretName(c.request.url);
    var token := TokenOf(Pairs(c.request.headers)[i]);
    LastBearerKept(opts, c.session, secret, Pairs(c.request.headers), i);
    if opts.inlineToken {
      PlainTextResolves(e, token);
    } else {
      SecretNameIsSlug(c.request.url);
      SlugIsReferable(secret);
      assert (secret, token) in PromotionOf(c, opts, upper, now).value.secrets;
      ResolveSecret(e, secret);
    }
  }

  // ---------- the suggestions themselves provide, with one Authorization header ----------

  ghost predicate AtMostOneAuthorization(headers: seq<(string, string)>) {
    forall i, j :: 0 <= i < j < |headers| ==> !(IsAuthorization(headers[i]) && IsAuthorization(headers[j]))
  }

  lemma {:induction false} SecretsComeFromAuthorization(opts: Options, session: Option<string>, secret: string,
                                                        headers: seq<(string, string)>)
    ensures var kept := KeepHeaders(opts, session, secret, NOTHING_KEPT, headers);
            && (kept.secrets != [] ==> exists i :: 0 <= i < |headers| && IsAuthorization(headers[i]))
            && (AtMostOneAuthorization(headers) ==> |kept.secrets| <= 1)
    decreases |headers|
  {
    hide Inserted, Trim;
    if headers != [] {
      var n := |headers| - 1;
      SecretsComeFromAuthorization(opts, session, secret, headers[..n]);
      if KeepHeaders(opts, session, secret, NOTHING_KEPT, headers[..n]).secrets != [] {
        var i :| 0 <= i < n && IsAuthorization(headers[..n][i]);
        assert headers[i] == headers[..n][i];
      }
      if AtMostOneAuthorization(headers) {
        assert AtMostOneAuthorization(headers[..n]);
      }
    }
  }

  /** The returned variables and secrets, and what the generators give: names they know
      are theirs before any variable. */
  function Returned(p: Promoted, generated: map<string, string>): Env {
    Env(MapOf(p.vars), MapOf(p.secrets), false, map[], generated)
  }

  lemma SinglePairs(pairs: seq<(string, string)>)
    requires |pairs| <= 1
    ensures forall kv :: kv in pairs ==> kv.0 in MapOf(pairs) && MapOf(pairs)[kv.0] == kv.1
  {
    MapOfDistinct(pairs);
  }

  /** With at most one Authorization header, what a promotion returns is enough. */
  lemma ReturnedProvides(c: Capture, opts: Options, upper: string -> string, now: nat, generated: map<string, string>)
    requires PromotionOf(c, opts, upper, now).Some? && AtMostOneAuthorization(Pairs(c.request.headers))
    ensures Provides(Returned(PromotionOf(c, opts, upper, now).value, generated), PromotionOf(c, opts, upper, now).value)
  {
    hide SplitUrl, SplitOrigin, KeepHeaders, QueryFields, PromotedBody, SuggestName, SuggestSecretName, Pairs,
         AtMostOneAuthorization, MapOf;
    var p := PromotionOf(c, opts, upper, now).value;
    SecretsComeFromAuthorization(opts, c.session, SuggestSecretName(c.request.url), Pairs(c.request.headers));
    SinglePairs(p.secrets);
    SinglePairs(p.vars);
  }

  // ---------- the whole statement, as promotion is used ----------

  /** Cookies and tokens moved out of the file, the origin behind `base_url`. */
  const DEFAULT_OPTIONS := Options(false, false, Some("base_url"))

  lemma DefaultIsReferable()
    ensures Referable("base_url") && !(SECRET <= "base_url") && !(ENV <= "base_url")
  {
    assert !Contains("base_url" + "}", "}}") by {
      forall j ensures !OccursAt("base_url" + "}", "}}", j) {
        if 0 <= j && j + 2 <= 9 { assert ("base_url" + "}")[j..j + 2][0] == "base_url"[j]; }
      }
    }
    assert "base_url"[0] == 'b' && "secret:"[0] == 's' && "env:"[0] == 'e';
  }

  /** A promoted capture, resolved under nothing but what its promotion returned and
      generators that do not know `base_url`, asks for the captured URL with the captured
      bearer token. */
  lemma PromotionKeepsMeaning(c: Capture, upper: string -> string, now: nat, generated: map<string, string>, o: Outside)
    requires PromotionOf(c, DEFAULT_OPTIONS, upper, now).Some? && "base_url" !in generated
    requires !Contains(c.request.url, "{{") && AtMostOneAuthorization(Pairs(c.request.headers))
    ensures var p := PromotionOf(c, DEFAULT_OPTIONS, upper, now).value;
            var e := Returned(p, generated);
            && Resolve(e, p.spec.url).result == Ok(CutUrl(c.request.url).base + CutUrl(c.request.url).fragment)
            && forall h :: h in Pairs(c.request.headers) && IsBearer(h) ==>
                 Authenticate(e, o, p.spec.auth).added == Ok(AuthorizationHeader("Bearer " + TokenOf(h)))
  {
    hide Contains, Resolve, CutUrl, Referable, PromotionOf, Pairs, TokenOf, Authenticate, Provides, Returned;
    var p := PromotionOf(c, DEFAULT_OPTIONS, upper, now).value;
    var e := Returned(p, generated);
    ReturnedProvides(c, DEFAULT_OPTIONS, upper, now, generated);
    DefaultIsReferable();
    ReturnedGenerates(p, generated);
    ProvidesVars(e, p);
    UrlSurvives(c, DEFAULT_OPTIONS, upper, now, e);
    forall h | h in Pairs(c.request.headers) && IsBearer(h)
      ensures Authenticate(e, o, p.spec.auth).added == Ok(AuthorizationHeader("Bearer " + TokenOf(h)))
    {
      var i :| 0 <= i < |Pairs(c.request.headers)| && Pairs(c.request.headers)[i] == h;
      BearerSurvives(c, DEFAULT_OPTIONS, upper, now, e, o, i);
    }
  }

  lemma ProvidesVars(e: Env, p: Promoted)
    requires Provides(e, p)
    ensures forall kv :: kv in p.vars ==> kv.0 in e.vars && e.vars[kv.0] == kv.1
  {
  }

  lemma ReturnedGenerates(p: Promoted, generated: map<string, string>)
    ensures Returned(p, generated).generated == generated
  {
  }
}
