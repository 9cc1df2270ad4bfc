/** A capture turned into a request file that can be edited, committed and resolved
    again. */
module Promotion {
  import opened Text
  import opened FieldMaps
  import opened Captures
  import opened Forms
  import opened Resolution

  // ---------- the request file ----------

  datatype Auth =
    | NoAuth
    | Inherit
    | SessionAuth(session: Option<string>)
    | Bearer(token: string)
    | Basic(username: string, password: string)
    | ApiKey(key: string, value: string, inQuery: bool)
    | OAuth2

  datatype Body = JsonBody(content: string) | PlainBody(content: string, contentType: Option<string>)
                | FormBody(fields: seq<(string, string)>)

  datatype Spec = Spec(name: string, verb: string, url: string, headers: Entries, query: Entries, auth: Option<Auth>,
                       body: Option<Body>, capture: string, promotedAt: nat, page: Option<string>)

  datatype Options = Options(inlineCookies: bool, inlineToken: bool, baseUrlVar: Option<string>)

  /** The request, and the credentials left out of it. */
  datatype Promoted = Promoted(spec: Spec, secrets: seq<(string, string)>, vars: seq<(string, string)>,
                               session: Option<string>)

  /** Headers that describe one hop only. */
  const HOP_BY_HOP := {"host", "content-length", "connection", "keep-alive", "proxy-authorization", "proxy-connection",
                       "transfer-encoding", "te", "trailer", "upgrade", "accept-encoding"}

  // ---------- URLs ----------

  /** A URL taken apart; only one with a query has its fragment split off. */
  datatype Cut = Cut(base: string, query: Option<string>, fragment: string)

  function CutUrl(url: string): Cut {
    match SplitOnce(url, '?')
    case None => Cut(url, None, "")
    case Some((base, query)) =>
      match SplitOnce(query, '#')
      case None => Cut(base, Some(query), "")
      case Some((q, f)) => Cut(base, Some(q), ['#'] + f)
  }

  function Asked(u: Cut): string {
    match u.query case None => "" case Some(q) => ['?'] + q
  }

  /** The URL without its query, a fragment kept, and the query. */
  function SplitUrl(url: string): (string, string) {
    var u := CutUrl(url);
    (u.base + u.fragment, if u.query.Some? then u.query.value else "")
  }

  /** The parts make up the URL, each without the mark of the next. */
  lemma CutUrlJoins(url: string)
    ensures var u := CutUrl(url);
            && url == u.base + Asked(u) + u.fragment
            && '?' !in u.base && (u.query.Some? ==> '#' !in u.query.value)
            && (u.fragment == "" || u.fragment[0] == '#')
            && (u.query.None? ==> u.fragment == "")
  {
    hide SplitOnce;
    if '?' in url {
      var (base, query) := SplitOnce(url, '?').value;
      if '#' in query {
        var (q, f) := SplitOnce(query, '#').value;
        PartsJoin(base, q, f);
      } else {
        assert base + ['?'] + query == base + (['?'] + query) + "";
      }
    } else {
      assert url + "" + "" == url;
    }
  }

  lemma PartsJoin(base: string, q: string, f: string)
    ensures base + ['?'] + (q + ['#'] + f) == base + (['?'] + q) + (['#'] + f)
  {
  }

  /** The query's pairs decoded; `None` when decoding fails. */
  function QueryFields(query: string): Option<Entries> {
    match DecodePairs(Pieces(query)) case None => None case Some(pairs) => Some(InsertAll([], pairs))
  }

  /** Scheme and host, and the rest. */
  function SplitOrigin(url: string): (r: Option<(string, string)>)
    ensures r.Some? ==> url == r.value.0 + r.value.1
  {
    match Find(url, "://")
    case None => None
    case Some(i) =>
      var rest := url[i + 3..];
      var end := match IndexOf(rest, '/') case None => |rest| case Some(k) => k;
      OriginJoins(url, i, end);
      Some((url[..i] + "://" + rest[..end], rest[end..]))
  }

  lemma OriginJoins(url: string, i: nat, end: nat)
    requires OccursAt(url, "://", i) && end <= |url| - i - 3
    ensures url == url[..i] + "://" + url[i + 3..][..end] + url[i + 3..][end..]
  {
    assert url[i..i + 3] == "://";
  }

  function LastTwo(parts: seq<string>): seq<string> {
    if |parts| <= 2 then parts else parts[|parts| - 2..]
  }

  function SuggestName(upper: string -> string, verb: string, url: string): string {
    var path := match SplitOrigin(url) case None => url case Some((_, p)) => p;
    var tail := Filter(Present(), Split(Split(path, '?')[0], '/'));
    upper(verb) + " " + (if tail == [] then "root" else Join(LastTwo(tail), "/"))
  }

  function TrimStartMatches(s: string, pre: string): string
    decreases |s|
  {
    if pre != "" && pre <= s then TrimStartMatches(s[|pre|..], pre) else s
  }

  function TrimUnderscores(s: string): (r: string)
    ensures forall c :: c in r ==> c in s
    decreases |s|
  {
    if s != "" && s[0] == '_' then TrimUnderscores(s[1..])
    else if s != "" && s[|s| - 1] == '_' then TrimUnderscores(s[..|s| - 1])
    else s
  }

  function SlugChar(c: char): char {
    if 'a' <= c <= 'z' || '0' <= c <= '9' then c else if 'A' <= c <= 'Z' then LowerChar(c) else '_'
  }

  function SuggestSecretName(url: string): string {
    var host := match SplitOrigin(url) case None => url case Some((o, _)) => o;
    var bare := TrimStartMatches(TrimStartMatches(host, "https://"), "http://");
    TrimUnderscores(Map(SlugChar, bare)) + "_token"
  }

  // ---------- headers ----------

  const BEARER := "Bearer "

  predicate IsAuthorization(header: (string, string)) {
    Lower(header.0) == "authorization"
  }

  predicate IsBearer(header: (string, string)) {
    IsAuthorization(header) && BEARER <= header.1
  }

  function TokenOf(header: (string, string)): string
    requires IsBearer(header)
  {
    Trim(header.1[|BEARER|..])
  }

  function SecretRef(name: string): string {
    "{{" + SECRET + name + "}}"
  }

  /** What the headers read so far have made. */
  datatype Kept = Kept(headers: Entries, auth: Option<Auth>, secrets: seq<(string, string)>)

  function KeepHeader(opts: Options, session: Option<string>, secret: string, k: Kept, h: (string, string)): Kept {
    var lower := Lower(h.0);
    if lower in HOP_BY_HOP then k
    else if lower == "cookie" && !opts.inlineCookies then
      k.(auth := if k.auth.Some? then k.auth else Some(SessionAuth(session)))
    else if lower == "authorization" then
      if BEARER <= h.1 then
        var token := Trim(h.1[|BEARER|..]);
        if opts.inlineToken then k.(auth := Some(Bearer(token)))
        else k.(auth := Some(Bearer(SecretRef(secret))), secrets := k.secrets + [(secret, token)])
      else if opts.inlineToken then k.(headers := Inserted(k.headers, h.0, h.1))
      else k.(headers := Inserted(k.headers, h.0, SecretRef(secret)), secrets := k.secrets + [(secret, h.1)])
    else k.(headers := Inserted(k.headers, h.0, h.1))
  }

  const NOTHING_KEPT := Kept([], None, [])

  function KeepHeaders(opts: Options, session: Option<string>, secret: string, k: Kept, headers: seq<(string, string)>): Kept
    decreases |headers|
  {
    if headers == [] then k
    else KeepHeader(opts, session, secret, KeepHeaders(opts, session, secret, k, headers[..|headers| - 1]), headers[|headers| - 1])
  }

  // ---------- bodies ----------

  /** `None` when decoding a form fails. */
  function BodyFromCapture(body: CapturedBody, contentType: string): Option<Body> {
    var ct := Lower(contentType);
    match body
    case Base64Body(_) => Some(PlainBody("", Some(contentType)))
    case TextBody(text) =>
      if Contains(ct, "json") then Some(JsonBody(text))
      else if Contains(ct, "x-www-form-urlencoded") then
        match ParseForm(text) case None => None case Some(fields) => Some(FormBody(fields))
      else if Contains(ct, "graphql") then Some(JsonBody(text))
      else Some(PlainBody(text, if ct == "" then None else Some(contentType)))
  }

  function PromotedBody(r: CapturedRequest): Option<Option<Body>> {
    match r.body
    case None => Some(None)
    case Some(body) =>
      match BodyFromCapture(body, match First(r.headers, "content-type") case None => "" case Some(v) => v)
      case None => None
      case Some(b) => Some(Some(b))
  }

  // ---------- promotion ----------

  /** The file's URL and the variable it refers to. */
  function PromotedUrl(opts: Options, base: string): (string, seq<(string, string)>) {
    match (opts.baseUrlVar, SplitOrigin(base))
    case (Some(name), Some((origin, path))) => ("{{" + name + "}}" + path, [(name, origin)])
    case _ => (base, [])
  }

  /** `None` when decoding the query or a form fails. */
  function PromotionOf(c: Capture, opts: Options, upper: string -> string, now: nat): Option<Promoted> {
    var (base, query) := SplitUrl(c.request.url);
    var (url, vars) := PromotedUrl(opts, base);
    var kept := KeepHeaders(opts, c.session, SuggestSecretName(c.request.url), NOTHING_KEPT, Pairs(c.request.headers));
    match (QueryFields(query), PromotedBody(c.request))
    case (Some(fields), Some(body)) =>
      Some(Promoted(Spec(SuggestName(upper, c.request.verb, c.request.url), upper(c.request.verb), url, kept.headers, fields,
                         kept.auth, body, c.id, now, c.page),
                    kept.secrets, vars, c.session))
    case _ => None
  }

  method Promote(c: Capture, opts: Options, upper: string -> string, now: nat) returns (p: Option<Promoted>)
    ensures p == PromotionOf(c, opts, upper, now)
  {
    hide Pairs, SplitUrl, QueryFields, PromotedBody, SuggestName, SuggestSecretName, SplitOrigin, Inserted, KeepHeaders, Trim;
    var secrets: seq<(string, string)> := [];
    var vars: seq<(string, string)> := [];
    var (base, query) := SplitUrl(c.request.url);
    var fields := QueryFields(query);
    if fields.None? {
      return None;
    }
    var url := base;
    var origin := SplitOrigin(base);
    if opts.baseUrlVar.Some? && origin.Some? {
      vars := vars + [(opts.baseUrlVar.value, origin.value.0)];
      assert vars == [(opts.baseUrlVar.value, origin.value.0)];
      url := "{{" + opts.baseUrlVar.value + "}}" + origin.value.1;
    }
    assert (url, vars) == PromotedUrl(opts, base);
    var headers := new FieldMap();
    var auth: Option<Auth> := None;
    var pairs := Pairs(c.request.headers);
    var name := SuggestSecretName(c.request.url);
    NothingKept(opts, c.session, name, pairs);
    for i := 0 to |pairs|
      invariant fresh(headers) && headers.Valid()
      invariant Kept(headers.entries, auth, secrets) == KeepHeaders(opts, c.session, name, NOTHING_KEPT, pairs[..i])
    {
      OneMoreKept(opts, c.session, name, pairs, i);
      var (key, value) := pairs[i];
      var lower := Lower(key);
      if lower in HOP_BY_HOP {
      } else if lower == "cookie" && !opts.inlineCookies {
        if auth.None? {
          auth := Some(SessionAuth(c.session));
        }
      } else if lower == "authorization" {
        if BEARER <= value {
          var token := Trim(value[|BEARER|..]);
          if opts.inlineToken {
            auth := Some(Bearer(token));
          } else {
            secrets := secrets + [(name, token)];
            auth := Some(Bearer(SecretRef(name)));
          }
        } else if opts.inlineToken {
          headers.Insert(key, value);
        } else {
          secrets := secrets + [(name, value)];
          headers.Insert(key, SecretRef(name));
        }
      } else {
        headers.Insert(key, value);
      }
    }
    assert pairs[..|pairs|] == pairs;
    var body := PromotedBody(c.request);
    if body.None? {
      return None;
    }
    p := Some(Promoted(Spec(SuggestName(upper, c.request.verb, c.request.url), upper(c.request.verb), url, headers.entries,
                            fields.value, auth, body.value, c.id, now, c.page),
                       secrets, vars, c.session));
  }

  lemma NothingKept(opts: Options, session: Option<string>, secret: string, headers: seq<(string, string)>)
    ensures KeepHeaders(opts, session, secret, NOTHING_KEPT, headers[..0]) == NOTHING_KEPT
  {
  }

  lemma OneMoreKept(opts: Options, session: Option<string>, secret: string, headers: seq<(string, string)>, i: nat)
    requires i < |headers|
    ensures KeepHeaders(opts, session, secret, NOTHING_KEPT, headers[..i + 1])
            == KeepHeader(opts, session, secret, KeepHeaders(opts, session, secret, NOTHING_KEPT, headers[..i]), headers[i])
  {
    hide KeepHeader;
    assert headers[..i + 1][..i] == headers[..i];
  }

  // ---------- sending the promoted request ----------

  /** What comes from elsewhere: base64, the token an authorization server gives, and the
      secrets that the templates of that server's configuration use on the way. */
  datatype Outside = Outside(b64: string -> string, token: Result<string, Error>, tokenSecrets: set<string>)

  /** Headers and query parameters that authentication adds. */
  datatype Additions = Additions(headers: seq<(string, string)>, query: seq<(string, string)>)

  datatype Authenticated = Authenticated(added: Result<Additions, Error>, used: set<string>)

  const NOTHING_ADDED := Additions([], [])

  function AuthorizationHeader(value: string): Additions {
    Additions([("Authorization", value)], [])
  }

  /** Two texts resolved, the first before the second. */
  function ResolveTwo(e: Env, a: string, b: string): (Result<(string, string), Error>, set<string>) {
    var x := Resolve(e, a);
    if x.result.Err? then (Err(x.result.error), x.used)
    else
      var y := Resolve(e, b);
      (if y.result.Err? then Err(y.result.error) else Ok((x.result.value, y.result.value)), x.used + y.used)
  }

  function Authenticate(e: Env, o: Outside, auth: Option<Auth>): Authenticated {
    if auth.None? then Authenticated(Ok(NOTHING_ADDED), {})
    else
      match auth.value
      case NoAuth => Authenticated(Ok(NOTHING_ADDED), {})
      case Inherit => Authenticated(Ok(NOTHING_ADDED), {})
      case SessionAuth(_) => Authenticated(Ok(NOTHING_ADDED), {})
      case Bearer(token) =>
        var t := Resolve(e, token);
        Authenticated(if t.result.Err? then Err(t.result.error) else Ok(AuthorizationHeader(BEARER + t.result.value)), t.used)
      case Basic(username, password) =>
        var (both, used) := ResolveTwo(e, username, password);
        Authenticated(if both.Err? then Err(both.error)
                      else Ok(AuthorizationHeader("Basic " + o.b64(both.value.0 + ":" + both.value.1))), used)
      case ApiKey(key, value, inQuery) =>
        var (both, used) := ResolveTwo(e, key, value);
        Authenticated(if both.Err? then Err(both.error)
                      else Ok(if inQuery then Additions([], [both.value]) else Additions([both.value], [])), used)
      case OAuth2 =>
        Authenticated(if o.token.Err? then Err(o.token.error) else Ok(AuthorizationHeader(BEARER + o.token.value)), o.tokenSecrets)
  }

  method ResolvePair(resolver: Resolver, a: string, b: string) returns (r: Result<(string, string), Error>)
    modifies resolver`usedSecrets
    ensures r == ResolveTwo(resolver.Scope(), a, b).0
    ensures resolver.usedSecrets == old(resolver.usedSecrets) + ResolveTwo(resolver.Scope(), a, b).1
  {
    hide Resolve;
    var x := resolver.ResolveText(a);
    if x.Err? {
      return Err(x.error);
    }
    var y := resolver.ResolveText(b);
    if y.Err? {
      return Err(y.error);
    }
    r := Ok((x.value, y.value));
  }

  /** Push what authentication adds onto the headers and the query; an error leaves the
      request unsent. */
  method ApplyAuth(resolver: Resolver, o: Outside, auth: Option<Auth>, headers: seq<(string, string)>, query: seq<(string, string)>)
    returns (r: Result<Additions, Error>)
    modifies resolver`usedSecrets
    ensures var a := Authenticate(resolver.Scope(), o, auth);
            && r == (if a.added.Err? then Err(a.added.error)
                     else Ok(Additions(headers + a.added.value.headers, query + a.added.value.query)))
            && resolver.usedSecrets == old(resolver.usedSecrets) + a.used
  {
    hide Resolve, ResolveTwo;
    assert headers + [] == headers && query + [] == query;
    if auth.None? {
      return Ok(Additions(headers, query));
    }
    match auth.value {
      case NoAuth | Inherit | SessionAuth(_) =>
        r := Ok(Additions(headers, query));
      case Bearer(token) =>
        var t := resolver.ResolveText(token);
        if t.Err? {
          return Err(t.error);
        }
        r := Ok(Additions(headers + [("Authorization", BEARER + t.value)], query));
      case Basic(username, password) =>
        var both := ResolvePair(resolver, username, password);
        if both.Err? {
          return Err(both.error);
        }
        r := Ok(Additions(headers + [("Authorization", "Basic " + o.b64(both.value.0 + ":" + both.value.1))], query));
      case ApiKey(key, value, inQuery) =>
        var both := ResolvePair(resolver, key, value);
        if both.Err? {
          return Err(both.error);
        }
        if inQuery {
          r := Ok(Additions(headers, query + [both.value]));
        } else {
          r := Ok(Additions(headers + [both.value], query));
        }
      case OAuth2 =>
        resolver.usedSecrets := resolver.usedSecrets + o.tokenSecrets;
        if o.token.Err? {
          return Err(o.token.error);
        }
        r := Ok(Additions(headers + [("Authorization", BEARER + o.token.value)], query));
    }
  }
}
