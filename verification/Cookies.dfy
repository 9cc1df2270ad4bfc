/** One cookie: reading a `Set-Cookie` value and deciding which requests it goes to
    (sections 5.1.3, 5.1.4 and 5.2.2 of RFC 6265). */
module Cookies {
  import opened Text
  import opened Decimal

  datatype Cookie = Cookie(name: string, value: string, domain: string, path: string,
                           hostOnly: bool, secure: bool, httpOnly: bool, expiresMs: Option<nat>)
  {
    predicate IsExpired(nowMs: nat) {
      expiresMs.Some? && expiresMs.value <= nowMs
    }

    predicate Matches(host: string, requestPath: string, isSecure: bool) {
      && (secure ==> isSecure)
      && (if hostOnly then Lower(host) == domain else DomainMatches(Lower(host), domain))
      && PathMatches(requestPath, path)
    }

    function Id(): Identity {
      Identity(name, domain, path)
    }
  }

  /** What makes a later cookie replace an earlier one. */
  datatype Identity = Identity(name: string, domain: string, path: string)

  // ---------- matching ----------

  predicate DomainMatches(host: string, domain: string) {
    host == domain
    || (|host| > |domain| && EndsWith(host, domain) && host[|host| - |domain| - 1] == '.')
  }

  predicate PathMatches(requestPath: string, cookiePath: string) {
    requestPath == cookiePath
    || (cookiePath <= requestPath
        && (EndsWith(cookiePath, "/") || (|cookiePath| < |requestPath| && requestPath[|cookiePath|] == '/')))
  }

  /** The directory of a request path. */
  function DefaultPath(requestPath: string): string {
    if !("/" <= requestPath) then "/"
    else
      assert requestPath[0] == '/';
      var i := LastSlash(requestPath);
      if i == 0 then "/" else requestPath[..i]
  }

  function LastSlash(s: string): (i: nat)
    requires '/' in s
    ensures i < |s| && s[i] == '/' && '/' !in s[i + 1..]
  {
    if s[|s| - 1] == '/' then |s| - 1
    else
      var i := LastSlash(s[..|s| - 1]);
      assert s[i + 1..] == s[..|s| - 1][i + 1..] + [s[|s| - 1]];
      i
  }

  // ---------- reading a Set-Cookie value ----------

  /** The attribute name in lower case and its trimmed value. */
  function Attribute(attr: string): (string, string) {
    match SplitOnce(attr, '=')
    case Some((k, v)) => (Lower(Trim(k)), Trim(v))
    case None => (Lower(Trim(attr)), "")
  }

  function TrimDots(s: string): string {
    if s != "" && s[0] == '.' then TrimDots(s[1..]) else s
  }

  /** A cookie being read, and the last `Max-Age` in seconds. */
  datatype Reading = Reading(cookie: Cookie, maxAge: Option<int>)

  predicate MayClaim(requestHost: string, claimed: string) {
    claimed != "" && '.' in claimed && DomainMatches(requestHost, claimed)
  }

  /** `None` when the attribute claims a domain the origin may not set. */
  function ReadAttribute(r: Reading, attr: string, requestHost: string, httpDate: string -> Option<nat>): Option<Reading> {
    var (key, val) := Attribute(attr);
    if key == "domain" then
      var claimed := Lower(TrimDots(val));
      if MayClaim(requestHost, claimed) then Some(r.(cookie := r.cookie.(domain := claimed, hostOnly := false)))
      else None
    else if key == "path" && "/" <= val then Some(r.(cookie := r.cookie.(path := val)))
    else if key == "secure" then Some(r.(cookie := r.cookie.(secure := true)))
    else if key == "httponly" then Some(r.(cookie := r.cookie.(httpOnly := true)))
    else if key == "max-age" then Some(r.(maxAge := ParseI64(val)))
    else if key == "expires" then Some(r.(cookie := r.cookie.(expiresMs := httpDate(val))))
    else Some(r)
  }

  function ReadAttributes(r: Reading, attrs: seq<string>, requestHost: string, httpDate: string -> Option<nat>): Option<Reading>
    decreases |attrs|
  {
    if attrs == [] then Some(r)
    else match ReadAttribute(r, attrs[0], requestHost, httpDate)
      case None => None
      case Some(r') => ReadAttributes(r', attrs[1..], requestHost, httpDate)
  }

  function Later(nowMs: nat, seconds: int): nat {
    var t := nowMs + seconds * 1000;
    if t >= 0 then t else 0
  }

  /** `Max-Age` wins over `Expires`. */
  function Settled(r: Reading, nowMs: nat): Cookie {
    match r.maxAge
    case None => r.cookie
    case Some(seconds) => r.cookie.(expiresMs := Some(Later(nowMs, seconds)))
  }

  function NewCookie(name: string, value: string, requestHost: string, requestPath: string): Cookie {
    Cookie(Trim(name), Trim(value), requestHost, DefaultPath(requestPath), true, false, false, None)
  }

  /** `httpDate` reads an `Expires` date: nothing below depends on how. */
  function ParseCookie(header: string, host: string, requestPath: string, nowMs: nat, httpDate: string -> Option<nat>): Option<Cookie> {
    var parts := Split(header, ';');
    match SplitOnce(parts[0], '=')
    case None => None
    case Some((name, value)) =>
      if Trim(name) == "" then None
      else
        var requestHost := Lower(Trim(host));
        match ReadAttributes(Reading(NewCookie(name, value, requestHost, requestPath), None), parts[1..], requestHost, httpDate)
        case None => None
        case Some(r) => Some(Settled(r, nowMs))
  }

  method Parse(header: string, host: string, requestPath: string, nowMs: nat, httpDate: string -> Option<nat>)
    returns (result: Option<Cookie>)
    ensures result == ParseCookie(header, host, requestPath, nowMs, httpDate)
  {
    hide ReadAttribute, Split, Trim;
    var parts := Split(header, ';');
    var pair := SplitOnce(parts[0], '=');
    if pair.None? {
      return None;
    }
    var (name, value) := pair.value;
    if Trim(name) == "" {
      return None;
    }
    var requestHost := Lower(Trim(host));
    var r := Reading(NewCookie(name, value, requestHost, requestPath), None);
    ghost var start := r;
    var attrs := parts[1..];
    var i := 0;
    assert attrs[0..] == attrs;
    while i < |attrs|
      invariant 0 <= i <= |attrs|
      invariant ReadAttributes(start, attrs, requestHost, httpDate) == ReadAttributes(r, attrs[i..], requestHost, httpDate)
    {
      assert attrs[i..][0] == attrs[i] && attrs[i..][1..] == attrs[i + 1..];
      match ReadAttribute(r, attrs[i], requestHost, httpDate) {
        case None => return None;
        case Some(r') => r := r';
      }
      i := i + 1;
    }
    result := Some(Settled(r, nowMs));
  }

  // ---------- domains are label suffixes, paths are segment prefixes ----------

  lemma SuffixSplit(host: string, domain: string)
    requires |host| > |domain| && EndsWith(host, domain) && host[|host| - |domain| - 1] == '.'
    ensures host == host[..|host| - |domain| - 1] + ['.'] + domain
  {
  }

  lemma {:induction false} JoinSuffix(labels: seq<string>, k: nat)
    requires 0 < k < |labels|
    ensures Join(labels, ['.']) == Join(labels[..k], ['.']) + ['.'] + Join(labels[k..], ['.'])
  {
    assert labels == labels[..k] + labels[k..];
    JoinAppend(labels[..k], labels[k..], ['.']);
  }

  /** A host matches a domain exactly when the domain's labels are the host's last
      labels. */
  lemma DomainIsLabelSuffix(host: string, domain: string)
    ensures DomainMatches(host, domain) <==> EndsWith(Split(host, '.'), Split(domain, '.'))
  {
    hide Split;
    var hs, ds := Split(host, '.'), Split(domain, '.');
    JoinOfSplit(host, '.');
    JoinOfSplit(domain, '.');
    if DomainMatches(host, domain) && host != domain {
      var front := host[..|host| - |domain| - 1];
      SuffixSplit(host, domain);
      SplitAppend(front, '.', domain);
      assert hs[|hs| - |ds|..] == ds;
    } else if host == domain {
      assert hs[0..] == hs;
    }
    if EndsWith(hs, ds) {
      var k := |hs| - |ds|;
      if k == 0 {
        assert hs == hs[0..];
      } else {
        JoinSuffix(hs, k);
        var front := Join(hs[..k], ['.']);
        assert host == front + ['.'] + domain;
        assert host[|host| - |domain|..] == domain && host[|host| - |domain| - 1] == '.';
      }
    }
  }

  /** The segments of a cookie path; a closing `/` opens no further segment. */
  function PathSegments(path: string): seq<string> {
    if EndsWith(path, "/") then Split(path[..|path| - 1], '/') else Split(path, '/')
  }

  lemma {:induction false} JoinPrefix(parts: seq<string>, k: nat)
    requires 0 < k < |parts|
    ensures Join(parts, ['/']) == Join(parts[..k], ['/']) + ['/'] + Join(parts[k..], ['/'])
  {
    assert parts == parts[..k] + parts[k..];
    JoinAppend(parts[..k], parts[k..], ['/']);
  }

  /** `base + "/" + more` is what has the segments of `base` in front of others. */
  lemma SegmentPrefix(path: string, base: string)
    ensures (base + ['/'] <= path) <==> (Split(base, '/') <= Split(path, '/') && |Split(base, '/')| < |Split(path, '/')|)
  {
    hide Split;
    var ps, bs := Split(path, '/'), Split(base, '/');
    JoinOfSplit(path, '/');
    JoinOfSplit(base, '/');
    if base + ['/'] <= path {
      var more := path[|base| + 1..];
      assert path == base + ['/'] + more;
      SplitAppend(base, '/', more);
    }
    if bs <= ps && |bs| < |ps| {
      JoinPrefix(ps, |bs|);
      assert ps[..|bs|] == bs;
      assert path == base + ['/'] + Join(ps[|bs|..], ['/']);
    }
  }

  /** A request path matches a cookie path exactly when it is that path, or the
      cookie path's segments come before further segments of it. */
  lemma PathIsSegmentPrefix(requestPath: string, cookiePath: string)
    ensures PathMatches(requestPath, cookiePath)
            <==> || requestPath == cookiePath
                 || (PathSegments(cookiePath) <= Split(requestPath, '/')
                     && |PathSegments(cookiePath)| < |Split(requestPath, '/')|)
  {
    hide Split;
    if EndsWith(cookiePath, "/") {
      var base := cookiePath[..|cookiePath| - 1];
      assert cookiePath == base + ['/'];
      SegmentPrefix(requestPath, base);
    } else {
      SegmentPrefix(requestPath, cookiePath);
      SlashFollows(requestPath, cookiePath);
    }
  }

  lemma SlashFollows(path: string, base: string)
    ensures base + ['/'] <= path <==> base <= path && |base| < |path| && path[|base|] == '/'
  {
    if base <= path && |base| < |path| && path[|base|] == '/' {
      assert path[..|base| + 1] == base + ['/'];
    }
    if base + ['/'] <= path {
      assert (base + ['/'])[|base|] == path[|base|];
      assert base <= base + ['/'] <= path;
    }
  }

  /** A cookie without a `Path` is eligible for the path that set it, exactly when that
      path is absolute. */
  lemma DefaultPathMatches(requestPath: string)
    ensures PathMatches(requestPath, DefaultPath(requestPath)) <==> "/" <= requestPath
  {
    if "/" <= requestPath {
      assert requestPath[0] == '/';
      var i := LastSlash(requestPath);
      if i > 0 {
        assert requestPath[..i] <= requestPath && requestPath[i] == '/';
      }
    }
  }

  // ---------- a Set-Cookie value without attributes ----------

  /** A name and a value alone are read as a cookie of the host that set them. */
  lemma PlainCookie(name: string, value: string, host: string, requestPath: string, nowMs: nat, httpDate: string -> Option<nat>)
    requires CleanText(name, value) && Trimmed(value)
    ensures ParseCookie(name + "=" + value, host, requestPath, nowMs, httpDate)
            == Some(Cookie(name, value, Lower(Trim(host)), DefaultPath(requestPath), true, false, false, None))
  {
    hide Split, SplitOnce, Trim, DefaultPath, Lower, ReadAttribute;
    var header := name + ['='] + value;
    assert name + "=" + value == header;
    SplitNone(header, ';');
    SplitOnceFirst(name, '=', value);
    TrimFixed(name);
    TrimFixed(value);
    assert [header][1..] == [];
  }

  // ---------- what a parsed cookie is ----------

  /** A cookie as the reader leaves it: host-only for the request's host, or for a
      dotted domain the host belongs to. */
  predicate Scoped(c: Cookie, requestHost: string) {
    if c.hostOnly then c.domain == requestHost else MayClaim(requestHost, c.domain)
  }

  predicate CleanText(name: string, value: string) {
    && name != "" && Trimmed(name) && '=' !in name && ';' !in name
    && ';' !in value
  }

  lemma ReadOneKeepsScope(r: Reading, attr: string, requestHost: string, httpDate: string -> Option<nat>)
    requires Scoped(r.cookie, requestHost) && ReadAttribute(r, attr, requestHost, httpDate).Some?
    ensures var c := ReadAttribute(r, attr, requestHost, httpDate).value.cookie;
            Scoped(c, requestHost) && c.name == r.cookie.name && c.value == r.cookie.value
  {
    hide DomainMatches, Attribute, ParseI64, TrimDots, MayClaim, Lower;
  }

  lemma {:induction false} ReadKeepsScope(r: Reading, attrs: seq<string>, requestHost: string, httpDate: string -> Option<nat>)
    requires Scoped(r.cookie, requestHost) && ReadAttributes(r, attrs, requestHost, httpDate).Some?
    ensures var c := ReadAttributes(r, attrs, requestHost, httpDate).value.cookie;
            Scoped(c, requestHost) && c.name == r.cookie.name && c.value == r.cookie.value
    decreases |attrs|
  {
    if attrs != [] {
      hide ReadAttribute, Scoped;
      ReadOneKeepsScope(r, attrs[0], requestHost, httpDate);
      ReadKeepsScope(ReadAttribute(r, attrs[0], requestHost, httpDate).value, attrs[1..], requestHost, httpDate);
    }
  }

  /** No `Set-Cookie` value can claim a foreign domain or a bare top-level one, and
      what it stores splits back out of a `Cookie` header. */
  lemma ParsedIsScoped(header: string, host: string, requestPath: string, nowMs: nat, httpDate: string -> Option<nat>)
    requires ParseCookie(header, host, requestPath, nowMs, httpDate).Some?
    ensures var c := ParseCookie(header, host, requestPath, nowMs, httpDate).value;
            Scoped(c, Lower(Trim(host))) && CleanText(c.name, c.value)
  {
    hide Trim, Split, ReadAttributes, DomainMatches;
    var parts := Split(header, ';');
    var (name, value) := SplitOnce(parts[0], '=').value;
    var requestHost := Lower(Trim(host));
    assert parts[0] in parts;
    var start := Reading(NewCookie(name, value, requestHost, requestPath), None);
    ReadKeepsScope(start, parts[1..], requestHost, httpDate);
    assert forall c :: c in name ==> c in parts[0];
    assert forall c :: c in value ==> c in parts[0];
  }
}
