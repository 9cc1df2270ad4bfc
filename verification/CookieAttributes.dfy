/** What a `Set-Cookie` value makes of its attributes (section 5.2 of RFC 6265), and
    which cookies a request gets (section 5.4). */
module CookieAttributes {
  import opened Text
  import opened Decimal
  import opened Sorting
  import opened Cookies
  import opened Jar

  // ---------- attributes ----------

  /** The value an attribute gives to a name. */
  function ValueOn(attr: string, name: string): seq<string> {
    if Attribute(attr).0 == name then [Attribute(attr).1] else []
  }

  /** The values the attributes give to a name, in order. */
  function ValuesOf(attrs: seq<string>, name: string): seq<string> {
    if attrs == [] then [] else ValueOn(attrs[0], name) + ValuesOf(attrs[1..], name)
  }

  /** A name and a value around the first `=`, or a name alone. */
  lemma AttributeReads(name: string, value: string)
    requires '=' !in name
    ensures Attribute(name + "=" + value) == (Lower(Trim(name)), Trim(value))
    ensures Attribute(name) == (Lower(Trim(name)), "")
  {
    hide Lower, Trim, SplitOnce;
    SplitOnceFirst(name, '=', value);
    assert name + "=" + value == name + ['='] + value;
  }

  function Last<T>(xs: seq<T>, before: T): T {
    if xs == [] then before else xs[|xs| - 1]
  }

  lemma LastCons<T>(x: seq<T>, xs: seq<T>, before: T)
    requires |x| <= 1
    ensures Last(x + xs, before) == Last(xs, Last(x, before))
  {
    if xs == [] { assert x + xs == x; }
  }

  function Absolute(values: seq<string>): seq<string> {
    Filter((v: string) => v != "" && v[0] == '/', values)
  }

  function Claims(values: seq<string>): seq<string> {
    Map((v: string) => Lower(TrimDots(v)), values)
  }

  function Ages(values: seq<string>): seq<Option<int>> {
    Map((v: string) => ParseI64(v), values)
  }

  function Dates(values: seq<string>, httpDate: string -> Option<nat>): seq<Option<nat>> {
    Map((v: string) => httpDate(v), values)
  }

  /** A reading after some attributes: the last of each kind decides. */
  function After(r: Reading, attrs: seq<string>, httpDate: string -> Option<nat>): Reading {
    var claims := Claims(ValuesOf(attrs, "domain"));
    Reading(Cookie(r.cookie.name, r.cookie.value,
                   Last(claims, r.cookie.domain),
                   Last(Absolute(ValuesOf(attrs, "path")), r.cookie.path),
                   claims == [] && r.cookie.hostOnly,
                   r.cookie.secure || ValuesOf(attrs, "secure") != [],
                   r.cookie.httpOnly || ValuesOf(attrs, "httponly") != [],
                   Last(Dates(ValuesOf(attrs, "expires"), httpDate), r.cookie.expiresMs)),
            Last(Ages(ValuesOf(attrs, "max-age")), r.maxAge))
  }

  ghost predicate AllClaimable(claims: seq<string>, requestHost: string) {
    forall d :: d in claims ==> MayClaim(requestHost, d)
  }

  lemma NothingAfter(r: Reading, httpDate: string -> Option<nat>)
    ensures After(r, [], httpDate) == r
  {
  }

  lemma ValuesStep(attrs: seq<string>, name: string)
    requires attrs != []
    ensures ValuesOf(attrs, name) == ValueOn(attrs[0], name) + ValuesOf(attrs[1..], name)
    ensures ValuesOf([attrs[0]], name) == ValueOn(attrs[0], name)
  {
    hide ValueOn;
    assert [attrs[0]][1..] == [];
  }

  lemma MapAppend<T, U>(f: T -> U, a: seq<T>, b: seq<T>)
    ensures Map(f, a + b) == Map(f, a) + Map(f, b)
  {
  }

  lemma ListsAppend(a: seq<string>, b: seq<string>, httpDate: string -> Option<nat>)
    ensures Claims(a + b) == Claims(a) + Claims(b)
    ensures Absolute(a + b) == Absolute(a) + Absolute(b)
    ensures Ages(a + b) == Ages(a) + Ages(b)
    ensures Dates(a + b, httpDate) == Dates(a, httpDate) + Dates(b, httpDate)
  {
    hide ParseI64, TrimDots, Lower, Filter;
    FilterAppend((v: string) => v != "" && v[0] == '/', a, b);
  }

  lemma ListsShort(a: seq<string>, httpDate: string -> Option<nat>)
    ensures |Claims(a)| == |Ages(a)| == |Dates(a, httpDate)| == |a| && |Absolute(a)| <= |a|
  {
    hide ParseI64, TrimDots, Lower;
  }

  /** `After` absorbs attributes one at a time. */
  lemma AfterStep(r: Reading, attrs: seq<string>, httpDate: string -> Option<nat>)
    requires attrs != []
    ensures After(r, attrs, httpDate) == After(After(r, [attrs[0]], httpDate), attrs[1..], httpDate)
  {
    hide ValueOn, ValuesOf, Last, Claims, Absolute, Ages, Dates;
    var one, rest := [attrs[0]], attrs[1..];
    KeyStep(attrs, "domain", httpDate);
    KeyStep(attrs, "path", httpDate);
    KeyStep(attrs, "secure", httpDate);
    KeyStep(attrs, "httponly", httpDate);
    KeyStep(attrs, "expires", httpDate);
    KeyStep(attrs, "max-age", httpDate);
    LastCons(Claims(ValuesOf(one, "domain")), Claims(ValuesOf(rest, "domain")), r.cookie.domain);
    LastCons(Absolute(ValuesOf(one, "path")), Absolute(ValuesOf(rest, "path")), r.cookie.path);
    LastCons(Dates(ValuesOf(one, "expires"), httpDate), Dates(ValuesOf(rest, "expires"), httpDate), r.cookie.expiresMs);
    LastCons(Ages(ValuesOf(one, "max-age")), Ages(ValuesOf(rest, "max-age")), r.maxAge);
  }

  lemma KeyStep(attrs: seq<string>, name: string, httpDate: string -> Option<nat>)
    requires attrs != []
    ensures var all, one, rest := ValuesOf(attrs, name), ValuesOf([attrs[0]], name), ValuesOf(attrs[1..], name);
            && (all == [] <==> one == [] && rest == [])
            && (Claims(all) == [] <==> Claims(one) == [] && Claims(rest) == [])
            && Claims(all) == Claims(one) + Claims(rest) && |Claims(one)| <= 1
            && Absolute(all) == Absolute(one) + Absolute(rest) && |Absolute(one)| <= 1
            && Ages(all) == Ages(one) + Ages(rest) && |Ages(one)| <= 1
            && Dates(all, httpDate) == Dates(one, httpDate) + Dates(rest, httpDate) && |Dates(one, httpDate)| <= 1
  {
    hide ValuesOf, Claims, Absolute, Ages, Dates;
    ValuesStep(attrs, name);
    ListsAppend(ValuesOf([attrs[0]], name), ValuesOf(attrs[1..], name), httpDate);
    ListsShort(ValuesOf([attrs[0]], name), httpDate);
  }

  /** One attribute. */
  lemma ReadOne(r: Reading, attr: string, requestHost: string, httpDate: string -> Option<nat>)
    ensures ReadAttribute(r, attr, requestHost, httpDate)
            == if Attribute(attr).0 == "domain" && !MayClaim(requestHost, Lower(TrimDots(Attribute(attr).1))) then None
               else Some(After(r, [attr], httpDate))
  {
    hide Attribute, MayClaim, ParseI64, TrimDots, Lower, ValuesOf, Claims, Absolute, Ages, Dates;
    var (key, val) := Attribute(attr);
    OneValue(attr, "domain", val, httpDate);
    OneValue(attr, "path", val, httpDate);
    OneValue(attr, "secure", val, httpDate);
    OneValue(attr, "httponly", val, httpDate);
    OneValue(attr, "expires", val, httpDate);
    OneValue(attr, "max-age", val, httpDate);
  }

  lemma OneValue(attr: string, name: string, val: string, httpDate: string -> Option<nat>)
    requires val == Attribute(attr).1
    ensures var vs, hit := ValuesOf([attr], name), Attribute(attr).0 == name;
            && vs == (if hit then [val] else [])
            && Claims(vs) == (if hit then [Lower(TrimDots(val))] else [])
            && Ages(vs) == (if hit then [ParseI64(val)] else [])
            && Dates(vs, httpDate) == (if hit then [httpDate(val)] else [])
            && Absolute(vs) == (if hit && "/" <= val then [val] else [])
  {
    hide Attribute, ParseI64, TrimDots, Lower;
    assert [attr][1..] == [];
    assert [val][1..] == [];
    assert "/" <= val <==> val != "" && val[0] == '/';
  }

  lemma ReadFirst(r: Reading, attrs: seq<string>, requestHost: string, httpDate: string -> Option<nat>)
    requires attrs != []
    ensures var first := ReadAttribute(r, attrs[0], requestHost, httpDate);
            ReadAttributes(r, attrs, requestHost, httpDate)
            == if first.None? then None else ReadAttributes(first.value, attrs[1..], requestHost, httpDate)
  {
    hide ReadAttribute;
  }

  lemma ClaimableParts(a: seq<string>, b: seq<string>, requestHost: string)
    ensures AllClaimable(a + b, requestHost) <==> AllClaimable(a, requestHost) && AllClaimable(b, requestHost)
  {
    hide MayClaim;
  }

  lemma OneClaim(claim: string, requestHost: string)
    ensures AllClaimable([claim], requestHost) <==> MayClaim(requestHost, claim)
    ensures AllClaimable([], requestHost)
  {
    hide MayClaim;
  }

  lemma NothingRead(r: Reading, requestHost: string, httpDate: string -> Option<nat>)
    ensures ReadAttributes(r, [], requestHost, httpDate) == Some(r) && Claims(ValuesOf([], "domain")) == []
  {
  }

  /** A list of attributes is refused exactly for a domain the origin may not claim. */
  lemma {:induction false} ReadAll(r: Reading, attrs: seq<string>, requestHost: string, httpDate: string -> Option<nat>)
    ensures ReadAttributes(r, attrs, requestHost, httpDate)
            == if AllClaimable(Claims(ValuesOf(attrs, "domain")), requestHost) then Some(After(r, attrs, httpDate)) else None
    decreases |attrs|
  {
    hide ReadAttribute, ReadAttributes, After, MayClaim, AllClaimable, Claims, ValuesOf, Attribute, Absolute, Ages, Dates;
    if attrs == [] {
      NothingAfter(r, httpDate);
      NothingRead(r, requestHost, httpDate);
      OneClaim("", requestHost);
    } else {
      var (key, val) := Attribute(attrs[0]);
      ReadFirst(r, attrs, requestHost, httpDate);
      ReadOne(r, attrs[0], requestHost, httpDate);
      OneValue(attrs[0], "domain", val, httpDate);
      KeyStep(attrs, "domain", httpDate);
      OneClaim(Lower(TrimDots(val)), requestHost);
      ClaimableParts(Claims(ValuesOf([attrs[0]], "domain")), Claims(ValuesOf(attrs[1..], "domain")), requestHost);
      AfterStep(r, attrs, httpDate);
      ReadAll(After(r, [attrs[0]], httpDate), attrs[1..], requestHost, httpDate);
    }
  }

  // ---------- a whole Set-Cookie value ----------

  /** The epoch millisecond that many seconds from now, none before zero. */
  lemma LaterIs(nowMs: nat, seconds: int)
    ensures Later(nowMs, seconds) == if nowMs + 1000 * seconds < 0 then 0 else nowMs + 1000 * seconds
  {
  }

  /** When a cookie expires: the last `Max-Age` decides if it is a number, and otherwise
      the last `Expires`. */
  ghost predicate ExpiresAs(c: Cookie, attrs: seq<string>, nowMs: nat, httpDate: string -> Option<nat>) {
    var ages, dates := ValuesOf(attrs, "max-age"), ValuesOf(attrs, "expires");
    if ages != [] && ParseI64(ages[|ages| - 1]).Some? then
      var end := nowMs + 1000 * ParseI64(ages[|ages| - 1]).value;
      c.expiresMs == Some(if end < 0 then 0 else end)
    else c.expiresMs == if dates == [] then None else httpDate(dates[|dates| - 1])
  }

  /** The path: the last `Path` that starts with `/`, or the directory of the request. */
  ghost predicate PathAs(c: Cookie, attrs: seq<string>, requestPath: string) {
    var paths := Absolute(ValuesOf(attrs, "path"));
    c.path == if paths == [] then DefaultPath(requestPath) else paths[|paths| - 1]
  }

  /** The hosts: the last `Domain` less its leading dots, or the request's host alone. */
  ghost predicate DomainAs(c: Cookie, attrs: seq<string>, requestHost: string) {
    var domains := ValuesOf(attrs, "domain");
    && (c.hostOnly <==> domains == [])
    && c.domain == if domains == [] then requestHost else Lower(TrimDots(domains[|domains| - 1]))
  }

  /** Every `Domain` has a dot in it, and its labels are the last ones of the request's
      host. */
  ghost predicate DomainsAllowed(attrs: seq<string>, requestHost: string) {
    forall d :: d in ValuesOf(attrs, "domain") ==>
      var claimed := Lower(TrimDots(d));
      '.' in claimed && EndsWith(Split(requestHost, '.'), Split(claimed, '.'))
  }

  lemma MayClaimIff(requestHost: string, claimed: string)
    ensures MayClaim(requestHost, claimed) <==> '.' in claimed && EndsWith(Split(requestHost, '.'), Split(claimed, '.'))
  {
    hide DomainMatches, Split;
    DomainIsLabelSuffix(requestHost, claimed);
  }

  lemma AllowedIff(values: seq<string>, requestHost: string)
    ensures AllClaimable(Claims(values), requestHost) <==> forall d :: d in values ==> MayClaim(requestHost, Lower(TrimDots(d)))
  {
    hide MayClaim, Lower, TrimDots;
    var claims := Claims(values);
    if AllClaimable(claims, requestHost) {
      forall d | d in values ensures MayClaim(requestHost, Lower(TrimDots(d))) {
        var i :| 0 <= i < |values| && values[i] == d;
        assert claims[i] in claims;
      }
    }
    if forall d :: d in values ==> MayClaim(requestHost, Lower(TrimDots(d))) {
      forall d | d in claims ensures MayClaim(requestHost, d) {
        var i :| 0 <= i < |claims| && claims[i] == d;
        assert values[i] in values;
      }
    }
  }

  /** What is read of a `Set-Cookie` value, and when nothing is. */
  lemma ParsedIs(name: string, value: string, attrs: seq<string>, host: string, requestPath: string, nowMs: nat,
                 httpDate: string -> Option<nat>)
    requires '=' !in name && ';' !in name && ';' !in value && forall a :: a in attrs ==> ';' !in a
    ensures var r := ParseCookie(Join([name + "=" + value] + attrs, ";"), host, requestPath, nowMs, httpDate);
            && (r.Some? <==> Trim(name) != "" && DomainsAllowed(attrs, Lower(Trim(host))))
            && (r.Some? ==>
                  && r.value.name == Trim(name) && r.value.value == Trim(value)
                  && DomainAs(r.value, attrs, Lower(Trim(host))) && PathAs(r.value, attrs, requestPath)
                  && (r.value.secure <==> ValuesOf(attrs, "secure") != [])
                  && (r.value.httpOnly <==> ValuesOf(attrs, "httponly") != [])
                  && ExpiresAs(r.value, attrs, nowMs, httpDate))
  {
    hide Split, Join, SplitOnce, Trim, Lower, DefaultPath, ValuesOf, ReadAttributes, MayClaim, Claims, Absolute, Ages, Dates,
         ParseI64, Later, AllClaimable, TrimDots;
    var parts, requestHost := [name + "=" + value] + attrs, Lower(Trim(host));
    SplitOfJoin(parts, ';');
    assert name + "=" + value == name + ['='] + value;
    SplitOnceFirst(name, '=', value);
    assert parts[1..] == attrs;
    ReadAll(Reading(NewCookie(name, value, requestHost, requestPath), None), attrs, requestHost, httpDate);
    AllowedIff(ValuesOf(attrs, "domain"), requestHost);
    forall claimed ensures MayClaim(requestHost, claimed) <==> '.' in claimed && EndsWith(Split(requestHost, '.'), Split(claimed, '.')) {
      MayClaimIff(requestHost, claimed);
    }
    LastOfLists(attrs, httpDate);
    forall seconds ensures Later(nowMs, seconds) == if nowMs + 1000 * seconds < 0 then 0 else nowMs + 1000 * seconds {
      LaterIs(nowMs, seconds);
    }
  }

  lemma LastOfLists(attrs: seq<string>, httpDate: string -> Option<nat>)
    ensures var domains, ages, dates := ValuesOf(attrs, "domain"), ValuesOf(attrs, "max-age"), ValuesOf(attrs, "expires");
            && |Claims(domains)| == |domains| && |Ages(ages)| == |ages| && |Dates(dates, httpDate)| == |dates|
            && (domains != [] ==> Claims(domains)[|domains| - 1] == Lower(TrimDots(domains[|domains| - 1])))
            && (ages != [] ==> Ages(ages)[|ages| - 1] == ParseI64(ages[|ages| - 1]))
            && (dates != [] ==> Dates(dates, httpDate)[|dates| - 1] == httpDate(dates[|dates| - 1]))
  {
    hide ValuesOf, Lower, TrimDots, ParseI64;
  }

  /** Without `=` in front of the first `;` nothing is read. */
  lemma NothingParsed(name: string, attrs: seq<string>, host: string, requestPath: string, nowMs: nat,
                      httpDate: string -> Option<nat>)
    requires '=' !in name && ';' !in name && forall a :: a in attrs ==> ';' !in a
    ensures ParseCookie(Join([name] + attrs, ";"), host, requestPath, nowMs, httpDate) == None
  {
    hide Split, Join, SplitOnce;
    SplitOfJoin([name] + attrs, ';');
  }

  /** Leading dots of a `Domain` do not count. */
  lemma {:induction false} DotsDropped(dots: string, domain: string)
    requires (forall i :: 0 <= i < |dots| ==> dots[i] == '.') && (domain == "" || domain[0] != '.')
    ensures TrimDots(dots + domain) == domain
  {
    if dots == "" {
      assert dots + domain == domain;
    } else {
      assert (dots + domain)[1..] == dots[1..] + domain;
      DotsDropped(dots[1..], domain);
    }
  }

  /** The directory of a path: up to its last slash, or the root. */
  lemma DirectoryOf(dir: string, leaf: string)
    requires '/' !in leaf
    ensures dir != "" && dir[0] == '/' ==> DefaultPath(dir + "/" + leaf) == dir
    ensures DefaultPath("/" + leaf) == "/"
    ensures dir != "" && dir[0] != '/' ==> DefaultPath(dir) == "/"
    ensures DefaultPath("") == "/"
  {
    LastSlashAt(dir, leaf);
    LastSlashAt("", leaf);
    assert "" + "/" + leaf == "/" + leaf;
    assert (dir + "/" + leaf)[..|dir|] == dir;
    if dir != "" { assert (dir + "/" + leaf)[0] == dir[0]; }
  }

  lemma LastSlashAt(dir: string, leaf: string)
    requires '/' !in leaf
    ensures '/' in dir + "/" + leaf && LastSlash(dir + "/" + leaf) == |dir|
  {
    hide LastSlash;
    var s := dir + "/" + leaf;
    assert s[|dir|] == '/';
    BehindIn(s, LastSlash(s));
    assert forall j :: |dir| < j < |s| ==> s[j] == leaf[j - |dir| - 1];
  }

  lemma BehindIn(s: string, i: nat)
    requires i < |s|
    ensures forall j :: i < j < |s| ==> s[j] in s[i + 1..]
  {
    forall j | i < j < |s| ensures s[j] in s[i + 1..] {
      assert s[i + 1..][j - i - 1] == s[j];
    }
  }

  // ---------- which cookies are stored and sent ----------

  ghost predicate Unexpired(c: Cookie, nowMs: nat) {
    c.expiresMs == None || nowMs < c.expiresMs.value
  }

  /** Of one name, domain and path the jar keeps the cookie stored last, while it lasts;
      every other cookie stays. */
  lemma StoredIff(jar: seq<Cookie>, c: Cookie, nowMs: nat, d: Cookie)
    ensures d in InsertCookie(jar, c, nowMs)
            <==> if d.name == c.name && d.domain == c.domain && d.path == c.path then d == c && Unexpired(c, nowMs) else d in jar
  {
    InsertMembers(jar, c, nowMs);
  }

  /** The hosts a cookie is for: its own, or those whose last labels are its domain's. */
  ghost predicate ForHost(c: Cookie, host: string) {
    if c.hostOnly then Lower(host) == c.domain else EndsWith(Split(Lower(host), '.'), Split(c.domain, '.'))
  }

  /** The paths a cookie is for: its own, or those with its segments in front. */
  ghost predicate ForPath(c: Cookie, path: string) {
    || path == c.path
    || (PathSegments(c.path) <= Split(path, '/') && |PathSegments(c.path)| < |Split(path, '/')|)
  }

  /** A request gets exactly the cookies of the jar that last, that are for its host and
      path, and that are not for `https` alone if it is not one. */
  lemma SentIff(jar: seq<Cookie>, host: string, path: string, isSecure: bool, nowMs: nat, c: Cookie)
    ensures c in Matching(jar, host, path, isSecure, nowMs)
            <==> c in jar && Unexpired(c, nowMs) && (c.secure ==> isSecure) && ForHost(c, host) && ForPath(c, path)
  {
    hide Split, Sort, DomainMatches, PathMatches, PathSegments, Lower;
    SortMembers(LongerPath(), Filter(Sendable(host, path, isSecure, nowMs), jar));
    DomainIsLabelSuffix(Lower(host), c.domain);
    PathIsSegmentPrefix(path, c.path);
  }
}
