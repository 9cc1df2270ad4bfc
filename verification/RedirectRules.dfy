/** The rules every run keeps, read off its trace: which hops are taken, what each
    request carries and where credentials go (section 15.4 of RFC 9110). */
module RedirectRules {
  import opened Text
  import opened Cookies
  import opened Jar
  import opened CookieAttributes
  import opened Sessions
  import opened Redirects
  import opened RedirectRuns

  // ---------- origins ----------

  /** The ports of the schemes that have one of their own. */
  function PortOf(u: Url): Option<nat> {
    var ports := map["http" := 80, "https" := 443, "ws" := 80, "wss" := 443, "ftp" := 21];
    if u.port != None then u.port else if u.scheme in ports then Some(ports[u.scheme]) else None
  }

  /** Scheme, host and port are those of the first request, at every request up to `i`. */
  ghost predicate AtHome(states: seq<Chain>, i: nat)
    requires i < |states|
  {
    forall k :: 0 <= k <= i ==>
      && states[k].url.scheme == states[0].url.scheme
      && states[k].url.host == states[0].url.host
      && PortOf(states[k].url) == PortOf(states[0].url)
  }

  lemma SameOriginIff(a: Url, b: Url)
    ensures SameOrigin(a, b) <==> a.scheme == b.scheme && a.host == b.host && PortOf(a) == PortOf(b)
  {
  }

  lemma {:induction false} OneOriginIff(states: seq<Chain>, i: nat)
    requires i < |states|
    ensures OneOrigin(states, i) <==> AtHome(states, i)
  {
    hide PortOf, SameOrigin;
    if i > 0 {
      OneOriginIff(states, i - 1);
      OneOriginStep(states, i - 1);
      SameOriginIff(states[i].url, states[i - 1].url);
      assert AtHome(states, i) ==> AtHome(states, i - 1);
    }
  }

  // ---------- what a request carries ----------

  /** A redirect with one of these statuses was followed on the way to request `i`, and
      the method was not GET. */
  ghost predicate MadeGet(s: Chain, script: seq<Exchange>, i: nat)
    requires i <= |script|
  {
    s.verb != "GET" && exists k :: 0 <= k < i && script[k].reply.Reply? && script[k].reply.status in {301, 302, 303}
  }

  lemma MadeGetIff(s: Chain, script: seq<Exchange>, i: nat)
    requires i <= |script|
    ensures MethodChanged(s, script, i) <==> MadeGet(s, script, i)
  {
    assert forall k :: 0 <= k < i && script[k].reply.Reply? ==>
             (TurnsToGet(script[k].reply.status) <==> script[k].reply.status in {301, 302, 303});
  }

  /** The headers that go on: credentials only at home, and no content type once the
      method was changed. */
  function GoesOn(home: bool, changed: bool): Header -> bool {
    (h: Header) =>
      && (Lower(h.0) in {"authorization", "cookie", "proxy-authorization", "www-authenticate"} ==> home)
      && (Lower(h.0) == "content-type" ==> !changed)
  }

  lemma CarryIs(home: bool, changed: bool, headers: seq<Header>)
    ensures Filter(Carry(home, changed), headers) == Filter(GoesOn(home, changed), headers)
  {
    hide Lower;
    FilterSame(Carry(home, changed), GoesOn(home, changed), headers);
  }

  /** Every request of every run, from the first one's state: GET without a body once a
      301, 302 or 303 was followed with another method; the headers in their order, but
      for the credentials when some request so far, this one included, left the first
      one's scheme, host or port, and the content type of a body that is gone; and the
      cookies of this hop. */
  lemma RequestIs(cfg: Config, s: Chain, script: seq<Exchange>, i: nat)
    requires i < |States(cfg, s, script)| <= |script|
    ensures |Requests(cfg, States(cfg, s, script), script)| == |States(cfg, s, script)|
    ensures var states := States(cfg, s, script);
            var sent, changed := Requests(cfg, states, script)[i], MadeGet(s, script, i);
            var cookie := HopCookie(cfg, states[i], script[i]);
            && sent.verb == (if changed then "GET" else s.verb)
            && sent.body == (if changed then None else s.body)
            && sent.url == states[i].url && states[0].url == s.url
            && sent.headers == Filter(GoesOn(AtHome(states, i), changed), s.headers)
                               + (if cookie == None then [] else [("Cookie", cookie.value)])
  {
    hide States, Requests, HopCookie, Filter, AtHome, MadeGet, OneOrigin, MethodChanged;
    var states := States(cfg, s, script);
    RequestAt(cfg, states, script, i);
    FirstState(cfg, s, script);
    RunCarries(cfg, s, script, i);
    OneOriginIff(states, i);
    MadeGetIff(s, script, i);
    CarryIs(AtHome(states, i), MadeGet(s, script, i), s.headers);
  }

  /** Safety, header by header: a credential of the first request is in request `i` if and
      only if no request up to it left the first one's origin. */
  lemma CredentialsStayHome(cfg: Config, s: Chain, script: seq<Exchange>, i: nat, h: Header)
    requires i < |States(cfg, s, script)| <= |script| && h in s.headers
    requires Lower(h.0) in {"authorization", "cookie", "proxy-authorization", "www-authenticate"}
    ensures h in States(cfg, s, script)[i].headers <==> AtHome(States(cfg, s, script), i)
    ensures !AtHome(States(cfg, s, script), i) ==>
              forall g :: g in States(cfg, s, script)[i].headers ==>
                Lower(g.0) !in {"authorization", "cookie", "proxy-authorization", "www-authenticate"}
  {
    hide States, AtHome, OneOrigin, MethodChanged;
    var states := States(cfg, s, script);
    RunCarries(cfg, s, script, i);
    OneOriginIff(states, i);
    MadeGetIff(s, script, i);
    CarryIs(AtHome(states, i), MadeGet(s, script, i), s.headers);
  }

  // ---------- which hops are taken ----------

  /** The first `Location` header of a reply. */
  ghost predicate FirstLocation(headers: seq<ReplyHeader>, k: int) {
    0 <= k < |headers| && Lower(headers[k].name) == "location" && forall j :: 0 <= j < k ==> Lower(headers[j].name) != "location"
  }

  lemma {:induction false} LocationIs(headers: seq<ReplyHeader>)
    ensures match Location(headers)
            { case Some(value) => exists k :: FirstLocation(headers, k) && headers[k].value == value
              case None => forall h :: h in headers ==> Lower(h.name) != "location" }
  {
    hide Lower;
    if headers != [] {
      LocationIs(headers[1..]);
      if Lower(headers[0].name) == "location" {
        assert FirstLocation(headers, 0);
      } else if Location(headers[1..]).Some? {
        var k :| FirstLocation(headers[1..], k) && headers[1..][k].value == Location(headers[1..]).value;
        assert forall j :: 0 < j <= k + 1 ==> headers[j] == headers[1..][j - 1];
        assert FirstLocation(headers, k + 1);
      }
    }
  }

  lemma LocationAt(headers: seq<ReplyHeader>, k: int)
    requires FirstLocation(headers, k)
    ensures Location(headers) == Some(headers[k].value)
  {
    hide Lower;
    LocationIs(headers);
    assert headers[k] in headers;
    assert forall j :: FirstLocation(headers, j) ==> j == k;
  }

  lemma LocationUnique(headers: seq<ReplyHeader>)
    ensures forall k :: FirstLocation(headers, k) ==> 0 <= k < |headers| && Location(headers) == Some(headers[k].value)
  {
    hide Location, Lower;
    forall k | FirstLocation(headers, k) ensures Location(headers) == Some(headers[k].value) { LocationAt(headers, k); }
  }

  /** A reply that sends the run on to `next`. */
  ghost predicate SendsOn(cfg: Config, st: Chain, x: Exchange, next: Url) {
    && x.reply.Reply? && x.reply.status in {301, 302, 303, 307, 308}
    && cfg.follow && |st.hops| < cfg.maxRedirects
    && exists k :: FirstLocation(x.reply.headers, k) && cfg.join(st.url, x.reply.headers[k].value) == Some(next)
  }

  lemma AdvanceIff(cfg: Config, st: Chain, x: Exchange, next: Url)
    ensures SendsOn(cfg, st, x, next) <==> Advance(cfg, st, x).Go? && Advance(cfg, st, x).next.url == next
    ensures Advance(cfg, st, x).Go? ==>
              Advance(cfg, st, x).next.hops == st.hops + [Hop(x.reply.status, st.url, Advance(cfg, st, x).next.url)]
  {
    hide Absorbed, Location, FirstLocation, SameOrigin, StripCredentials, DropContentType;
    if x.reply.Reply? {
      var headers := x.reply.headers;
      AbsorbedKeeps(cfg, st, headers);
      LocationIs(headers);
      LocationUnique(headers);
    }
  }

  lemma StatesEnd(cfg: Config, s: Chain, script: seq<Exchange>)
    requires script != []
    ensures |States(cfg, s, script)| >= 1
    ensures |script| > 1 ==> (|States(cfg, s, script)| > 1 <==> Advance(cfg, s, script[0]).Go?)
    ensures Advance(cfg, s, script[0]).Go? ==>
              States(cfg, s, script) == [s] + States(cfg, Advance(cfg, s, script[0]).next, script[1..])
    ensures Advance(cfg, s, script[0]).Stop? ==> |States(cfg, s, script)| == 1
  {
    hide Advance;
    if Advance(cfg, s, script[0]).Go? && |script| > 1 {
      FirstState(cfg, Advance(cfg, s, script[0]).next, script[1..]);
    }
  }

  lemma {:induction false} GoesOnIff(cfg: Config, s: Chain, script: seq<Exchange>, i: nat)
    requires i < |States(cfg, s, script)| && i + 1 < |script|
    ensures i + 1 < |States(cfg, s, script)| <==> Advance(cfg, States(cfg, s, script)[i], script[i]).Go?
    decreases i
  {
    hide Advance, States;
    StatesEnd(cfg, s, script);
    if i > 0 {
      GoesOnIff(cfg, Advance(cfg, s, script[0]).next, script[1..], i - 1);
    } else {
      FirstState(cfg, s, script);
    }
  }

  /** After request `i` there is another one if and only if the reply sends the run on:
      one of five statuses, redirects wanted and left, and a location that joins; and that
      is where it goes, with the hop recorded. */
  lemma NextRequestIff(cfg: Config, s: Chain, script: seq<Exchange>, i: nat)
    requires i < |States(cfg, s, script)| && i + 1 < |script|
    ensures var states := States(cfg, s, script);
            && (i + 1 < |states| <==> exists next :: SendsOn(cfg, states[i], script[i], next))
            && (i + 1 < |states| ==>
                  && SendsOn(cfg, states[i], script[i], states[i + 1].url)
                  && states[i + 1].hops == states[i].hops + [Hop(script[i].reply.status, states[i].url, states[i + 1].url)])
  {
    hide States, Advance, SendsOn;
    var states := States(cfg, s, script);
    GoesOnIff(cfg, s, script, i);
    var next := Advance(cfg, states[i], script[i]);
    if next.Go? { AdvanceIff(cfg, states[i], script[i], next.next.url); }
    if u :| SendsOn(cfg, states[i], script[i], u) { AdvanceIff(cfg, states[i], script[i], u); }
    if i + 1 < |states| { StateStep(cfg, s, script, i); }
  }

  // ---------- how a run ends ----------

  /** The ending that the last request's reply gives. */
  function EndingOf(cfg: Config, st: Chain, x: Exchange): Ending {
    match x.reply
    case NoReply => TransportError
    case Reply(status, headers, whole) =>
      var location := Location(headers);
      if status in {301, 302, 303, 307, 308} && cfg.follow && |st.hops| < cfg.maxRedirects && location.Some?
         && cfg.join(st.url, location.value) == None then BadLocation(location.value)
      else if whole then Finished(status)
      else TransportError
  }

  lemma {:induction false} RunEndsAs(cfg: Config, s: Chain, script: seq<Exchange>)
    requires EndOf(cfg, s, script).Some?
    ensures var states := States(cfg, s, script);
            && 0 < |states| <= |script|
            && EndOf(cfg, s, script).value.0 == EndingOf(cfg, states[|states| - 1], script[|states| - 1])
            && EndOf(cfg, s, script).value.1.hops == states[|states| - 1].hops
    decreases |script|
  {
    hide Advance, States, EndingOf;
    StatesFit(cfg, s, script);
    StatesEnd(cfg, s, script);
    FirstState(cfg, s, script);
    var next := Advance(cfg, s, script[0]);
    if next.Go? {
      RunEndsAs(cfg, next.next, script[1..]);
    } else {
      StopsAs(cfg, s, script[0]);
    }
  }

  lemma StopsAs(cfg: Config, st: Chain, x: Exchange)
    requires Advance(cfg, st, x).Stop?
    ensures Advance(cfg, st, x).ending == EndingOf(cfg, st, x) && Advance(cfg, st, x).last.hops == st.hops
  {
    hide Absorbed, Location, Followed;
    if x.reply.Reply? { AbsorbedKeeps(cfg, st, x.reply.headers); }
  }

  // ---------- cookies of a reply and of a request ----------

  /** The cookies of a reply are the values of its `Set-Cookie` headers, in order. */
  lemma ReplySets(a: seq<ReplyHeader>, h: ReplyHeader)
    ensures ChainCookies([]) == [] && SessionCookies([]) == []
    ensures ChainCookies(a + [h])
            == ChainCookies(a)
               + (if Lower(h.name) == "set-cookie" then [SetCookie(h.value, h.at.chainParsed, h.at.chainStored)] else [])
    ensures SessionCookies(a + [h])
            == SessionCookies(a) + (if Lower(h.name) == "set-cookie" then [SetCookie(h.value, h.at.parsed, h.at.stored)] else [])
  {
    hide Lower, Filter;
    var p := (h: ReplyHeader) => IsSetCookie(h);
    FilterAppend(p, a, [h]);
    FilterHead(p, [h]);
    NothingFiltered(p);
    assert [h][1..] == [];
    assert Filter(p, [h]) == if p(h) then [h] else [];
    MapAppend((h: ReplyHeader) => SetCookie(h.value, h.at.chainParsed, h.at.chainStored), Filter(p, a), Filter(p, [h]));
    MapAppend((h: ReplyHeader) => SetCookie(h.value, h.at.parsed, h.at.stored), Filter(p, a), Filter(p, [h]));
  }

  /** The cookie a pair is for: the text before its first `=`, trimmed, or none. */
  lemma PairName(name: string, value: string)
    requires '=' !in name
    ensures NameOf(name + "=" + value) == Trim(name) && NameOf(name) == ""
  {
    hide Trim, SplitOnce;
    SplitOnceFirst(name, '=', value);
    assert name + "=" + value == name + ['='] + value;
  }

  /** The host cookies are set from and sent to: none for a URL without one. */
  function CookieHost(u: Url): string {
    if u.host == None then "" else u.host.value
  }

  /** What a reply sets goes to the chain's jar, and to the session's where cookies are
      recorded, as coming from the host and the path that were asked. */
  lemma ReplyRecorded(cfg: Config, st: Chain, headers: seq<ReplyHeader>)
    ensures var st' := Absorbed(cfg, st, headers);
            && st'.jar == Record(st.jar, ArrivalsOf(ChainCookies(headers), CookieHost(st.url), st.url.path), cfg.httpDate)
            && st'.sessions == (if !cfg.recordCookies then st.sessions
                                else RecordInto(st.sessions, cfg.session,
                                                ArrivalsOf(SessionCookies(headers), CookieHost(st.url), st.url.path), cfg.httpDate))
  {
    hide Record, RecordInto, ArrivalsOf, ChainCookies, SessionCookies;
  }

  /** A jar's cookies for one request: those that last, are for its host and path, and are
      not for `https` alone when it is not. */
  ghost predicate SentTo(c: Cookie, jar: seq<Cookie>, u: Url, nowMs: nat) {
    c in jar && Unexpired(c, nowMs) && (c.secure ==> u.scheme == "https") && ForHost(c, CookieHost(u)) && ForPath(c, u.path)
  }

  /** A request gets exactly those of the chain's jar and, if it asked for a session's
      cookies, of that session: the one named, or else the run's own. */
  lemma HopCookiesIff(cfg: Config, st: Chain, x: Exchange, c: Cookie)
    ensures c in FromChain(cfg, st, x) <==> SentTo(c, st.jar, st.url, x.chainNow)
    ensures c in FromSession(cfg, st, x)
            <==> match cfg.inherit
                 { case None => false
                   case Some(None) => cfg.session in st.sessions && SentTo(c, st.sessions[cfg.session], st.url, x.sessionNow)
                   case Some(Some(name)) => name in st.sessions && SentTo(c, st.sessions[name], st.url, x.sessionNow) }
  {
    hide Matching, ForHost, ForPath, Unexpired;
    var host, path, isSecure := CookieHost(st.url), st.url.path, st.url.scheme == "https";
    SentIff(st.jar, host, path, isSecure, x.chainNow, c);
    if cfg.inherit.Some? { SentIff(JarIn(st.sessions, SessionOf(cfg)), host, path, isSecure, x.sessionNow, c); }
  }

  /** A cookie set with `Secure` is in no request of a run to a URL whose scheme is not
      `https`, whether it comes from the chain or from the session. */
  lemma SecureOnlyOverHttps(cfg: Config, st: Chain, x: Exchange, c: Cookie)
    requires c in FromChain(cfg, st, x) || c in FromSession(cfg, st, x)
    ensures c.secure ==> st.url.scheme == "https"
  {
    hide FromChain, FromSession, ForHost, ForPath, Unexpired;
    HopCookiesIff(cfg, st, x, c);
  }
}
