/** The request loop: redirects followed one hop at a time (section 15.4 of RFC 9110),
    with the cookies of each hop. */
module Redirects {
  import opened Text
  import opened Cookies
  import opened Jar
  import opened Sessions

  // ---------- requests and replies ----------

  datatype Url = Url(scheme: string, host: Option<string>, port: Option<nat>, path: string, rest: string)

  type Header = (string, string)

  datatype Sent = Sent(verb: string, url: Url, headers: seq<Header>, body: Option<string>)

  datatype Hop = Hop(status: nat, url: Url, location: Url)

  /** Clock readings while a `Set-Cookie` is parsed and stored, first for the chain's
      own jar and then for the session's. */
  datatype Stamps = Stamps(chainParsed: nat, chainStored: nat, parsed: nat, stored: nat)

  datatype ReplyHeader = ReplyHeader(name: string, value: string, at: Stamps)

  /** What comes back for one request: nothing, or a response whose body can be read to
      its end or not. */
  datatype Reply = NoReply | Reply(status: nat, headers: seq<ReplyHeader>, whole: bool)

  /** One hop as the environment decides it: the clock when the session's and the
      chain's cookies are chosen, and the reply. */
  datatype Exchange = Exchange(sessionNow: nat, chainNow: nat, reply: Reply)

  /** What the request and its context fix. `inherit` is set when the request asked
      for a session's cookies, naming one or not. `join` resolves a location against a
      URL and `httpDate` reads a date: any functions will do. */
  datatype Config = Config(follow: bool, maxRedirects: nat, inherit: Option<Option<string>>, session: string,
                           recordCookies: bool, join: (Url, string) -> Option<Url>, httpDate: string -> Option<nat>)

  datatype Ending = Finished(status: nat) | TransportError | BadLocation(location: string)

  // ---------- the pure parts ----------

  const SENSITIVE := {"authorization", "cookie", "proxy-authorization", "www-authenticate"}

  predicate IsRedirect(status: nat) {
    status in {301, 302, 303, 307, 308}
  }

  predicate TurnsToGet(status: nat) {
    301 <= status <= 303
  }

  function KnownPort(u: Url): Option<nat> {
    if u.port.Some? then u.port
    else if u.scheme == "http" || u.scheme == "ws" then Some(80)
    else if u.scheme == "https" || u.scheme == "wss" then Some(443)
    else if u.scheme == "ftp" then Some(21)
    else None
  }

  predicate SameOrigin(a: Url, b: Url) {
    a.scheme == b.scheme && a.host == b.host && KnownPort(a) == KnownPort(b)
  }

  predicate IsSensitive(h: Header) {
    Lower(h.0) in SENSITIVE
  }

  predicate IsContentType(h: Header) {
    Lower(h.0) == "content-type"
  }

  function StripCredentials(headers: seq<Header>): seq<Header> {
    Filter((h: Header) => !IsSensitive(h), headers)
  }

  function DropContentType(headers: seq<Header>): seq<Header> {
    Filter((h: Header) => !IsContentType(h), headers)
  }

  function HostOf(u: Url): string {
    if u.host.Some? then u.host.value else ""
  }

  predicate IsSetCookie(h: ReplyHeader) {
    Lower(h.name) == "set-cookie"
  }

  function ChainCookies(headers: seq<ReplyHeader>): seq<SetCookie> {
    Map((h: ReplyHeader) => SetCookie(h.value, h.at.chainParsed, h.at.chainStored), Filter((h: ReplyHeader) => IsSetCookie(h), headers))
  }

  function SessionCookies(headers: seq<ReplyHeader>): seq<SetCookie> {
    Map((h: ReplyHeader) => SetCookie(h.value, h.at.parsed, h.at.stored), Filter((h: ReplyHeader) => IsSetCookie(h), headers))
  }

  function Location(headers: seq<ReplyHeader>): Option<string> {
    if headers == [] then None
    else if Lower(headers[0].name) == "location" then Some(headers[0].value)
    else Location(headers[1..])
  }

  // ---------- cookies of one hop ----------

  /** `split("; ")`. */
  function SplitPairs(s: string): (parts: seq<string>)
    ensures |parts| >= 1
    decreases |s|
  {
    match Find(s, "; ")
    case None => [s]
    case Some(i) => [s[..i]] + SplitPairs(s[i + 2..])
  }

  function NameOf(pair: string): string {
    match SplitOnce(pair, '=') case None => "" case Some((n, _)) => Trim(n)
  }

  function Unclaimed(fresher: seq<string>): string -> bool {
    (pair: string) => NameOf(pair) !in Map(NameOf, fresher)
  }

  /** One entry per cookie name, the fresher header's entries winning. */
  function MergeCookieHeaders(base: Option<string>, fresher: Option<string>): Option<string> {
    match (base, fresher)
    case (None, None) => None
    case (Some(only), None) => Some(only)
    case (None, Some(only)) => Some(only)
    case (Some(b), Some(f)) =>
      Some(Join(SplitPairs(f) + Filter(Unclaimed(SplitPairs(f)), SplitPairs(b)), "; "))
  }

  method MergeHeaders(base: Option<string>, fresher: Option<string>) returns (merged: Option<string>)
    ensures merged == MergeCookieHeaders(base, fresher)
  {
    hide *;
    MergeWithNone(base, fresher);
    if base.None? {
      merged := fresher;
      return;
    }
    if fresher.None? {
      merged := base;
      return;
    }
    var newer := SplitPairs(fresher.value);
    var overridden := Map(NameOf, newer);
    var pairs := newer;
    var rest := SplitPairs(base.value);
    NoneKept(newer, rest);
    for i := 0 to |rest|
      invariant pairs == newer + KeptPairs(newer, rest, i)
    {
      OneMorePair(newer, rest, i);
      if NameOf(rest[i]) !in overridden {
        pairs := pairs + [rest[i]];
      }
    }
    MergeOfBoth(base.value, fresher.value);
    merged := Some(Join(pairs, "; "));
  }

  function KeptPairs(fresher: seq<string>, pairs: seq<string>, i: nat): seq<string>
    requires i <= |pairs|
  {
    Filter(Unclaimed(fresher), pairs[..i])
  }

  lemma NoneKept(fresher: seq<string>, pairs: seq<string>)
    ensures fresher + KeptPairs(fresher, pairs, 0) == fresher
  {
  }

  lemma OneMorePair(fresher: seq<string>, pairs: seq<string>, i: nat)
    requires i < |pairs|
    ensures fresher + KeptPairs(fresher, pairs, i + 1)
            == if NameOf(pairs[i]) !in Map(NameOf, fresher) then fresher + KeptPairs(fresher, pairs, i) + [pairs[i]]
               else fresher + KeptPairs(fresher, pairs, i)
  {
    hide NameOf, Filter;
    FilterSnoc(Unclaimed(fresher), pairs, i);
  }

  lemma MergeWithNone(base: Option<string>, fresher: Option<string>)
    ensures base.None? ==> MergeCookieHeaders(base, fresher) == fresher
    ensures fresher.None? ==> MergeCookieHeaders(base, fresher) == base
  {
    hide Filter, SplitPairs, Join;
  }

  lemma MergeOfBoth(b: string, f: string)
    ensures MergeCookieHeaders(Some(b), Some(f))
            == Some(Join(SplitPairs(f) + KeptPairs(SplitPairs(f), SplitPairs(b), |SplitPairs(b)|), "; "))
  {
    hide Filter, SplitPairs, Join;
    assert SplitPairs(b)[..|SplitPairs(b)|] == SplitPairs(b);
  }

  // ---------- the chain, as a machine ----------

  datatype Chain = Chain(url: Url, verb: string, body: Option<string>, headers: seq<Header>, hops: seq<Hop>,
                         jar: seq<Cookie>, sessions: map<string, seq<Cookie>>)

  function SessionOf(cfg: Config): string
    requires cfg.inherit.Some?
  {
    if cfg.inherit.value.Some? then cfg.inherit.value.value else cfg.session
  }

  /** The inherited session's cookies for this hop. */
  function FromSession(cfg: Config, s: Chain, x: Exchange): seq<Cookie> {
    if cfg.inherit.None? then []
    else Matching(JarIn(s.sessions, SessionOf(cfg)), HostOf(s.url), s.url.path, s.url.scheme == "https", x.sessionNow)
  }

  /** The cookies set earlier in this chain, for this hop. */
  function FromChain(cfg: Config, s: Chain, x: Exchange): seq<Cookie> {
    Matching(s.jar, HostOf(s.url), s.url.path, s.url.scheme == "https", x.chainNow)
  }

  function HopCookie(cfg: Config, s: Chain, x: Exchange): Option<string> {
    MergeCookieHeaders(HeaderOf(FromSession(cfg, s, x)), HeaderOf(FromChain(cfg, s, x)))
  }

  function RequestOf(cfg: Config, s: Chain, x: Exchange): Sent {
    var cookie := HopCookie(cfg, s, x);
    Sent(s.verb, s.url, s.headers + (if cookie.Some? then [("Cookie", cookie.value)] else []), s.body)
  }

  /** Record a reply's cookies before following it. */
  function Absorbed(cfg: Config, s: Chain, headers: seq<ReplyHeader>): Chain {
    var chainArrivals := ArrivalsOf(ChainCookies(headers), HostOf(s.url), s.url.path);
    var sessionArrivals := ArrivalsOf(SessionCookies(headers), HostOf(s.url), s.url.path);
    s.(jar := Record(s.jar, chainArrivals, cfg.httpDate),
       sessions := if cfg.recordCookies then RecordInto(s.sessions, cfg.session, sessionArrivals, cfg.httpDate) else s.sessions)
  }

  /** What a hop leads to: the end of the run, or the next request. */
  datatype Next = Stop(ending: Ending, last: Chain) | Go(next: Chain)

  function Followed(s: Chain, status: nat, next: Url): Chain {
    var turned := TurnsToGet(status) && s.verb != "GET";
    var headers := if SameOrigin(next, s.url) then s.headers else StripCredentials(s.headers);
    s.(url := next, hops := s.hops + [Hop(status, s.url, next)],
       verb := if turned then "GET" else s.verb,
       body := if turned then None else s.body,
       headers := if turned then DropContentType(headers) else headers)
  }

  predicate ShouldFollow(cfg: Config, s: Chain, status: nat, headers: seq<ReplyHeader>) {
    IsRedirect(status) && cfg.follow && |s.hops| < cfg.maxRedirects && Location(headers).Some?
  }

  function Advance(cfg: Config, s: Chain, x: Exchange): Next {
    match x.reply
    case NoReply => Stop(TransportError, s)
    case Reply(status, headers, whole) =>
      var s' := Absorbed(cfg, s, headers);
      if !ShouldFollow(cfg, s, status, headers) then Stop(if whole then Finished(status) else TransportError, s')
      else match cfg.join(s.url, Location(headers).value)
        case None => Stop(BadLocation(Location(headers).value), s')
        case Some(next) => Go(Followed(s', status, next))
  }

  /** The states in which a run sends its requests, one for each. */
  function States(cfg: Config, s: Chain, script: seq<Exchange>): seq<Chain>
    decreases |script|
  {
    if script == [] then []
    else match Advance(cfg, s, script[0])
      case Stop(_, _) => [s]
      case Go(next) => [s] + States(cfg, next, script[1..])
  }

  /** How a run ends; `None` if the script does. */
  function EndOf(cfg: Config, s: Chain, script: seq<Exchange>): Option<(Ending, Chain)>
    decreases |script|
  {
    if script == [] then None
    else match Advance(cfg, s, script[0])
      case Stop(ending, last) => Some((ending, last))
      case Go(next) => EndOf(cfg, next, script[1..])
  }

  function Requests(cfg: Config, states: seq<Chain>, script: seq<Exchange>): seq<Sent>
    requires |states| <= |script|
  {
    if states == [] then [] else [RequestOf(cfg, states[0], script[0])] + Requests(cfg, states[1..], script[1..])
  }

  lemma {:induction false} StatesFit(cfg: Config, s: Chain, script: seq<Exchange>)
    ensures |States(cfg, s, script)| <= |script|
    decreases |script|
  {
    if script != [] {
      match Advance(cfg, s, script[0])
      case Stop(_, _) =>
      case Go(next) => StatesFit(cfg, next, script[1..]);
    }
  }

  // ---------- the loop ----------

  /** The session under which the chain's own store keeps them. */
  const CHAIN_SESSION := "\0chain"

  /** The cookies of the session and of the chain, merged for a URL. */
  method CookieForHop(cfg: Config, chainJar: SessionStore, sessions: SessionStore, url: Url, x: Exchange)
    returns (header: Option<string>)
    requires chainJar.Valid() && sessions.Valid()
    ensures header == MergeCookieHeaders(
                        HeaderOf(if cfg.inherit.None? then [] else
                                 Matching(JarIn(sessions.sessions, SessionOf(cfg)), HostOf(url), url.path,
                                          url.scheme == "https", x.sessionNow)),
                        HeaderOf(Matching(JarIn(chainJar.sessions, CHAIN_SESSION), HostOf(url), url.path,
                                          url.scheme == "https", x.chainNow)))
  {
    hide Matching, HeaderOf, MergeCookieHeaders;
    var host := HostOf(url);
    var isSecure := url.scheme == "https";
    var fromSession: Option<string> := None;
    NoCookies();
    if cfg.inherit.Some? {
      fromSession := sessions.CookieHeader(SessionOf(cfg), host, url.path, isSecure, x.sessionNow);
    }
    var fromChain := chainJar.CookieHeader(CHAIN_SESSION, host, url.path, isSecure, x.chainNow);
    header := MergeHeaders(fromSession, fromChain);
  }

  /** What a reply sets goes to the jars before its redirect is followed. */
  method RecordReply(cfg: Config, chainJar: SessionStore, sessions: SessionStore, url: Url, headers: seq<ReplyHeader>)
    requires chainJar.Valid() && sessions.Valid() && chainJar != sessions
    modifies chainJar, sessions
    ensures chainJar.Valid() && sessions.Valid()
    ensures JarIn(chainJar.sessions, CHAIN_SESSION)
            == Record(JarIn(old(chainJar.sessions), CHAIN_SESSION), ArrivalsOf(ChainCookies(headers), HostOf(url), url.path), cfg.httpDate)
    ensures sessions.sessions
            == if cfg.recordCookies
               then RecordInto(old(sessions.sessions), cfg.session,
                               ArrivalsOf(SessionCookies(headers), HostOf(url), url.path), cfg.httpDate)
               else old(sessions.sessions)
  {
    hide Record, RecordInto, ChainCookies, SessionCookies, ArrivalsOf;
    RecordIntoKeeps(chainJar.sessions, CHAIN_SESSION, ArrivalsOf(ChainCookies(headers), HostOf(url), url.path), cfg.httpDate);
    var recorded := chainJar.RecordSetCookies(CHAIN_SESSION, ChainCookies(headers), HostOf(url), url.path, cfg.httpDate);
    if cfg.recordCookies {
      recorded := sessions.RecordSetCookies(cfg.session, SessionCookies(headers), HostOf(url), url.path, cfg.httpDate);
    }
  }

  lemma NoCookies()
    ensures HeaderOf([]) == None
  {
  }

  /** `execute`: send, record, follow. `script` is what the environment does, one
      exchange for each request the limit allows. */
  method Execute(cfg: Config, startUrl: Url, startVerb: string, startBody: Option<string>, startHeaders: seq<Header>,
                 sessions: SessionStore, script: seq<Exchange>)
    returns (trace: seq<Sent>, ending: Ending, redirects: seq<Hop>)
    requires sessions.Valid() && |script| > cfg.maxRedirects
    modifies sessions
    ensures sessions.Valid()
    ensures var s := Chain(startUrl, startVerb, startBody, startHeaders, [], [], old(sessions.sessions));
            var states := States(cfg, s, script);
            && |states| <= |script|
            && trace == Requests(cfg, states, script)
            && EndOf(cfg, s, script).Some?
            && EndOf(cfg, s, script).value.0 == ending
            && EndOf(cfg, s, script).value.1.sessions == sessions.sessions
            && EndOf(cfg, s, script).value.1.hops == redirects
  {
    hide States, Requests, EndOf, RequestOf, Followed, Location, ChainCookies, SessionCookies, Record, RecordInto,
         StripCredentials, DropContentType, IsRedirect, TurnsToGet, SameOrigin, HopCookie, ArrivalsOf,
         MergeCookieHeaders, Matching, HeaderOf;
    var url, verb, body, headers := startUrl, startVerb, startBody, startHeaders;
    var hops: seq<Hop> := [];
    var chainJar := new SessionStore();
    trace := [];
    ghost var start := Chain(url, verb, body, headers, [], [], sessions.sessions);
    ghost var s := start;
    ghost var all := States(cfg, start, script);
    StatesFit(cfg, start, script);
    var i := 0;
    assert script[0..] == script;
    assert trace + Requests(cfg, all, script) == Requests(cfg, all, script);
    while true
      invariant fresh(chainJar) && chainJar.Valid() && sessions.Valid()
      invariant i == |hops| <= cfg.maxRedirects
      invariant s == Chain(url, verb, body, headers, hops, JarIn(chainJar.sessions, CHAIN_SESSION), sessions.sessions)
      invariant |States(cfg, s, script[i..])| <= |script[i..]|
      invariant trace + Requests(cfg, States(cfg, s, script[i..]), script[i..]) == Requests(cfg, all, script)
      invariant EndOf(cfg, s, script[i..]) == EndOf(cfg, start, script)
      decreases cfg.maxRedirects - i
    {
      var x := script[i];
      ghost var rest := script[i..];
      assert rest[0] == x && rest[1..] == script[i + 1..];
      UnrollRun(cfg, s, rest, trace);
      StatesFit(cfg, s, rest);

      var cookie := CookieForHop(cfg, chainJar, sessions, url, x);
      HopCookieParts(cfg, s, x);
      trace := trace + [Sent(verb, url, headers + (if cookie.Some? then [("Cookie", cookie.value)] else []), body)];
      SentIsRequest(cfg, s, x, cookie);
      if x.reply.NoReply? {
        return trace, TransportError, hops;
      }

      var status, replyHeaders := x.reply.status, x.reply.headers;
      RecordReply(cfg, chainJar, sessions, url, replyHeaders);
      s := Absorbed(cfg, s, replyHeaders);

      var location := Location(replyHeaders);
      if !(IsRedirect(status) && cfg.follow && |hops| < cfg.maxRedirects && location.Some?) {
        return trace, if x.reply.whole then Finished(status) else TransportError, hops;
      }
      match cfg.join(url, location.value) {
        case None =>
          return trace, BadLocation(location.value), hops;
        case Some(next) =>
          ghost var before := s;
          hops := hops + [Hop(status, url, next)];
          if !SameOrigin(next, url) {
            headers := StripCredentials(headers);
          }
          if TurnsToGet(status) && verb != "GET" {
            verb := "GET";
            body := None;
            headers := DropContentType(headers);
          }
          url := next;
          s := Followed(before, status, next);
          FollowedParts(before, status, next);
          i := i + 1;
      }
    }
  }

  lemma HopCookieParts(cfg: Config, s: Chain, x: Exchange)
    ensures HopCookie(cfg, s, x)
            == MergeCookieHeaders(
                 HeaderOf(if cfg.inherit.None? then [] else
                          Matching(JarIn(s.sessions, SessionOf(cfg)), HostOf(s.url), s.url.path, s.url.scheme == "https", x.sessionNow)),
                 HeaderOf(Matching(s.jar, HostOf(s.url), s.url.path, s.url.scheme == "https", x.chainNow)))
  {
  }

  lemma SentIsRequest(cfg: Config, s: Chain, x: Exchange, cookie: Option<string>)
    requires cookie == HopCookie(cfg, s, x)
    ensures RequestOf(cfg, s, x) == Sent(s.verb, s.url, s.headers + (if cookie.Some? then [("Cookie", cookie.value)] else []), s.body)
  {
  }

  lemma FollowedParts(s: Chain, status: nat, next: Url)
    ensures var headers := if SameOrigin(next, s.url) then s.headers else StripCredentials(s.headers);
            Followed(s, status, next)
            == if TurnsToGet(status) && s.verb != "GET"
               then Chain(next, "GET", None, DropContentType(headers), s.hops + [Hop(status, s.url, next)], s.jar, s.sessions)
               else Chain(next, s.verb, s.body, headers, s.hops + [Hop(status, s.url, next)], s.jar, s.sessions)
  {
  }

  /** The first exchange of a run, and the rest. */
  lemma UnrollRun(cfg: Config, s: Chain, script: seq<Exchange>, trace: seq<Sent>)
    requires script != [] && |States(cfg, s, script)| <= |script|
    ensures match Advance(cfg, s, script[0])
            { case Stop(ending, last) => EndOf(cfg, s, script) == Some((ending, last))
                && trace + Requests(cfg, States(cfg, s, script), script) == trace + [RequestOf(cfg, s, script[0])]
              case Go(next) => EndOf(cfg, s, script) == EndOf(cfg, next, script[1..])
                && |States(cfg, next, script[1..])| <= |script[1..]|
                && trace + Requests(cfg, States(cfg, s, script), script)
                   == trace + [RequestOf(cfg, s, script[0])] + Requests(cfg, States(cfg, next, script[1..]), script[1..]) }
  {
    hide Advance, RequestOf;
  }
}
