/** Which cookies every request of a run carries, whatever the server sets along the
    way and wherever its redirects point. */
module RedirectCookies {
  import opened Text
  import opened Sorting
  import opened Cookies
  import opened Jar
  import opened Sessions
  import opened Redirects
  import opened RedirectRuns

  // ---------- the chain's jar, from what its hops set ----------

  /** The `Set-Cookie` values of one reply, with the URL that was asked. */
  function ArrivalsAt(s: Chain, x: Exchange): seq<Arrival> {
    if x.reply.NoReply? then [] else ArrivalsOf(ChainCookies(x.reply.headers), HostOf(s.url), s.url.path)
  }

  /** Every `Set-Cookie` value received before request `i`, oldest first. */
  function ArrivalsBefore(states: seq<Chain>, script: seq<Exchange>, i: nat): seq<Arrival>
    requires i <= |states| && i <= |script|
  {
    if i == 0 then [] else ArrivalsBefore(states, script, i - 1) + ArrivalsAt(states[i - 1], script[i - 1])
  }

  lemma {:induction false} RecordAppend(jar: seq<Cookie>, a: seq<Arrival>, b: seq<Arrival>, httpDate: string -> Option<nat>)
    ensures Record(jar, a + b, httpDate) == Record(Record(jar, a, httpDate), b, httpDate)
    decreases |b|
  {
    hide ParseCookie, InsertCookie, Arrival.Parsed;
    if b == [] {
      assert a + b == a;
    } else {
      var n := |b| - 1;
      assert (a + b)[..|a + b| - 1] == a + b[..n] && (a + b)[|a + b| - 1] == b[n];
      RecordAppend(jar, a, b[..n], httpDate);
    }
  }

  /** A hop followed adds the reply's cookies to the chain's jar, and to the session's
      when those are recorded. */
  lemma GoRecords(cfg: Config, a: Chain, x: Exchange, b: Chain)
    requires Advance(cfg, a, x) == Go(b)
    ensures x.reply.Reply?
    ensures b.jar == Record(a.jar, ArrivalsAt(a, x), cfg.httpDate)
    ensures b.sessions == Absorbed(cfg, a, x.reply.headers).sessions
  {
    hide Advance, Record, RecordInto, ArrivalsOf, ChainCookies, SessionCookies, ShouldFollow, StripCredentials, DropContentType;
    GoParts(cfg, a, x, b);
    FollowedParts(Absorbed(cfg, a, x.reply.headers), x.reply.status, b.url);
  }

  lemma ArrivalsSplit(states: seq<Chain>, script: seq<Exchange>, i: nat, httpDate: string -> Option<nat>)
    requires i < |states| && i < |script|
    ensures Record([], ArrivalsBefore(states, script, i + 1), httpDate)
            == Record(Record([], ArrivalsBefore(states, script, i), httpDate), ArrivalsAt(states[i], script[i]), httpDate)
  {
    hide Record, ArrivalsAt;
    RecordAppend([], ArrivalsBefore(states, script, i), ArrivalsAt(states[i], script[i]), httpDate);
  }

  lemma NothingArrived(states: seq<Chain>, script: seq<Exchange>, httpDate: string -> Option<nat>)
    ensures Record([], ArrivalsBefore(states, script, 0), httpDate) == []
  {
  }

  /** The chain's jar is what its hops have set so far, in order. */
  lemma {:induction false} ChainJar(cfg: Config, s: Chain, script: seq<Exchange>, i: nat)
    requires s.jar == [] && i < |States(cfg, s, script)| <= |script|
    ensures States(cfg, s, script)[i].jar == Record([], ArrivalsBefore(States(cfg, s, script), script, i), cfg.httpDate)
    decreases i
  {
    hide States, Advance, Record, ArrivalsAt, ArrivalsBefore;
    if i == 0 {
      FirstState(cfg, s, script);
      NothingArrived(States(cfg, s, script), script, cfg.httpDate);
    } else {
      ChainJar(cfg, s, script, i - 1);
      StateStep(cfg, s, script, i - 1);
      GoRecords(cfg, States(cfg, s, script)[i - 1], script[i - 1], States(cfg, s, script)[i]);
      ArrivalsSplit(States(cfg, s, script), script, i - 1, cfg.httpDate);
    }
  }

  lemma MatchingMembers(jar: seq<Cookie>, host: string, path: string, isSecure: bool, nowMs: nat)
    ensures forall c :: c in Matching(jar, host, path, isSecure, nowMs)
                        <==> c in jar && !c.IsExpired(nowMs) && c.Matches(host, path, isSecure)
  {
    hide Cookie.IsExpired, Cookie.Matches;
    SortMembers(LongerPath(), Filter(Sendable(host, path, isSecure, nowMs), jar));
  }

  /** Request `i` carries a chain cookie exactly when some `Set-Cookie` before it set
      that cookie alive, none since had the same name, domain and path, and the cookie
      is unexpired and matches the URL requested. */
  lemma ChainCookieIff(cfg: Config, s: Chain, script: seq<Exchange>, i: nat, c: Cookie)
    requires s.jar == [] && i < |States(cfg, s, script)| <= |script|
    ensures var states := States(cfg, s, script);
            c in FromChain(cfg, states[i], script[i])
            <==> && (exists k :: SetLast(ArrivalsBefore(states, script, i), k, c, cfg.httpDate))
                 && !c.IsExpired(script[i].chainNow)
                 && c.Matches(HostOf(states[i].url), states[i].url.path, states[i].url.scheme == "https")
  {
    hide States, Record, Matching, ArrivalsBefore, SetLast, Cookie.IsExpired, Cookie.Matches;
    var states := States(cfg, s, script);
    ChainJar(cfg, s, script, i);
    RecordedIffSetLast([], ArrivalsBefore(states, script, i), c, cfg.httpDate);
    MatchingMembers(states[i].jar, HostOf(states[i].url), states[i].url.path, states[i].url.scheme == "https", script[i].chainNow);
  }

  /** Arrival `a` came with the reply to request `k`. */
  ghost predicate ArrivedAt(states: seq<Chain>, script: seq<Exchange>, k: int, a: Arrival) {
    0 <= k < |states| && k < |script| && a in ArrivalsAt(states[k], script[k])
  }

  lemma {:induction false} ArrivedSomewhere(states: seq<Chain>, script: seq<Exchange>, i: nat, a: Arrival)
    requires i <= |states| && i <= |script| && a in ArrivalsBefore(states, script, i)
    ensures exists k :: 0 <= k < i && ArrivedAt(states, script, k, a)
  {
    if a in ArrivalsAt(states[i - 1], script[i - 1]) {
      assert ArrivedAt(states, script, i - 1, a);
    } else {
      ArrivedSomewhere(states, script, i - 1, a);
    }
  }

  lemma ArrivalHost(s: Chain, x: Exchange, a: Arrival)
    requires a in ArrivalsAt(s, x)
    ensures a.host == HostOf(s.url) && a.path == s.url.path
  {
  }

  /** Hop `k` may set `c` for hop `i`: both are the one host, or both belong to the one
      dotted domain claimed. */
  predicate SharedScope(c: Cookie, setter: Url, target: Url) {
    if c.hostOnly then Lower(HostOf(target)) == c.domain == Lower(Trim(HostOf(setter)))
    else MayClaim(Lower(Trim(HostOf(setter))), c.domain) && DomainMatches(Lower(HostOf(target)), c.domain)
  }

  lemma ScopeShared(c: Cookie, setter: Url, target: Url, path: string, isSecure: bool)
    requires Scoped(c, Lower(Trim(HostOf(setter)))) && c.Matches(HostOf(target), path, isSecure)
    ensures SharedScope(c, setter, target)
  {
  }

  /** Safety: every chain cookie of request `i` was set by a hop before it, whose host
      is the same, or belongs to the same dotted domain. */
  lemma ChainCookiesStayInScope(cfg: Config, s: Chain, script: seq<Exchange>, i: nat, c: Cookie)
    requires s.jar == [] && i < |States(cfg, s, script)| <= |script|
    requires c in FromChain(cfg, States(cfg, s, script)[i], script[i])
    ensures var states := States(cfg, s, script);
            exists k, a :: && 0 <= k < i && ArrivedAt(states, script, k, a)
                           && a.Parsed(cfg.httpDate) == Some(c) && SharedScope(c, states[k].url, states[i].url)
  {
    hide States, FromChain, ArrivalsBefore, Cookie.Matches, ParseCookie, Scoped, SharedScope, ArrivalsAt;
    var states := States(cfg, s, script);
    ChainCookieIff(cfg, s, script, i, c);
    var arrivals := ArrivalsBefore(states, script, i);
    var n :| SetLast(arrivals, n, c, cfg.httpDate);
    var a := arrivals[n];
    ArrivedSomewhere(states, script, i, a);
    var k :| 0 <= k < i && ArrivedAt(states, script, k, a);
    ArrivalHost(states[k], script[k], a);
    ParsedIsScoped(a.from.header, a.host, a.path, a.from.parsedAt, cfg.httpDate);
    ScopeShared(c, states[k].url, states[i].url, states[i].url.path, states[i].url.scheme == "https");
  }

  // ---------- names and values that split back out of a header ----------

  predicate Clean(c: Cookie) {
    CleanText(c.name, c.value)
  }

  ghost predicate AllClean(jar: seq<Cookie>) {
    forall c :: c in jar ==> Clean(c)
  }

  lemma PairParts(c: Cookie)
    requires Clean(c)
    ensures ';' !in Pair(c) && NameOf(Pair(c)) == c.name
  {
    hide Trim;
    assert Pair(c) == c.name + ['='] + c.value;
    SplitOnceFirst(c.name, '=', c.value);
    TrimFixed(c.name);
  }

  lemma FindSeparator(a: string, b: string)
    requires ';' !in a
    ensures Find(a + "; " + b, "; ") == Some(|a|)
  {
    var s := a + "; " + b;
    assert OccursAt(s, "; ", |a|);
    forall j | 0 <= j < |a| ensures !OccursAt(s, "; ", j) {
      assert s[j] == a[j];
      assert j + 2 <= |s| ==> s[j..j + 2][0] == s[j];
    }
  }

  lemma FindNone(a: string)
    requires ';' !in a
    ensures Find(a, "; ") == None
  {
    forall j ensures !OccursAt(a, "; ", j) {
      if 0 <= j && j + 2 <= |a| { assert a[j..j + 2][0] == a[j]; }
    }
  }

  lemma SplitPairsFirst(a: string, b: string)
    requires ';' !in a
    ensures SplitPairs(a + "; " + b) == [a] + SplitPairs(b)
  {
    hide Find;
    var s := a + "; " + b;
    FindSeparator(a, b);
    assert s[..|a|] == a && s[|a| + 2..] == b;
  }

  lemma SplitPairsNone(a: string)
    requires ';' !in a
    ensures SplitPairs(a) == [a]
  {
    hide Find;
    FindNone(a);
  }

  /** A `Cookie` header splits back into its pairs. */
  lemma {:induction false} SplitOfPairs(parts: seq<string>)
    requires parts != [] && forall p :: p in parts ==> ';' !in p
    ensures SplitPairs(Join(parts, "; ")) == parts
  {
    hide SplitPairs;
    if |parts| == 1 {
      SplitPairsNone(parts[0]);
    } else {
      SplitOfPairs(parts[1..]);
      SplitPairsFirst(parts[0], Join(parts[1..], "; "));
      assert parts == [parts[0]] + parts[1..];
    }
  }

  predicate NamedIn(cs: seq<Cookie>, name: string) {
    exists c :: c in cs && c.name == name
  }

  /** Cookies whose name none of `cs` has. */
  function Unnamed(cs: seq<Cookie>): Cookie -> bool {
    (c: Cookie) => !NamedIn(cs, c.name)
  }

  lemma NamesOfPairs(cs: seq<Cookie>, name: string)
    requires AllClean(cs)
    ensures name in Map(NameOf, Pairs(cs)) <==> NamedIn(cs, name)
  {
    hide Pair, NameOf, Clean;
    forall c | c in cs ensures NameOf(Pair(c)) == c.name { PairParts(c); }
    if NamedIn(cs, name) {
      var c :| c in cs && c.name == name;
      var i :| 0 <= i < |cs| && cs[i] == c;
      assert Map(NameOf, Pairs(cs))[i] == name;
    }
    if name in Map(NameOf, Pairs(cs)) {
      var i :| 0 <= i < |cs| && Map(NameOf, Pairs(cs))[i] == name;
      assert cs[i] in cs;
    }
  }

  lemma UnclaimedPair(fresher: seq<Cookie>, c: Cookie)
    requires AllClean(fresher) && Clean(c)
    ensures Unclaimed(Pairs(fresher))(Pair(c)) == Unnamed(fresher)(c)
  {
    hide Pair, NameOf, Clean, NamedIn, Pairs;
    PairParts(c);
    NamesOfPairs(fresher, c.name);
  }

  lemma PairsAppend(a: seq<Cookie>, b: seq<Cookie>)
    ensures Pairs(a + b) == Pairs(a) + Pairs(b)
  {
    hide Pair;
  }

  lemma {:induction false} UnclaimedPairs(fresher: seq<Cookie>, base: seq<Cookie>)
    requires AllClean(fresher) && AllClean(base)
    ensures Filter(Unclaimed(Pairs(fresher)), Pairs(base)) == Pairs(Filter(Unnamed(fresher), base))
  {
    hide Pair, Clean, Filter, Unclaimed, Unnamed;
    if base == [] {
      NothingFiltered(Unnamed(fresher));
      NothingFiltered(Unclaimed(Pairs(fresher)));
      assert Pairs(base) == [];
    } else {
      UnclaimedPairs(fresher, base[1..]);
      assert Pairs(base)[1..] == Pairs(base[1..]);
      UnclaimedPair(fresher, base[0]);
      FilterHead(Unclaimed(Pairs(fresher)), Pairs(base));
      FilterHead(Unnamed(fresher), base);
      PairsAppend([base[0]], Filter(Unnamed(fresher), base[1..]));
      assert Pairs([base[0]]) == [Pair(base[0])];
    }
  }

  lemma CleanPairs(cs: seq<Cookie>)
    requires AllClean(cs)
    ensures forall p :: p in Pairs(cs) ==> ';' !in p
    ensures cs != [] ==> SplitPairs(Join(Pairs(cs), "; ")) == Pairs(cs)
  {
    hide SplitPairs, Clean, Pair;
    forall c | c in cs ensures ';' !in Pair(c) { PairParts(c); }
    if cs != [] { SplitOfPairs(Pairs(cs)); }
  }

  /** Merging two headers is sending the fresher cookies, then those others whose name
      none of the fresher ones has. */
  lemma MergeIsOverride(base: seq<Cookie>, fresher: seq<Cookie>)
    requires AllClean(base) && AllClean(fresher)
    ensures MergeCookieHeaders(HeaderOf(base), HeaderOf(fresher))
            == HeaderOf(fresher + Filter(Unnamed(fresher), base))
  {
    hide *;
    var kept := Filter(Unnamed(fresher), base);
    HeaderIsJoin(base);
    HeaderIsJoin(fresher);
    MergeWithNone(HeaderOf(base), HeaderOf(fresher));
    if base == [] {
      NothingFiltered(Unnamed(fresher));
      assert fresher + [] == fresher;
    } else if fresher == [] {
      NobodyNamed();
      FilterAll(Unnamed([]), base);
      assert fresher + kept == base;
    } else {
      CleanPairs(base);
      CleanPairs(fresher);
      UnclaimedPairs(fresher, base);
      MergeIsJoin(Join(Pairs(base), "; "), Join(Pairs(fresher), "; "));
      PairsAppend(fresher, kept);
      HeaderIsJoin(fresher + kept);
    }
  }

  lemma HeaderIsJoin(cs: seq<Cookie>)
    ensures cs == [] ==> HeaderOf(cs) == None
    ensures cs != [] ==> HeaderOf(cs) == Some(Join(Pairs(cs), "; "))
  {
    hide Pairs, Join;
  }

  lemma NobodyNamed()
    ensures forall c :: Unnamed([])(c)
  {
  }

  lemma MergeIsJoin(b: string, f: string)
    ensures MergeCookieHeaders(Some(b), Some(f))
            == Some(Join(SplitPairs(f) + Filter(Unclaimed(SplitPairs(f)), SplitPairs(b)), "; "))
  {
    hide Filter, SplitPairs, Join;
  }

  // ---------- every jar of a run is clean ----------

  lemma {:induction false} RecordClean(jar: seq<Cookie>, arrivals: seq<Arrival>, httpDate: string -> Option<nat>)
    requires AllClean(jar)
    ensures AllClean(Record(jar, arrivals, httpDate))
    decreases |arrivals|
  {
    if arrivals != [] {
      hide ParseCookie, Clean, InsertCookie;
      var last := arrivals[|arrivals| - 1];
      var before := Record(jar, arrivals[..|arrivals| - 1], httpDate);
      RecordClean(jar, arrivals[..|arrivals| - 1], httpDate);
      if last.Parsed(httpDate).Some? {
        ParsedIsClean(last, httpDate);
        InsertMembers(before, last.Parsed(httpDate).value, last.from.storedAt);
      }
    }
  }

  lemma ParsedIsClean(a: Arrival, httpDate: string -> Option<nat>)
    requires a.Parsed(httpDate).Some?
    ensures Clean(a.Parsed(httpDate).value)
  {
    hide ParseCookie, CleanText, Scoped;
    ParsedIsScoped(a.from.header, a.host, a.path, a.from.parsedAt, httpDate);
  }

  ghost predicate AllJarsClean(s: Chain) {
    AllClean(s.jar) && forall name :: AllClean(JarIn(s.sessions, name))
  }

  lemma GoKeepsClean(cfg: Config, a: Chain, x: Exchange, b: Chain)
    requires Advance(cfg, a, x) == Go(b) && AllJarsClean(a)
    ensures AllJarsClean(b)
  {
    hide Advance, Record, RecordInto, ArrivalsOf, ArrivalsAt, SessionCookies, ChainCookies, JarIn, AllClean;
    GoRecords(cfg, a, x, b);
    RecordClean(a.jar, ArrivalsAt(a, x), cfg.httpDate);
    if cfg.recordCookies {
      var arrivals := ArrivalsOf(SessionCookies(x.reply.headers), HostOf(a.url), a.url.path);
      RecordIntoKeeps(a.sessions, cfg.session, arrivals, cfg.httpDate);
      RecordClean(JarIn(a.sessions, cfg.session), arrivals, cfg.httpDate);
      assert b.sessions == RecordInto(a.sessions, cfg.session, arrivals, cfg.httpDate);
      forall name ensures AllClean(JarIn(b.sessions, name)) {
        assert AllClean(JarIn(a.sessions, name));
      }
    }
  }

  lemma {:induction false} RunKeepsClean(cfg: Config, s: Chain, script: seq<Exchange>, i: nat)
    requires AllJarsClean(s) && i < |States(cfg, s, script)|
    ensures AllJarsClean(States(cfg, s, script)[i])
    decreases i
  {
    hide States, Advance, AllJarsClean;
    if i == 0 {
      FirstState(cfg, s, script);
    } else {
      RunKeepsClean(cfg, s, script, i - 1);
      StateStep(cfg, s, script, i - 1);
      GoKeepsClean(cfg, States(cfg, s, script)[i - 1], script[i - 1], States(cfg, s, script)[i]);
    }
  }

  /** The `Cookie` header of every request of a run: the chain's cookies for its URL,
      then the session's, less exactly those whose name a chain cookie has. */
  lemma HopCookieIsOverride(cfg: Config, s: Chain, script: seq<Exchange>, i: nat)
    requires AllJarsClean(s) && i < |States(cfg, s, script)| <= |script|
    ensures var st := States(cfg, s, script)[i];
            var chain, session := FromChain(cfg, st, script[i]), FromSession(cfg, st, script[i]);
            HopCookie(cfg, st, script[i]) == HeaderOf(chain + Filter(Unnamed(chain), session))
  {
    hide States, Matching, HeaderOf, MergeCookieHeaders, Filter, JarIn, Clean;
    var st, x := States(cfg, s, script)[i], script[i];
    RunKeepsClean(cfg, s, script, i);
    var host, path, isSecure := HostOf(st.url), st.url.path, st.url.scheme == "https";
    MatchingMembers(st.jar, host, path, isSecure, x.chainNow);
    if cfg.inherit.Some? {
      MatchingMembers(JarIn(st.sessions, SessionOf(cfg)), host, path, isSecure, x.sessionNow);
    }
    MergeIsOverride(FromSession(cfg, st, x), FromChain(cfg, st, x));
  }
}
