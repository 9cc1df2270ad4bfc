/** What every run of the request loop carries from hop to hop, whatever the server
    answers and wherever its redirects point. */
module RedirectRuns {
  import opened Text
  import opened Redirects

  // ---------- runs, step by step ----------

  /** State `i + 1` of a run is where hop `i` leads. */
  lemma {:induction false} StateStep(cfg: Config, s: Chain, script: seq<Exchange>, i: nat)
    requires i + 1 < |States(cfg, s, script)|
    ensures i + 1 < |script| && Advance(cfg, States(cfg, s, script)[i], script[i]) == Go(States(cfg, s, script)[i + 1])
    decreases i
  {
    hide Advance;
    var next := Advance(cfg, s, script[0]).next;
    StatesFit(cfg, s, script);
    if i > 0 {
      StateStep(cfg, next, script[1..], i - 1);
    } else {
      assert States(cfg, next, script[1..]) != [];
    }
  }

  lemma FirstState(cfg: Config, s: Chain, script: seq<Exchange>)
    ensures script != [] ==> States(cfg, s, script) != [] && States(cfg, s, script)[0] == s
    ensures script == [] ==> States(cfg, s, script) == []
  {
  }

  /** One hop followed: the reply, the location, and the state they give. */
  lemma GoParts(cfg: Config, s: Chain, x: Exchange, next: Chain)
    requires Advance(cfg, s, x) == Go(next)
    ensures x.reply.Reply? && ShouldFollow(cfg, s, x.reply.status, x.reply.headers)
    ensures next == Followed(Absorbed(cfg, s, x.reply.headers), x.reply.status, next.url)
  {
    hide Followed, Absorbed;
    var s' := Absorbed(cfg, s, x.reply.headers);
    var location := Location(x.reply.headers).value;
    FollowedUrl(s', x.reply.status, cfg.join(s.url, location).value);
    AbsorbedKeeps(cfg, s, x.reply.headers);
  }

  lemma FollowedUrl(s: Chain, status: nat, next: Url)
    ensures Followed(s, status, next).url == next
  {
  }

  lemma AbsorbedKeeps(cfg: Config, s: Chain, headers: seq<ReplyHeader>)
    ensures var s' := Absorbed(cfg, s, headers);
            s'.url == s.url && s'.verb == s.verb && s'.body == s.body && s'.headers == s.headers && s'.hops == s.hops
  {
  }

  lemma OneMoreHop(cfg: Config, s: Chain, x: Exchange, next: Chain)
    requires Advance(cfg, s, x) == Go(next)
    ensures |next.hops| == |s.hops| + 1 <= cfg.maxRedirects
  {
    hide Advance, Absorbed;
    GoParts(cfg, s, x, next);
    AbsorbedKeeps(cfg, s, x.reply.headers);
  }

  /** Every hop followed is recorded and none beyond the limit is. */
  lemma {:induction false} HopsCount(cfg: Config, s: Chain, script: seq<Exchange>, i: nat)
    requires |s.hops| <= cfg.maxRedirects && i < |States(cfg, s, script)|
    ensures |States(cfg, s, script)[i].hops| == |s.hops| + i <= cfg.maxRedirects
    decreases i
  {
    hide Advance, States;
    if i == 0 {
      FirstState(cfg, s, script);
    } else {
      HopsCount(cfg, s, script, i - 1);
      StateStep(cfg, s, script, i - 1);
      OneMoreHop(cfg, States(cfg, s, script)[i - 1], script[i - 1], States(cfg, s, script)[i]);
    }
  }

  /** A run sends at most `maxRedirects + 1` requests. */
  lemma RequestsBounded(cfg: Config, s: Chain, script: seq<Exchange>)
    requires s.hops == []
    ensures |States(cfg, s, script)| <= cfg.maxRedirects + 1
  {
    var n := |States(cfg, s, script)|;
    if n > 0 { HopsCount(cfg, s, script, n - 1); }
  }

  // ---------- what a run carries ----------

  /** Some hop before request `i` was answered 301, 302 or 303. */
  ghost predicate Turned(script: seq<Exchange>, i: nat)
    requires i <= |script|
  {
    exists k :: 0 <= k < i && script[k].reply.Reply? && TurnsToGet(script[k].reply.status)
  }

  /** Requests 0 to `i` all went to one origin. */
  ghost predicate OneOrigin(states: seq<Chain>, i: nat)
    requires i < |states|
  {
    forall k :: 0 <= k < i ==> SameOrigin(states[k + 1].url, states[k].url)
  }

  /** The method was changed on the way to request `i`. */
  ghost predicate MethodChanged(s: Chain, script: seq<Exchange>, i: nat)
    requires i <= |script|
  {
    s.verb != "GET" && Turned(script, i)
  }

  predicate Carried(h: Header, oneOrigin: bool, changed: bool) {
    (IsSensitive(h) ==> oneOrigin) && (IsContentType(h) ==> !changed)
  }

  function Carry(oneOrigin: bool, changed: bool): Header -> bool {
    (h: Header) => Carried(h, oneOrigin, changed)
  }

  /** The method, body and headers of one state, from those of the first. */
  ghost predicate CarriedFrom(s: Chain, st: Chain, oneOrigin: bool, changed: bool) {
    && st.verb == (if changed then "GET" else s.verb)
    && st.body == (if changed then None else s.body)
    && st.headers == Filter(Carry(oneOrigin, changed), s.headers)
  }

  lemma NarrowHeaders(headers: seq<Header>, oneOrigin: bool, changed: bool, same: bool, turns: bool)
    ensures var kept := Filter(Carry(oneOrigin, changed), headers);
            var stripped := if same then kept else StripCredentials(kept);
            (if turns then DropContentType(stripped) else stripped)
            == Filter(Carry(oneOrigin && same, changed || turns), headers)
  {
    var kept := Filter(Carry(oneOrigin, changed), headers);
    FilterFilter(Carry(oneOrigin, changed), (h: Header) => !IsSensitive(h), Carry(false, changed), headers);
    FilterFilter(Carry(oneOrigin && same, changed), (h: Header) => !IsContentType(h), Carry(oneOrigin && same, true), headers);
  }

  lemma FollowCarries(s: Chain, a: Chain, status: nat, next: Url, oneOrigin: bool, changed: bool)
    requires CarriedFrom(s, a, oneOrigin, changed)
    requires changed ==> s.verb != "GET"
    ensures CarriedFrom(s, Followed(a, status, next), oneOrigin && SameOrigin(next, a.url),
                        changed || (s.verb != "GET" && TurnsToGet(status)))
  {
    hide StripCredentials, DropContentType, Filter, SameOrigin, TurnsToGet;
    var turns := TurnsToGet(status) && a.verb != "GET";
    NarrowHeaders(s.headers, oneOrigin, changed, SameOrigin(next, a.url), turns);
    FollowedParts(a, status, next);
    if changed && TurnsToGet(status) {
      NarrowHeaders(s.headers, oneOrigin, changed, SameOrigin(next, a.url), true);
    }
  }

  lemma TurnedStep(script: seq<Exchange>, i: nat)
    requires i < |script|
    ensures Turned(script, i + 1) <==> Turned(script, i) || (script[i].reply.Reply? && TurnsToGet(script[i].reply.status))
  {
  }

  lemma OneOriginStep(states: seq<Chain>, i: nat)
    requires i + 1 < |states|
    ensures OneOrigin(states, i + 1) <==> OneOrigin(states, i) && SameOrigin(states[i + 1].url, states[i].url)
  {
  }

  /** One hop followed narrows what is carried. */
  lemma GoCarries(cfg: Config, s: Chain, a: Chain, x: Exchange, b: Chain, oneOrigin: bool, changed: bool)
    requires Advance(cfg, a, x) == Go(b)
    requires CarriedFrom(s, a, oneOrigin, changed) && (changed ==> s.verb != "GET")
    ensures x.reply.Reply?
    ensures CarriedFrom(s, b, oneOrigin && SameOrigin(b.url, a.url),
                        changed || (s.verb != "GET" && TurnsToGet(x.reply.status)))
  {
    hide Advance, CarriedFrom, Absorbed, Followed, ShouldFollow, SameOrigin, TurnsToGet;
    GoParts(cfg, a, x, b);
    var a' := Absorbed(cfg, a, x.reply.headers);
    CarriedSame(cfg, s, a, x.reply.headers, oneOrigin, changed);
    FollowCarries(s, a', x.reply.status, b.url, oneOrigin, changed);
    AbsorbedKeeps(cfg, a, x.reply.headers);
  }

  /** The method, body and headers of every request of a run, in closed form: the
      method is the original or GET, and GET just when a 301, 302 or 303 came before;
      then there is neither body nor content type; credentials are there just when all
      requests so far went to one origin; every other header is always there. */
  lemma {:induction false} RunCarries(cfg: Config, s: Chain, script: seq<Exchange>, i: nat)
    requires i < |States(cfg, s, script)|
    ensures i < |script|
    ensures CarriedFrom(s, States(cfg, s, script)[i], OneOrigin(States(cfg, s, script), i), MethodChanged(s, script, i))
    decreases i
  {
    hide States, Advance, CarriedFrom, Turned, OneOrigin, SameOrigin, TurnsToGet;
    StatesFit(cfg, s, script);
    var states := States(cfg, s, script);
    if i == 0 {
      FirstState(cfg, s, script);
      FirstCarries(s, script, states);
    } else {
      RunCarries(cfg, s, script, i - 1);
      StateStep(cfg, s, script, i - 1);
      GoCarries(cfg, s, states[i - 1], script[i - 1], states[i], OneOrigin(states, i - 1), MethodChanged(s, script, i - 1));
      TurnedStep(script, i - 1);
      OneOriginStep(states, i - 1);
    }
  }

  lemma FirstCarries(s: Chain, script: seq<Exchange>, states: seq<Chain>)
    requires states != []
    ensures CarriedFrom(s, s, OneOrigin(states, 0), MethodChanged(s, script, 0))
  {
    FilterAll(Carry(true, false), s.headers);
  }

  lemma CarriedSame(cfg: Config, s: Chain, a: Chain, headers: seq<ReplyHeader>, oneOrigin: bool, changed: bool)
    requires CarriedFrom(s, a, oneOrigin, changed)
    ensures CarriedFrom(s, Absorbed(cfg, a, headers), oneOrigin, changed)
  {
    AbsorbedKeeps(cfg, a, headers);
  }

  /** The trace is one request for each state, as the states have them. */
  lemma {:induction false} RequestAt(cfg: Config, states: seq<Chain>, script: seq<Exchange>, i: nat)
    requires i < |states| <= |script|
    ensures |Requests(cfg, states, script)| == |states|
    ensures Requests(cfg, states, script)[i] == RequestOf(cfg, states[i], script[i])
    decreases |states|
  {
    hide RequestOf;
    RequestsLength(cfg, states, script);
    if i > 0 { RequestAt(cfg, states[1..], script[1..], i - 1); }
  }

  lemma {:induction false} RequestsLength(cfg: Config, states: seq<Chain>, script: seq<Exchange>)
    requires |states| <= |script|
    ensures |Requests(cfg, states, script)| == |states|
    decreases |states|
  {
    hide RequestOf;
    if states != [] { RequestsLength(cfg, states[1..], script[1..]); }
  }
}
