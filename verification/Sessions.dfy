/** The store of cookie jars, by the name of their session. */
module Sessions {
  import opened Text
  import opened Cookies
  import opened Jar

  /** The jar of a session; a session nobody has stored into has none. */
  function JarIn(sessions: map<string, seq<Cookie>>, session: string): seq<Cookie> {
    if session in sessions then sessions[session] else []
  }

  predicate SetsSome(arrivals: seq<Arrival>, httpDate: string -> Option<nat>) {
    exists i :: 0 <= i < |arrivals| && arrivals[i].Parsed(httpDate).Some?
  }

  /** Absorb arrivals into one session; nothing is touched when none of them parses. */
  function RecordInto(sessions: map<string, seq<Cookie>>, session: string, arrivals: seq<Arrival>,
                      httpDate: string -> Option<nat>): map<string, seq<Cookie>>
  {
    if SetsSome(arrivals, httpDate)
    then sessions[session := Record(JarIn(sessions, session), arrivals, httpDate)]
    else sessions
  }

  /** The arrivals that are cookies. */
  function Readable(httpDate: string -> Option<nat>): Arrival -> bool {
    (a: Arrival) => a.Parsed(httpDate).Some?
  }

  /** Where expired cookies stand in the jars of some sessions. */
  ghost function ExpiredPlaces(sessions: map<string, seq<Cookie>>, names: set<string>, nowMs: nat): set<(string, int)> {
    set s, i | s in names && s in sessions && 0 <= i < |sessions[s]| && sessions[s][i].IsExpired(nowMs) :: (s, i)
  }

  ghost predicate AllUnique(sessions: map<string, seq<Cookie>>) {
    forall s :: s in sessions ==> Unique(sessions[s])
  }

  lemma {:induction false} RecordNothing(jar: seq<Cookie>, arrivals: seq<Arrival>, httpDate: string -> Option<nat>)
    requires forall i :: 0 <= i < |arrivals| ==> arrivals[i].Parsed(httpDate).None?
    ensures Record(jar, arrivals, httpDate) == jar
    decreases |arrivals|
  {
    if arrivals != [] {
      hide ParseCookie, Arrival.Parsed, InsertCookie;
      RecordNothing(jar, arrivals[..|arrivals| - 1], httpDate);
    }
  }

  lemma RecordIntoKeeps(sessions: map<string, seq<Cookie>>, session: string, arrivals: seq<Arrival>,
                        httpDate: string -> Option<nat>)
    ensures JarIn(RecordInto(sessions, session, arrivals, httpDate), session)
            == Record(JarIn(sessions, session), arrivals, httpDate)
    ensures forall s :: s != session ==>
              JarIn(RecordInto(sessions, session, arrivals, httpDate), s) == JarIn(sessions, s)
    ensures AllUnique(sessions) ==> AllUnique(RecordInto(sessions, session, arrivals, httpDate))
  {
    hide ParseCookie, Arrival.Parsed, Record;
    if !SetsSome(arrivals, httpDate) {
      RecordNothing(JarIn(sessions, session), arrivals, httpDate);
    }
    if AllUnique(sessions) { RecordUnique(JarIn(sessions, session), arrivals, httpDate); }
  }

  class SessionStore {
    var sessions: map<string, seq<Cookie>>

    ghost predicate Valid()
      reads this
    {
      AllUnique(sessions)
    }

    constructor ()
      ensures Valid() && sessions == map[]
    {
      sessions := map[];
    }

    /** Store one cookie in a session's jar. */
    method InsertOne(session: string, cookie: Cookie, nowMs: nat)
      requires Valid()
      modifies this
      ensures Valid()
      ensures sessions == old(sessions)[session := InsertCookie(JarIn(old(sessions), session), cookie, nowMs)]
    {
      var jar := JarIn(sessions, session);
      InsertUnique(jar, cookie, nowMs);
      jar := Filter(Others(cookie.Id()), jar);
      if !cookie.IsExpired(nowMs) {
        jar := jar + [cookie];
      } else {
        assert jar + [] == jar;
      }
      sessions := sessions[session := jar];
    }

    /** Store what a reply sets, value by value. */
    method RecordSetCookies(session: string, cookies: seq<SetCookie>, host: string, path: string,
                            httpDate: string -> Option<nat>) returns (recorded: nat)
      requires Valid()
      modifies this
      ensures Valid()
      ensures sessions == RecordInto(old(sessions), session, ArrivalsOf(cookies, host, path), httpDate)
      ensures recorded == |Filter(Readable(httpDate), ArrivalsOf(cookies, host, path))|
    {
      hide ParseCookie, InsertCookie, AllUnique, Filter, Record;
      recorded := 0;
      ghost var arrivals := ArrivalsOf(cookies, host, path);
      NothingFiltered(Readable(httpDate));
      for i := 0 to |cookies|
        invariant Valid()
        invariant recorded == |Filter(Readable(httpDate), arrivals[..i])|
        invariant sessions == RecordInto(old(sessions), session, arrivals[..i], httpDate)
      {
        ghost var before := sessions;
        RecordOneMore(old(sessions), session, arrivals, i, httpDate);
        FilterSnoc(Readable(httpDate), arrivals, i);
        var parsed := Parse(cookies[i].header, host, path, cookies[i].parsedAt, httpDate);
        if parsed.Some? {
          InsertOne(session, parsed.value, cookies[i].storedAt);
          recorded := recorded + 1;
        }
      }
      assert arrivals[..|cookies|] == arrivals;
    }

    /** What a session sends to a URL. */
    method CookieHeader(session: string, host: string, path: string, isSecure: bool, nowMs: nat)
      returns (header: Option<string>)
      requires Valid()
      ensures header == HeaderOf(Matching(JarIn(sessions, session), host, path, isSecure, nowMs))
    {
      if session !in sessions {
        return None;
      }
      var matching := Matching(sessions[session], host, path, isSecure, nowMs);
      if matching == [] {
        return None;
      }
      header := Some(Join(Pairs(matching), "; "));
    }

    /** Take the expired cookies out of all jars and say how many there were. */
    method Prune(nowMs: nat) returns (removed: nat)
      requires Valid()
      modifies this
      ensures Valid()
      ensures sessions == map s | s in old(sessions) :: Filter(Live(nowMs), old(sessions)[s])
      ensures removed == |ExpiredPlaces(old(sessions), old(sessions).Keys, nowMs)|
    {
      hide Filter, AllUnique, ExpiredPlaces, Live, PartlyPruned;
      ghost var before := sessions;
      removed := 0;
      var todo := sessions.Keys;
      NoPlaces(before, nowMs);
      NothingPruned(before, nowMs);
      assert before.Keys - todo == {};
      while todo != {}
        invariant todo <= sessions.Keys == before.Keys && PartlyPruned(before, sessions, todo, nowMs)
        invariant removed == |ExpiredPlaces(before, before.Keys - todo, nowMs)|
        decreases |todo|
      {
        var s :| s in todo;
        var jar := Filter(Live(nowMs), sessions[s]);
        OneMoreSession(before, before.Keys - todo, s, nowMs);
        PruneStep(before, sessions, todo, s, nowMs);
        assert before.Keys - (todo - {s}) == before.Keys - todo + {s};
        removed := removed + (|sessions[s]| - |jar|);
        sessions := sessions[s := jar];
        todo := todo - {s};
      }
      assert before.Keys - todo == before.Keys;
      AllPruned(before, sessions, nowMs);
      PruneKeepsUnique(before, sessions, nowMs);
    }
  }

  /** Every session has its live cookies, but those still to do, which have all. */
  ghost predicate PartlyPruned(before: map<string, seq<Cookie>>, now: map<string, seq<Cookie>>, todo: set<string>, nowMs: nat) {
    && now.Keys == before.Keys
    && forall s :: s in before ==> now[s] == if s in todo then before[s] else Filter(Live(nowMs), before[s])
  }

  lemma NothingPruned(before: map<string, seq<Cookie>>, nowMs: nat)
    ensures PartlyPruned(before, before, before.Keys, nowMs)
  {
  }

  lemma PruneStep(before: map<string, seq<Cookie>>, now: map<string, seq<Cookie>>, todo: set<string>, s: string, nowMs: nat)
    requires PartlyPruned(before, now, todo, nowMs) && s in todo && todo <= before.Keys
    ensures now[s] == before[s]
    ensures PartlyPruned(before, now[s := Filter(Live(nowMs), now[s])], todo - {s}, nowMs)
  {
    hide Filter;
  }

  lemma AllPruned(before: map<string, seq<Cookie>>, now: map<string, seq<Cookie>>, nowMs: nat)
    requires PartlyPruned(before, now, {}, nowMs)
    ensures now == map s | s in before :: Filter(Live(nowMs), before[s])
  {
    hide Filter;
  }

  lemma NoPlaces(sessions: map<string, seq<Cookie>>, nowMs: nat)
    ensures ExpiredPlaces(sessions, {}, nowMs) == {}
  {
  }

  ghost function PlacesIn(name: string, jar: seq<Cookie>, nowMs: nat): set<(string, int)> {
    set i | 0 <= i < |jar| && jar[i].IsExpired(nowMs) :: (name, i)
  }

  lemma PlacesSnoc(name: string, front: seq<Cookie>, last: Cookie, nowMs: nat)
    ensures PlacesIn(name, front + [last], nowMs)
            == PlacesIn(name, front, nowMs) + (if last.IsExpired(nowMs) then {(name, |front|)} else {})
    ensures (name, |front|) !in PlacesIn(name, front, nowMs)
  {
    hide Cookie.IsExpired;
    var jar := front + [last];
    assert jar[|front|] == last && forall i :: 0 <= i < |front| ==> jar[i] == front[i];
  }

  lemma {:induction false} PlacesCount(name: string, jar: seq<Cookie>, nowMs: nat)
    ensures |PlacesIn(name, jar, nowMs)| == |jar| - |Filter(Live(nowMs), jar)|
    decreases |jar|
  {
    if jar == [] {
      assert PlacesIn(name, jar, nowMs) == {};
    } else {
      hide Cookie.IsExpired, Filter, PlacesIn;
      var n := |jar| - 1;
      PlacesCount(name, jar[..n], nowMs);
      assert jar[..n + 1] == jar && jar == jar[..n] + [jar[n]];
      FilterSnoc(Live(nowMs), jar, n);
      PlacesSnoc(name, jar[..n], jar[n], nowMs);
    }
  }

  lemma OneMoreSession(sessions: map<string, seq<Cookie>>, names: set<string>, name: string, nowMs: nat)
    requires name in sessions && name !in names
    ensures |ExpiredPlaces(sessions, names + {name}, nowMs)|
            == |ExpiredPlaces(sessions, names, nowMs)| + |sessions[name]| - |Filter(Live(nowMs), sessions[name])|
  {
    hide Cookie.IsExpired, Filter;
    PlacesCount(name, sessions[name], nowMs);
    assert ExpiredPlaces(sessions, names + {name}, nowMs)
           == ExpiredPlaces(sessions, names, nowMs) + PlacesIn(name, sessions[name], nowMs);
  }

  lemma RecordOneMore(sessions: map<string, seq<Cookie>>, session: string, arrivals: seq<Arrival>, i: nat,
                      httpDate: string -> Option<nat>)
    requires i < |arrivals|
    ensures var before := RecordInto(sessions, session, arrivals[..i], httpDate);
            var parsed := arrivals[i].Parsed(httpDate);
            RecordInto(sessions, session, arrivals[..i + 1], httpDate)
            == if parsed.None? then before
               else before[session := InsertCookie(JarIn(before, session), parsed.value, arrivals[i].from.storedAt)]
  {
    hide ParseCookie, InsertCookie, Arrival.Parsed;
    var more := arrivals[..i + 1];
    assert more[..i] == arrivals[..i] && more[i] == arrivals[i];
    RecordIntoKeeps(sessions, session, arrivals[..i], httpDate);
    var jar := JarIn(sessions, session);
    if arrivals[i].Parsed(httpDate).None? {
      assert Record(jar, more, httpDate) == Record(jar, arrivals[..i], httpDate);
      SomeParsed(arrivals, i, httpDate);
    } else {
      assert more[i].Parsed(httpDate).Some?;
    }
  }

  lemma SomeParsed(arrivals: seq<Arrival>, i: nat, httpDate: string -> Option<nat>)
    requires i < |arrivals| && arrivals[i].Parsed(httpDate).None?
    ensures SetsSome(arrivals[..i + 1], httpDate) <==> SetsSome(arrivals[..i], httpDate)
  {
    hide Arrival.Parsed;
    var more, fewer := arrivals[..i + 1], arrivals[..i];
    assert more == fewer + [arrivals[i]];
    if SetsSome(more, httpDate) {
      var k :| 0 <= k < |more| && more[k].Parsed(httpDate).Some?;
      assert fewer[k] == more[k];
    }
    if SetsSome(fewer, httpDate) {
      var k :| 0 <= k < |fewer| && fewer[k].Parsed(httpDate).Some?;
      assert more[k] == fewer[k];
    }
  }

  lemma PruneKeepsUnique(before: map<string, seq<Cookie>>, after: map<string, seq<Cookie>>, nowMs: nat)
    requires AllUnique(before) && after == map s | s in before :: Filter(Live(nowMs), before[s])
    ensures AllUnique(after)
  {
    forall s | s in after ensures Unique(after[s]) { FilterUnique(Live(nowMs), before[s]); }
  }
}
