/** Cookie jars: lists that behave as maps (sections 5.3 and 5.4 of RFC 6265). */
module Jar {
  import opened Text
  import opened Sorting
  import opened Cookies

  // ---------- a jar as a list ----------

  function Others(id: Identity): Cookie -> bool {
    (c: Cookie) => c.Id() != id
  }

  /** Drop the cookies of the same identity, then add the new one unless it has
      already expired. */
  function InsertCookie(jar: seq<Cookie>, c: Cookie, nowMs: nat): seq<Cookie> {
    Filter(Others(c.Id()), jar) + (if c.IsExpired(nowMs) then [] else [c])
  }

  /** A `Set-Cookie` value with the clock readings taken while it is parsed and while
      it is stored. */
  datatype SetCookie = SetCookie(header: string, parsedAt: nat, storedAt: nat)

  /** A `Set-Cookie` value and where it came from. */
  datatype Arrival = Arrival(from: SetCookie, host: string, path: string)
  {
    function Parsed(httpDate: string -> Option<nat>): Option<Cookie> {
      ParseCookie(from.header, host, path, from.parsedAt, httpDate)
    }
  }

  function Record(jar: seq<Cookie>, arrivals: seq<Arrival>, httpDate: string -> Option<nat>): seq<Cookie>
    decreases |arrivals|
  {
    if arrivals == [] then jar
    else
      var last := arrivals[|arrivals| - 1];
      var before := Record(jar, arrivals[..|arrivals| - 1], httpDate);
      match last.Parsed(httpDate)
      case None => before
      case Some(c) => InsertCookie(before, c, last.from.storedAt)
  }

  function ArrivalsOf(cookies: seq<SetCookie>, host: string, path: string): seq<Arrival> {
    Map((s: SetCookie) => Arrival(s, host, path), cookies)
  }

  function LongerPath(): (Cookie, Cookie) -> bool {
    (c: Cookie, d: Cookie) => ByteLength(c.path) >= ByteLength(d.path)
  }

  function Sendable(host: string, path: string, isSecure: bool, nowMs: nat): Cookie -> bool {
    (c: Cookie) => !c.IsExpired(nowMs) && c.Matches(host, path, isSecure)
  }

  /** The cookies a request gets, in the order they are sent. */
  function Matching(jar: seq<Cookie>, host: string, path: string, isSecure: bool, nowMs: nat): seq<Cookie> {
    Sort(LongerPath(), Filter(Sendable(host, path, isSecure, nowMs), jar))
  }

  function Pair(c: Cookie): string {
    c.name + "=" + c.value
  }

  function Pairs(cs: seq<Cookie>): seq<string> {
    Map(Pair, cs)
  }

  function HeaderOf(cs: seq<Cookie>): Option<string> {
    if cs == [] then None else Some(Join(Pairs(cs), "; "))
  }

  function Live(nowMs: nat): Cookie -> bool {
    (c: Cookie) => !c.IsExpired(nowMs)
  }

  // ---------- a jar as a map ----------

  ghost predicate Unique(jar: seq<Cookie>) {
    forall i, j :: 0 <= i < j < |jar| ==> jar[i].Id() != jar[j].Id()
  }

  function AsMap(jar: seq<Cookie>): map<Identity, Cookie> {
    if jar == [] then map[] else AsMap(jar[..|jar| - 1])[jar[|jar| - 1].Id() := jar[|jar| - 1]]
  }

  /** Putting the front and the last cookie of a jar apart. */
  lemma UniqueParts(jar: seq<Cookie>)
    requires Unique(jar) && jar != []
    ensures var front, last := jar[..|jar| - 1], jar[|jar| - 1];
            && Unique(front)
            && (forall c :: c in jar <==> c in front || c == last)
            && (forall c :: c in front ==> c.Id() != last.Id())
  {
    hide Cookie.Id;
    var front, last := jar[..|jar| - 1], jar[|jar| - 1];
    assert jar == front + [last];
    forall c | c in front ensures c.Id() != last.Id() {
      var i :| 0 <= i < |front| && front[i] == c;
      assert jar[i].Id() != jar[|jar| - 1].Id();
    }
  }

  /** A map of cookies by identity holds exactly the cookies of a jar. */
  ghost predicate HeldBy(m: map<Identity, Cookie>, jar: seq<Cookie>) {
    && (forall c :: c in jar <==> c.Id() in m && m[c.Id()] == c)
    && (forall id :: id in m ==> m[id] in jar && m[id].Id() == id)
  }

  lemma OneMoreHeld(m: map<Identity, Cookie>, front: seq<Cookie>, last: Cookie, jar: seq<Cookie>)
    requires HeldBy(m, front)
    requires (forall c :: c in jar <==> c in front || c == last) && (forall c :: c in front ==> c.Id() != last.Id())
    ensures HeldBy(m[last.Id() := last], jar)
  {
    hide Cookie.Id;
  }

  lemma {:induction false} AsMapMembers(jar: seq<Cookie>)
    requires Unique(jar)
    ensures HeldBy(AsMap(jar), jar)
    decreases |jar|
  {
    if jar != [] {
      hide HeldBy, Unique, Cookie.Id;
      var front, last := jar[..|jar| - 1], jar[|jar| - 1];
      UniqueParts(jar);
      AsMapMembers(front);
      OneMoreHeld(AsMap(front), front, last, jar);
    }
  }

  lemma {:induction false} FilterUnique(p: Cookie -> bool, jar: seq<Cookie>)
    requires Unique(jar)
    ensures Unique(Filter(p, jar))
  {
    if jar != [] {
      FilterUnique(p, jar[1..]);
      var rest := Filter(p, jar[1..]);
      forall j | 0 <= j < |rest| ensures rest[j].Id() != jar[0].Id() {
        assert rest[j] in rest;
        var k :| 0 <= k < |jar[1..]| && jar[1..][k] == rest[j];
        assert jar[k + 1] == rest[j];
      }
    }
  }

  lemma InsertUnique(jar: seq<Cookie>, c: Cookie, nowMs: nat)
    requires Unique(jar)
    ensures Unique(InsertCookie(jar, c, nowMs))
  {
    var kept := Filter(Others(c.Id()), jar);
    FilterUnique(Others(c.Id()), jar);
    assert forall i :: 0 <= i < |kept| ==> kept[i] in kept;
  }

  /** Inserting is writing the map: a live cookie replaces, an expired one deletes. */
  lemma InsertRefinesMap(jar: seq<Cookie>, c: Cookie, nowMs: nat)
    requires Unique(jar)
    ensures AsMap(InsertCookie(jar, c, nowMs))
            == if c.IsExpired(nowMs) then AsMap(jar) - {c.Id()} else AsMap(jar)[c.Id() := c]
  {
    hide AsMap, InsertCookie;
    var jar' := InsertCookie(jar, c, nowMs);
    InsertUnique(jar, c, nowMs);
    InsertMembers(jar, c, nowMs);
    AsMapMembers(jar);
    AsMapMembers(jar');
    var m, m' := AsMap(jar), AsMap(jar');
    var goal := if c.IsExpired(nowMs) then m - {c.Id()} else m[c.Id() := c];
    forall id ensures id in m' <==> id in goal {
      if id in m' { assert m'[id] in jar'; }
      if id in goal { assert goal[id] in jar'; }
    }
    forall id | id in m' ensures m'[id] == goal[id] {
      assert m'[id] in jar';
    }
  }

  lemma InsertMembers(jar: seq<Cookie>, c: Cookie, nowMs: nat)
    ensures forall d :: d in InsertCookie(jar, c, nowMs) <==>
              (d in jar && d.Id() != c.Id()) || (d == c && !c.IsExpired(nowMs))
  {
  }

  lemma {:induction false} RecordUnique(jar: seq<Cookie>, arrivals: seq<Arrival>, httpDate: string -> Option<nat>)
    requires Unique(jar)
    ensures Unique(Record(jar, arrivals, httpDate))
    decreases |arrivals|
  {
    if arrivals != [] {
      var last := arrivals[|arrivals| - 1];
      RecordUnique(jar, arrivals[..|arrivals| - 1], httpDate);
      if last.Parsed(httpDate).Some? {
        InsertUnique(Record(jar, arrivals[..|arrivals| - 1], httpDate), last.Parsed(httpDate).value, last.from.storedAt);
      }
    }
  }

  /** Arrival `k` set `c`, it was live when stored, and nothing later had its identity. */
  ghost predicate SetLast(arrivals: seq<Arrival>, k: int, c: Cookie, httpDate: string -> Option<nat>) {
    && 0 <= k < |arrivals|
    && arrivals[k].Parsed(httpDate) == Some(c)
    && !c.IsExpired(arrivals[k].from.storedAt)
    && forall j :: k < j < |arrivals| && arrivals[j].Parsed(httpDate).Some? ==> arrivals[j].Parsed(httpDate).value.Id() != c.Id()
  }

  ghost predicate Replaces(a: Arrival, c: Cookie, httpDate: string -> Option<nat>) {
    a.Parsed(httpDate).Some? && a.Parsed(httpDate).value.Id() == c.Id()
  }

  lemma SetLastStep(arrivals: seq<Arrival>, k: int, c: Cookie, httpDate: string -> Option<nat>)
    requires arrivals != []
    ensures var n := |arrivals| - 1;
            SetLast(arrivals, k, c, httpDate)
            <==> || (k == n && arrivals[n].Parsed(httpDate) == Some(c) && !c.IsExpired(arrivals[n].from.storedAt))
                 || (SetLast(arrivals[..n], k, c, httpDate) && !Replaces(arrivals[n], c, httpDate))
  {
    hide ParseCookie, Cookie.IsExpired, Arrival.Parsed;
    var n := |arrivals| - 1;
    var front := arrivals[..n];
    assert forall j :: 0 <= j < n ==> front[j] == arrivals[j];
    if SetLast(arrivals, k, c, httpDate) && k < n {
      assert front[k] == arrivals[k] && !Replaces(arrivals[n], c, httpDate);
      assert SetLast(front, k, c, httpDate);
    }
    if SetLast(front, k, c, httpDate) && !Replaces(arrivals[n], c, httpDate) {
      assert front[k] == arrivals[k];
      assert SetLast(arrivals, k, c, httpDate);
    }
  }

  /** No arrival had the identity of `c`. */
  ghost predicate NeverReplaced(arrivals: seq<Arrival>, c: Cookie, httpDate: string -> Option<nat>) {
    forall j :: 0 <= j < |arrivals| ==> !Replaces(arrivals[j], c, httpDate)
  }

  lemma NeverReplacedStep(arrivals: seq<Arrival>, c: Cookie, httpDate: string -> Option<nat>)
    requires arrivals != []
    ensures var n := |arrivals| - 1;
            NeverReplaced(arrivals, c, httpDate)
            <==> NeverReplaced(arrivals[..n], c, httpDate) && !Replaces(arrivals[n], c, httpDate)
  {
    hide Replaces;
    var n := |arrivals| - 1;
    assert forall j :: 0 <= j < n ==> arrivals[..n][j] == arrivals[j];
  }

  /** A jar after arrivals holds exactly the cookies that some arrival set last, and
      those it held before that no arrival replaced. */
  lemma {:induction false} RecordedIffSetLast(jar: seq<Cookie>, arrivals: seq<Arrival>, c: Cookie, httpDate: string -> Option<nat>)
    ensures c in Record(jar, arrivals, httpDate)
            <==> (exists k :: SetLast(arrivals, k, c, httpDate)) || (c in jar && NeverReplaced(arrivals, c, httpDate))
    decreases |arrivals|
  {
    if arrivals != [] {
      hide InsertCookie, Cookie.IsExpired, ParseCookie, SetLast, Arrival.Parsed, NeverReplaced;
      var n := |arrivals| - 1;
      var front, last := arrivals[..n], arrivals[n];
      RecordedIffSetLast(jar, front, c, httpDate);
      NeverReplacedStep(arrivals, c, httpDate);
      if last.Parsed(httpDate).Some? {
        InsertMembers(Record(jar, front, httpDate), last.Parsed(httpDate).value, last.from.storedAt);
      }
      if k :| SetLast(arrivals, k, c, httpDate) {
        SetLastStep(arrivals, k, c, httpDate);
      }
      if k :| SetLast(front, k, c, httpDate) {
        SetLastStep(arrivals, k, c, httpDate);
      }
      SetLastStep(arrivals, n, c, httpDate);
      NotYetSet(front, n, c, httpDate);
    }
  }

  lemma NotYetSet(front: seq<Arrival>, n: nat, c: Cookie, httpDate: string -> Option<nat>)
    requires n >= |front|
    ensures !SetLast(front, n, c, httpDate)
  {
  }

  // ---------- what is sent ----------

  lemma LongerPathTotal()
    ensures TotalOrder(LongerPath())
  {
  }

  ghost predicate SamePathLength(n: nat, c: Cookie) {
    ByteLength(c.path) == n
  }

  /** The header lists exactly the live matching cookies, longest path first, and
      those of one path length in the order of the jar. */
  lemma MatchingIsStableOrder(jar: seq<Cookie>, host: string, path: string, isSecure: bool, nowMs: nat, n: nat)
    ensures var sent := Matching(jar, host, path, isSecure, nowMs);
            && multiset(sent) == multiset(Filter(Sendable(host, path, isSecure, nowMs), jar))
            && (forall i, j :: 0 <= i < j < |sent| ==> ByteLength(sent[i].path) >= ByteLength(sent[j].path))
            && Filter((c: Cookie) => SamePathLength(n, c), sent)
               == Filter((c: Cookie) => SamePathLength(n, c), Filter(Sendable(host, path, isSecure, nowMs), jar))
  {
    LongerPathTotal();
    var live := Filter(Sendable(host, path, isSecure, nowMs), jar);
    SortOrdered(LongerPath(), live);
    SortStable(LongerPath(), (c: Cookie) => SamePathLength(n, c), live);
    assert forall i, j :: 0 <= i < j < |Sort(LongerPath(), live)| ==>
             LongerPath()(Sort(LongerPath(), live)[i], Sort(LongerPath(), live)[j]);
  }

  lemma PruneChangesNoMatch(jar: seq<Cookie>, prunedAt: nat, host: string, path: string, isSecure: bool, nowMs: nat)
    requires prunedAt <= nowMs
    ensures Matching(Filter(Live(prunedAt), jar), host, path, isSecure, nowMs) == Matching(jar, host, path, isSecure, nowMs)
  {
    FilterFilter(Live(prunedAt), Sendable(host, path, isSecure, nowMs), Sendable(host, path, isSecure, nowMs), jar);
  }

  /** Dropping what has expired and storing a later cookie commute. */
  lemma PruneThenInsert(jar: seq<Cookie>, prunedAt: nat, c: Cookie, nowMs: nat)
    requires prunedAt <= nowMs
    ensures Filter(Live(prunedAt), InsertCookie(jar, c, nowMs)) == InsertCookie(Filter(Live(prunedAt), jar), c, nowMs)
  {
    var others, live := Others(c.Id()), Live(prunedAt);
    var both := (d: Cookie) => others(d) && live(d);
    FilterFilter(others, live, both, jar);
    FilterFilter(live, others, both, jar);
    FilterAppend(live, Filter(others, jar), if c.IsExpired(nowMs) then [] else [c]);
    assert [c][1..] == [];
  }

  lemma {:induction false} PruneThenRecord(jar: seq<Cookie>, prunedAt: nat, arrivals: seq<Arrival>, httpDate: string -> Option<nat>)
    requires forall a :: a in arrivals ==> prunedAt <= a.from.storedAt
    ensures Filter(Live(prunedAt), Record(jar, arrivals, httpDate)) == Record(Filter(Live(prunedAt), jar), arrivals, httpDate)
    decreases |arrivals|
  {
    if arrivals != [] {
      hide ParseCookie, Arrival.Parsed, InsertCookie, Filter;
      var n := |arrivals| - 1;
      assert arrivals[n] in arrivals;
      PruneThenRecord(jar, prunedAt, arrivals[..n], httpDate);
      if arrivals[n].Parsed(httpDate).Some? {
        PruneThenInsert(Record(jar, arrivals[..n], httpDate), prunedAt, arrivals[n].Parsed(httpDate).value, arrivals[n].from.storedAt);
      }
    }
  }

  /** Dropping what has expired changes no header from then on, whatever cookies are
      stored in between. */
  lemma PruneChangesNoHeader(jar: seq<Cookie>, prunedAt: nat, arrivals: seq<Arrival>, httpDate: string -> Option<nat>,
                             host: string, path: string, isSecure: bool, nowMs: nat)
    requires prunedAt <= nowMs && forall a :: a in arrivals ==> prunedAt <= a.from.storedAt
    ensures Matching(Record(Filter(Live(prunedAt), jar), arrivals, httpDate), host, path, isSecure, nowMs)
            == Matching(Record(jar, arrivals, httpDate), host, path, isSecure, nowMs)
  {
    hide Matching, Record, Filter;
    PruneThenRecord(jar, prunedAt, arrivals, httpDate);
    PruneChangesNoMatch(Record(jar, arrivals, httpDate), prunedAt, host, path, isSecure, nowMs);
  }
}
