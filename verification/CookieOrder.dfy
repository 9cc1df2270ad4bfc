/** The place of a cookie that is set again, against section 5.3 of RFC 6265. */
module CookieOrder {
  import opened Text
  import opened Sorting
  import opened Cookies
  import opened Jar

  /** What section 5.3 of RFC 6265 asks: a cookie set again keeps the place of the one
      it replaces, as it keeps its creation time. */
  function InsertInPlace(jar: seq<Cookie>, c: Cookie): seq<Cookie> {
    if jar == [] then [c]
    else if jar[0].Id() == c.Id() then [c] + jar[1..]
    else [jar[0]] + InsertInPlace(jar[1..], c)
  }

  lemma OthersAt(jar: seq<Cookie>, i: nat, c: Cookie)
    requires i < |jar| && Unique(jar) && jar[i].Id() == c.Id()
    ensures jar == jar[..i] + [jar[i]] + jar[i + 1..]
    ensures forall d :: d in jar[..i] || d in jar[i + 1..] ==> d.Id() != c.Id()
  {
    hide Cookie.Id;
    var front, back := jar[..i], jar[i + 1..];
    forall d | d in front ensures d.Id() != c.Id() {
      var j :| 0 <= j < |front| && front[j] == d;
      assert jar[j] == d;
    }
    forall d | d in back ensures d.Id() != c.Id() {
      var j :| 0 <= j < |back| && back[j] == d;
      assert jar[i + 1 + j] == d;
    }
  }

  lemma InPlaceAt(jar: seq<Cookie>, i: nat, c: Cookie)
    requires i < |jar| && Unique(jar) && jar[i].Id() == c.Id()
    ensures InsertInPlace(jar, c) == jar[..i] + [c] + jar[i + 1..]
    ensures Filter(Others(c.Id()), jar) == jar[..i] + jar[i + 1..]
  {
    hide InsertInPlace, Filter, Unique, Cookie.Id;
    OthersAt(jar, i, c);
    var front, back, p := jar[..i], jar[i + 1..], Others(c.Id());
    InPlaceAfter(front, jar[i], back, c);
    FilterParts(front, jar[i], back, p);
    FilterAll(p, front);
    FilterAll(p, back);
    assert front + [] == front;
  }

  lemma InPlaceStep(d: Cookie, rest: seq<Cookie>, c: Cookie)
    ensures InsertInPlace([d] + rest, c) == if d.Id() == c.Id() then [c] + rest else [d] + InsertInPlace(rest, c)
  {
    assert ([d] + rest)[1..] == rest;
  }

  lemma {:induction false} InPlaceAfter(front: seq<Cookie>, held: Cookie, back: seq<Cookie>, c: Cookie)
    requires held.Id() == c.Id() && forall d :: d in front ==> d.Id() != c.Id()
    ensures InsertInPlace(front + [held] + back, c) == front + [c] + back
  {
    hide InsertInPlace;
    if front == [] {
      assert front + [held] + back == [held] + back && front + [c] + back == [c] + back;
      InPlaceStep(held, back, c);
    } else {
      var rest := front[1..] + [held] + back;
      assert front + [held] + back == [front[0]] + rest;
      assert front + [c] + back == [front[0]] + (front[1..] + [c] + back);
      InPlaceStep(front[0], rest, c);
      InPlaceAfter(front[1..], held, back, c);
    }
  }

  /** What decides the place: a cookie sent from behind it with a path as long. */
  predicate TiedBehind(back: seq<Cookie>, c: Cookie, host: string, path: string, isSecure: bool, nowMs: nat) {
    exists d :: d in back && Sendable(host, path, isSecure, nowMs)(d) && ByteLength(d.path) == ByteLength(c.path)
  }

  lemma FilterParts(front: seq<Cookie>, c: Cookie, back: seq<Cookie>, p: Cookie -> bool)
    ensures Filter(p, front + [c] + back) == Filter(p, front) + (if p(c) then [c] else []) + Filter(p, back)
    ensures Filter(p, front + back + [c]) == Filter(p, front) + Filter(p, back) + (if p(c) then [c] else [])
  {
    hide Filter;
    FilterAppend(p, front + [c], back);
    FilterAppend(p, front, [c]);
    FilterAppend(p, front + back, [c]);
    FilterAppend(p, front, back);
    FilterHead(p, [c]);
    NothingFiltered(p);
    assert [c][1..] == [] && [c] + [] == [c];
  }

  lemma SameLengthIsTied(c: Cookie, d: Cookie)
    ensures Tied(LongerPath(), c, d) <==> ByteLength(c.path) == ByteLength(d.path)
  {
  }

  lemma NotTiedMovesBack(front: seq<Cookie>, c: Cookie, back: seq<Cookie>)
    requires forall d :: d in back ==> ByteLength(d.path) != ByteLength(c.path)
    ensures Sort(LongerPath(), front + [c] + back) == Sort(LongerPath(), front + back + [c])
  {
    hide Sort, LongerPath, ByteLength, Tied;
    LongerPathTotal();
    forall d | d in back ensures !Tied(LongerPath(), c, d) { SameLengthIsTied(c, d); }
    SortMovesBack(LongerPath(), c, back);
    SortAfter(LongerPath(), front, [c] + back, back + [c]);
    assert front + ([c] + back) == front + [c] + back && front + (back + [c]) == front + back + [c];
  }

  function AsLong(n: nat): Cookie -> bool {
    (c: Cookie) => ByteLength(c.path) == n
  }

  lemma TiedStaysFront(front: seq<Cookie>, c: Cookie, back: seq<Cookie>)
    requires c !in back && exists d :: d in back && ByteLength(d.path) == ByteLength(c.path)
    ensures Sort(LongerPath(), front + [c] + back) != Sort(LongerPath(), front + back + [c])
  {
    hide Sort, Filter, LongerPath;
    var p := AsLong(ByteLength(c.path));
    AsLongTied(ByteLength(c.path));
    SortStable(LongerPath(), p, front + [c] + back);
    SortStable(LongerPath(), p, front + back + [c]);
    FilterParts(front, c, back, p);
    var a, b := Filter(p, front), Filter(p, back);
    var d :| d in back && ByteLength(d.path) == ByteLength(c.path);
    assert d in b && c !in b;
    assert (a + [c] + b)[|a|] == c && (a + b + [c])[|a|] == b[0] && b[0] in b;
  }

  lemma AsLongTied(n: nat)
    ensures forall x, y :: AsLong(n)(x) && AsLong(n)(y) ==> LongerPath()(x, y)
  {
  }

  /** Setting a live cookie again sends the same cookies in the same order as keeping its
      place would, if and only if it is not sent or no cookie sent from behind its old
      place has a path of the same length. */
  lemma ReplacedOrderIff(jar: seq<Cookie>, i: nat, c: Cookie, storedAt: nat, host: string, path: string, isSecure: bool, nowMs: nat)
    requires Unique(jar) && i < |jar| && jar[i].Id() == c.Id() && !c.IsExpired(storedAt)
    ensures Matching(InsertCookie(jar, c, storedAt), host, path, isSecure, nowMs)
            == Matching(InsertInPlace(jar, c), host, path, isSecure, nowMs)
            <==> !Sendable(host, path, isSecure, nowMs)(c) || !TiedBehind(jar[i + 1..], c, host, path, isSecure, nowMs)
  {
    hide Filter, Sort, LongerPath, Cookie.IsExpired, Cookie.Matches, Sendable, ByteLength, Unique, InsertInPlace;
    var p := Sendable(host, path, isSecure, nowMs);
    var front, back := jar[..i], jar[i + 1..];
    InPlaceAt(jar, i, c);
    FilterParts(front, c, back, p);
    assert InsertCookie(jar, c, storedAt) == front + back + [c];
    if p(c) {
      if TiedBehind(back, c, host, path, isSecure, nowMs) {
        NotBehind(jar, i, c);
        TiedStaysFront(Filter(p, front), c, Filter(p, back));
      } else {
        NotTiedMovesBack(Filter(p, front), c, Filter(p, back));
      }
    } else {
      assert Filter(p, front) + [] == Filter(p, front);
      assert Filter(p, front) + Filter(p, back) + [] == Filter(p, front) + Filter(p, back);
    }
  }

  lemma NotBehind(jar: seq<Cookie>, i: nat, c: Cookie)
    requires Unique(jar) && i < |jar| && jar[i].Id() == c.Id()
    ensures c !in jar[i + 1..]
  {
    var back := jar[i + 1..];
    forall j | 0 <= j < |back| ensures back[j] != c {
      assert back[j] == jar[i + 1 + j];
    }
  }

  /** A cookie set again moves behind cookies set since. */
  lemma ReplacedCookieMovesLast(a: Cookie, a': Cookie, b: Cookie, nowMs: nat)
    requires a.Id() == a'.Id() && a.Id() != b.Id() && !a'.IsExpired(nowMs)
    ensures InsertCookie([a, b], a', nowMs) == [b, a'] && InsertInPlace([a, b], a') == [a', b]
  {
    hide Filter, Cookie.Id, Cookie.IsExpired;
    assert [a, b][1..] == [b] && [b][1..] == [];
    NothingFiltered(Others(a'.Id()));
    FilterHead(Others(a'.Id()), [b]);
    FilterHead(Others(a'.Id()), [a, b]);
  }

  // ---------- a server that sets one cookie twice ----------

  const HOST := "h.test"

  function Sets(header: string, at: nat): Arrival {
    Arrival(SetCookie(header, at, at), HOST, "/")
  }

  /** First `a`, then `b`, then `a` again, all from one path. */
  function SetTwice(): seq<Arrival> {
    [Sets("a=1", 0), Sets("b=2", 1), Sets("a=3", 2)]
  }

  function PlainAt(name: string, value: string): Cookie {
    Cookie(name, value, HOST, "/", true, false, false, None)
  }

  lemma HostIsPlain()
    ensures Lower(HOST) == HOST && Lower(Trim(HOST)) == HOST && DefaultPath("/") == "/"
  {
    hide TrimStart, TrimEnd, Trim, DefaultPath;
    TrimFixed(HOST);
    RootIsItsDirectory();
  }

  lemma RootIsItsDirectory()
    ensures DefaultPath("/") == "/"
  {
    hide TrimStart, TrimEnd;
  }

  lemma ReadsPlain(header: string, name: string, value: string, at: nat, httpDate: string -> Option<nat>)
    requires header == name + "=" + value && CleanText(name, value) && Trimmed(value)
    ensures Sets(header, at).Parsed(httpDate) == Some(PlainAt(name, value))
  {
    hide ParseCookie, CleanText, Trimmed, DefaultPath, Trim, Lower, HOST;
    HostIsPlain();
    PlainCookie(name, value, HOST, "/", at, httpDate);
  }

  lemma RecordLast(front: seq<Arrival>, a: Arrival, c: Cookie, httpDate: string -> Option<nat>)
    requires a.Parsed(httpDate) == Some(c)
    ensures Record([], front + [a], httpDate) == InsertCookie(Record([], front, httpDate), c, a.from.storedAt)
  {
    hide Arrival.Parsed, InsertCookie;
    assert (front + [a])[..|front|] == front;
  }

  lemma InsertTwo(a: Cookie, b: Cookie)
    requires a.Id() != b.Id() && a.expiresMs == None && b.expiresMs == None
    ensures InsertCookie([], a, 0) == [a] && InsertCookie([a], b, 1) == [a, b]
  {
    hide Filter;
    NothingFiltered(Others(a.Id()));
    NothingFiltered(Others(b.Id()));
    assert [a][1..] == [];
    FilterHead(Others(b.Id()), [a]);
  }

  /** Three arrivals of plain cookies, the third replacing the first. */
  lemma RecordThree(x: Arrival, y: Arrival, z: Arrival, a: Cookie, b: Cookie, a': Cookie, httpDate: string -> Option<nat>)
    requires x.Parsed(httpDate) == Some(a) && y.Parsed(httpDate) == Some(b) && z.Parsed(httpDate) == Some(a')
    requires x.from.storedAt == 0 && y.from.storedAt == 1 && z.from.storedAt == 2
    requires a.Id() == a'.Id() && a.Id() != b.Id()
    requires a.expiresMs == None && b.expiresMs == None && a'.expiresMs == None
    ensures Record([], [x, y, z], httpDate) == [b, a']
  {
    hide Arrival.Parsed, InsertCookie, Record, Cookie.Id;
    NothingRecorded(httpDate);
    RecordLast([], x, a, httpDate);
    RecordLast([x], y, b, httpDate);
    RecordLast([x, y], z, a', httpDate);
    assert [] + [x] == [x] && [x] + [y] == [x, y] && [x, y] + [z] == [x, y, z];
    InsertTwo(a, b);
    ReplacedCookieMovesLast(a, a', b, 2);
  }

  lemma NothingRecorded(httpDate: string -> Option<nat>)
    ensures Record([], [], httpDate) == []
  {
  }

  lemma TextsAreClean()
    ensures CleanText("a", "1") && CleanText("b", "2") && CleanText("a", "3")
    ensures Trimmed("1") && Trimmed("2") && Trimmed("3")
  {
  }

  /** What the next request to that host carries, and what it would with the place
      kept: the two headers differ. */
  lemma SetTwiceHeader(httpDate: string -> Option<nat>, nowMs: nat)
    ensures HeaderOf(Matching(Record([], SetTwice(), httpDate), HOST, "/", false, nowMs)) == Some("b=2; a=3")
    ensures HeaderOf(Matching(InsertInPlace([PlainAt("a", "1"), PlainAt("b", "2")], PlainAt("a", "3")), HOST, "/", false, nowMs))
            == Some("a=3; b=2")
  {
    hide Record, Arrival.Parsed, InsertInPlace, InsertCookie, Matching, HeaderOf, CleanText, Trimmed, HOST;
    TextsAreClean();
    ReadsPlain("a=1", "a", "1", 0, httpDate);
    ReadsPlain("b=2", "b", "2", 1, httpDate);
    ReadsPlain("a=3", "a", "3", 2, httpDate);
    RecordThree(Sets("a=1", 0), Sets("b=2", 1), Sets("a=3", 2), PlainAt("a", "1"), PlainAt("b", "2"), PlainAt("a", "3"), httpDate);
    ReplacedCookieMovesLast(PlainAt("a", "1"), PlainAt("a", "3"), PlainAt("b", "2"), 2);
    PlainPairSent("b", "2", "a", "3", nowMs);
    PlainPairSent("a", "3", "b", "2", nowMs);
    assert "b" + "=" + "2" + "; " + ("a" + "=" + "3") == "b=2; a=3";
    assert "a" + "=" + "3" + "; " + ("b" + "=" + "2") == "a=3; b=2";
  }

  lemma PlainPairSent(n: string, v: string, n': string, v': string, nowMs: nat)
    ensures HeaderOf(Matching([PlainAt(n, v), PlainAt(n', v')], HOST, "/", false, nowMs))
            == Some(n + "=" + v + "; " + (n' + "=" + v'))
  {
    hide Cookie.Matches, Filter, HOST;
    var c, d := PlainAt(n, v), PlainAt(n', v');
    PlainMatches(n, v);
    PlainMatches(n', v');
    FilterAll(Sendable(HOST, "/", false, nowMs), [c, d]);
    SortTied(c, d);
    JoinTwo(c, d);
  }

  lemma SortTied(c: Cookie, d: Cookie)
    requires c.path == d.path
    ensures Sort(LongerPath(), [c, d]) == [c, d]
  {
    var none: seq<Cookie> := [];
    assert [c, d][1..] == [d] && [d][1..] == none;
    assert Sort(LongerPath(), none) == none;
    assert [d] + none == [d];
    assert Sort(LongerPath(), [d]) == [d];
    assert [c] + [d] == [c, d];
  }

  lemma JoinTwo(c: Cookie, d: Cookie)
    ensures HeaderOf([c, d]) == Some(Pair(c) + "; " + Pair(d))
  {
    hide Pair;
    var ps := Pairs([c, d]);
    assert ps[1..] == [Pair(d)];
    assert Join([Pair(d)], "; ") == Pair(d);
    assert Join(ps, "; ") == ps[0] + "; " + Join(ps[1..], "; ");
  }

  lemma PlainMatches(n: string, v: string)
    ensures PlainAt(n, v).Matches(HOST, "/", false)
  {
    HostIsPlain();
  }
}
