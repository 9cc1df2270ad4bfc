/** The order of the cookies sent after any run of arrivals, against section 5.3 of
    RFC 6265. */
module CookieRuns {
  import opened Text
  import opened Sorting
  import opened Cookies
  import opened Jar
  import opened CookieOrder

  // ---------- a run that keeps places ----------

  ghost predicate HeldLive(jar: seq<Cookie>, id: Identity, nowMs: nat) {
    exists d :: d in jar && d.Id() == id && !d.IsExpired(nowMs)
  }

  /** Storing as RFC 6265 does: a live cookie that replaces a live one keeps its place. */
  ghost function KeepPlace(jar: seq<Cookie>, c: Cookie, nowMs: nat): seq<Cookie> {
    if !c.IsExpired(nowMs) && HeldLive(jar, c.Id(), nowMs) then InsertInPlace(jar, c) else InsertCookie(jar, c, nowMs)
  }

  ghost function RecordInPlace(arrivals: seq<Arrival>, httpDate: string -> Option<nat>): seq<Cookie>
    decreases |arrivals|
  {
    if arrivals == [] then []
    else
      var last := arrivals[|arrivals| - 1];
      var before := RecordInPlace(arrivals[..|arrivals| - 1], httpDate);
      match last.Parsed(httpDate)
      case None => before
      case Some(c) => KeepPlace(before, c, last.from.storedAt)
  }

  /** Index of the last arrival of an identity, or -1. */
  ghost function SetAt(arrivals: seq<Arrival>, httpDate: string -> Option<nat>): Identity -> int
    decreases |arrivals|
  {
    if arrivals == [] then (id: Identity) => -1
    else
      var n := |arrivals| - 1;
      var before := SetAt(arrivals[..n], httpDate);
      match arrivals[n].Parsed(httpDate)
      case None => before
      case Some(c) => At(before, c.Id(), n)
  }

  /** Index of the arrival that first set a cookie of an identity since the jar last
      held no live one, or -1. */
  ghost function BornAt(arrivals: seq<Arrival>, httpDate: string -> Option<nat>): Identity -> int
    decreases |arrivals|
  {
    if arrivals == [] then (id: Identity) => -1
    else
      var n := |arrivals| - 1;
      var before := BornAt(arrivals[..n], httpDate);
      match arrivals[n].Parsed(httpDate)
      case None => before
      case Some(c) =>
        var now := arrivals[n].from.storedAt;
        if !c.IsExpired(now) && HeldLive(Record([], arrivals[..n], httpDate), c.Id(), now) then before else At(before, c.Id(), n)
  }

  ghost function At(key: Identity -> int, id: Identity, n: int): Identity -> int {
    (i: Identity) => if i == id then n else key(i)
  }

  // ---------- jars in the order of a key ----------

  ghost predicate Increasing(key: Identity -> int, jar: seq<Cookie>) {
    forall i, j :: 0 <= i < j < |jar| ==> key(jar[i].Id()) < key(jar[j].Id())
  }

  ghost predicate Below(key: Identity -> int, n: int) {
    forall id :: key(id) < n
  }

  lemma IncreasingUnique(key: Identity -> int, jar: seq<Cookie>)
    requires Increasing(key, jar)
    ensures Unique(jar)
  {
    hide Cookie.Id;
  }

  lemma IncreasingTail(key: Identity -> int, jar: seq<Cookie>)
    requires Increasing(key, jar) && jar != []
    ensures Increasing(key, jar[1..])
    ensures forall c :: c in jar[1..] ==> key(jar[0].Id()) < key(c.Id())
    ensures forall c :: c in jar <==> c == jar[0] || c in jar[1..]
  {
    hide Cookie.Id;
    var rest := jar[1..];
    assert jar == [jar[0]] + rest;
    forall c | c in rest ensures key(jar[0].Id()) < key(c.Id()) {
      var k :| 0 <= k < |rest| && rest[k] == c;
      assert jar[k + 1] == c;
    }
  }

  lemma IncreasingCons(key: Identity -> int, c: Cookie, rest: seq<Cookie>)
    requires Increasing(key, rest) && forall d :: d in rest ==> key(c.Id()) < key(d.Id())
    ensures Increasing(key, [c] + rest)
  {
    hide Cookie.Id;
    forall j | 0 <= j < |rest| ensures key(c.Id()) < key(rest[j].Id()) {
      assert rest[j] in rest;
    }
  }

  lemma {:induction false} FilterIncreasing(key: Identity -> int, p: Cookie -> bool, jar: seq<Cookie>)
    requires Increasing(key, jar)
    ensures Increasing(key, Filter(p, jar))
  {
    hide Increasing, Filter, Cookie.Id;
    if jar == [] {
      NothingFiltered(p);
    } else {
      IncreasingTail(key, jar);
      FilterIncreasing(key, p, jar[1..]);
      FilterHead(p, jar);
      if p(jar[0]) { IncreasingCons(key, jar[0], Filter(p, jar[1..])); }
    }
  }

  /** The same cookies in the order of one key. */
  lemma {:induction false} SameIncreasing(key: Identity -> int, xs: seq<Cookie>, ys: seq<Cookie>)
    requires Increasing(key, xs) && Increasing(key, ys) && forall c :: c in xs <==> c in ys
    ensures xs == ys
  {
    hide Increasing, Cookie.Id;
    if xs != [] {
      assert xs[0] in ys;
      IncreasingTail(key, xs);
      IncreasingTail(key, ys);
      assert ys[0] in xs;
      SameIncreasing(key, xs[1..], ys[1..]);
      assert xs == [xs[0]] + xs[1..] && ys == [ys[0]] + ys[1..];
    } else {
      NothingIn(ys);
    }
  }

  lemma NothingIn(ys: seq<Cookie>)
    ensures ys != [] ==> ys[0] in ys
  {
  }

  // ---------- the two runs ----------

  lemma AppendIncreasing(key: Identity -> int, jar: seq<Cookie>, c: Cookie, n: int)
    requires Increasing(key, jar) && Below(key, n) && forall d :: d in jar ==> d.Id() != c.Id()
    ensures Increasing(At(key, c.Id(), n), jar + [c]) && Increasing(At(key, c.Id(), n), jar)
  {
    hide Cookie.Id;
    var key' := At(key, c.Id(), n);
    forall i | 0 <= i < |jar| ensures key'(jar[i].Id()) == key(jar[i].Id()) < n {
      assert jar[i] in jar;
    }
  }

  /** Storing last puts a cookie last in the order of arrivals. */
  lemma InsertIncreasing(key: Identity -> int, jar: seq<Cookie>, c: Cookie, nowMs: nat, n: int)
    requires Increasing(key, jar) && Below(key, n)
    ensures Increasing(At(key, c.Id(), n), InsertCookie(jar, c, nowMs))
  {
    hide Increasing, Filter, Cookie.Id, Cookie.IsExpired, Below, At;
    var kept := Filter(Others(c.Id()), jar);
    FilterIncreasing(key, Others(c.Id()), jar);
    AppendIncreasing(key, kept, c, n);
    assert kept + [] == kept;
  }

  lemma BelowAt(key: Identity -> int, id: Identity, n: int)
    requires Below(key, n)
    ensures Below(At(key, id, n), n + 1) && Below(key, n + 1)
  {
  }

  lemma BelowMore(key: Identity -> int, n: int)
    requires Below(key, n)
    ensures Below(key, n + 1)
  {
  }

  lemma NothingOrdered(httpDate: string -> Option<nat>)
    ensures Increasing(SetAt([], httpDate), []) && Below(SetAt([], httpDate), 0)
    ensures Increasing(BornAt([], httpDate), []) && Below(BornAt([], httpDate), 0)
  {
  }

  lemma SameHeld(jar: seq<Cookie>, kept: seq<Cookie>, id: Identity, nowMs: nat)
    requires forall c :: c in jar <==> c in kept
    ensures HeldLive(jar, id, nowMs) <==> HeldLive(kept, id, nowMs)
  {
    hide Cookie.Id, Cookie.IsExpired;
  }

  /** Where a cookie is held, keeping its place keeps the order of any key. */
  lemma InPlaceIncreasing(key: Identity -> int, jar: seq<Cookie>, d: Cookie, c: Cookie)
    requires Increasing(key, jar) && d in jar && d.Id() == c.Id()
    ensures Increasing(key, InsertInPlace(jar, c))
    ensures forall x :: x in InsertInPlace(jar, c) <==> x == c || (x in jar && x.Id() != c.Id())
  {
    hide InsertInPlace, Filter, Cookie.Id, Unique, Increasing;
    IncreasingUnique(key, jar);
    var i :| 0 <= i < |jar| && jar[i] == d;
    InPlaceAt(jar, i, c);
    var kept := jar[..i] + jar[i + 1..];
    assert forall x :: x in kept <==> x in jar && Others(c.Id())(x);
    forall x ensures x in InsertInPlace(jar, c) <==> x == c || (x in jar && x.Id() != c.Id()) {
      assert x in kept <==> x in jar && Others(c.Id())(x);
      assert x in jar[..i] + [c] + jar[i + 1..] <==> x == c || x in kept;
    }
    SameKeys(key, jar, i, c);
  }

  lemma SameKeys(key: Identity -> int, jar: seq<Cookie>, i: nat, c: Cookie)
    requires Increasing(key, jar) && i < |jar| && jar[i].Id() == c.Id()
    ensures Increasing(key, jar[..i] + [c] + jar[i + 1..])
  {
    hide Cookie.Id;
    var jar' := jar[..i] + [c] + jar[i + 1..];
    assert forall k :: 0 <= k < |jar'| ==> jar'[k].Id() == jar[k].Id();
  }

  lemma KeepPlaceIncreasing(key: Identity -> int, jar: seq<Cookie>, c: Cookie, nowMs: nat, n: int)
    requires Increasing(key, jar) && Below(key, n)
    ensures var kept := !c.IsExpired(nowMs) && HeldLive(jar, c.Id(), nowMs);
            Increasing(if kept then key else At(key, c.Id(), n), KeepPlace(jar, c, nowMs))
    ensures forall x :: x in KeepPlace(jar, c, nowMs) <==> x in InsertCookie(jar, c, nowMs)
  {
    hide Increasing, Cookie.Id, Cookie.IsExpired, Below, At, InsertInPlace, InsertCookie;
    InsertMembers(jar, c, nowMs);
    if !c.IsExpired(nowMs) && HeldLive(jar, c.Id(), nowMs) {
      var d :| d in jar && d.Id() == c.Id() && !d.IsExpired(nowMs);
      InPlaceIncreasing(key, jar, d, c);
    } else {
      InsertIncreasing(key, jar, c, nowMs, n);
    }
  }

  /** Both runs hold the same cookies: the one in the order they were last set, the other
      in the order they were first set. */
  lemma {:induction false} RunsOrdered(arrivals: seq<Arrival>, httpDate: string -> Option<nat>)
    ensures var jar, kept := Record([], arrivals, httpDate), RecordInPlace(arrivals, httpDate);
            && Increasing(SetAt(arrivals, httpDate), jar) && Below(SetAt(arrivals, httpDate), |arrivals|)
            && Increasing(BornAt(arrivals, httpDate), kept) && Below(BornAt(arrivals, httpDate), |arrivals|)
            && forall c :: c in jar <==> c in kept
    decreases |arrivals|
  {
    hide Arrival.Parsed, InsertCookie, KeepPlace, HeldLive, Increasing, Below, At, Cookie.IsExpired, Cookie.Id;
    if arrivals == [] {
      NothingOrdered(httpDate);
    } else {
      var n := |arrivals| - 1;
      var front, last := arrivals[..n], arrivals[n];
      var jar, kept := Record([], front, httpDate), RecordInPlace(front, httpDate);
      RunsOrdered(front, httpDate);
      match last.Parsed(httpDate)
      case None =>
        BelowMore(SetAt(front, httpDate), n);
        BelowMore(BornAt(front, httpDate), n);
      case Some(c) =>
        var now := last.from.storedAt;
        BelowAt(SetAt(front, httpDate), c.Id(), n);
        BelowAt(BornAt(front, httpDate), c.Id(), n);
        InsertIncreasing(SetAt(front, httpDate), jar, c, now, n);
        KeepPlaceIncreasing(BornAt(front, httpDate), kept, c, now, n);
        InsertMembers(jar, c, now);
        InsertMembers(kept, c, now);
        SameHeld(jar, kept, c.Id(), now);
    }
  }

  // ---------- what is sent ----------

  lemma HeadInClass(ys: seq<Cookie>)
    ensures ys != [] ==> ys[0] in Filter(AsLong(ByteLength(ys[0].path)), ys)
  {
  }

  lemma FirstIsLongest(xs: seq<Cookie>, c: Cookie)
    requires Ordered(LongerPath(), xs) && c in xs
    ensures ByteLength(xs[0].path) >= ByteLength(c.path)
  {
    hide ByteLength;
    var i :| 0 <= i < |xs| && xs[i] == c;
    if i > 0 { assert LongerPath()(xs[0], xs[i]); }
  }

  lemma OrderedTail(xs: seq<Cookie>)
    requires Ordered(LongerPath(), xs) && xs != []
    ensures Ordered(LongerPath(), xs[1..])
  {
    hide LongerPath;
  }

  /** Longest paths first, and alike in every path length: the same list. */
  lemma {:induction false} SameClasses(xs: seq<Cookie>, ys: seq<Cookie>)
    requires Ordered(LongerPath(), xs) && Ordered(LongerPath(), ys)
    requires forall n: nat :: Filter(AsLong(n), xs) == Filter(AsLong(n), ys)
    ensures xs == ys
  {
    hide Filter, LongerPath, ByteLength, Ordered;
    HeadInClass(ys);
    HeadInClass(xs);
    if xs == [] {
      NothingFilteredIn(ys);
    } else {
      FirstIsLongest(xs, ys[0]);
      FirstIsLongest(ys, xs[0]);
      OrderedTail(xs);
      OrderedTail(ys);
      forall n: nat ensures Filter(AsLong(n), xs[1..]) == Filter(AsLong(n), ys[1..]) {
        FilterHead(AsLong(n), xs);
        FilterHead(AsLong(n), ys);
        HeadsCut(xs[0], Filter(AsLong(n), xs[1..]), ys[0], Filter(AsLong(n), ys[1..]));
      }
      var p := AsLong(ByteLength(xs[0].path));
      FilterHead(p, xs);
      FilterHead(p, ys);
      HeadsCut(xs[0], Filter(p, xs[1..]), ys[0], Filter(p, ys[1..]));
      SameClasses(xs[1..], ys[1..]);
      assert xs == [xs[0]] + xs[1..] && ys == [ys[0]] + ys[1..];
    }
  }

  lemma HeadsCut(x: Cookie, xs: seq<Cookie>, y: Cookie, ys: seq<Cookie>)
    ensures [x] + xs == [y] + ys ==> x == y && xs == ys
  {
    assert ([x] + xs)[0] == x && ([y] + ys)[0] == y;
    assert ([x] + xs)[1..] == xs && ([y] + ys)[1..] == ys;
  }

  lemma NothingFilteredIn(ys: seq<Cookie>)
    requires forall n: nat :: Filter(AsLong(n), []) == Filter(AsLong(n), ys)
    ensures ys == []
  {
    HeadInClass(ys);
  }

  /** Cookies with paths as long were first set in the order in which they were last set. */
  ghost predicate SameOrder(sent: seq<Cookie>, setAt: Identity -> int, bornAt: Identity -> int) {
    forall c, d :: c in sent && d in sent && ByteLength(c.path) == ByteLength(d.path) && setAt(c.Id()) < setAt(d.Id())
                   ==> bornAt(c.Id()) < bornAt(d.Id())
  }

  lemma SortedClass(n: nat, xs: seq<Cookie>)
    ensures Filter(AsLong(n), Sort(LongerPath(), xs)) == Filter(AsLong(n), xs)
  {
    hide Sort, Filter, LongerPath;
    AsLongTied(n);
    SortStable(LongerPath(), AsLong(n), xs);
  }

  /** One class in the order of one key is in that of the other. */
  lemma ClassInOrder(sent: seq<Cookie>, ys: seq<Cookie>, setAt: Identity -> int, bornAt: Identity -> int, n: nat)
    requires Increasing(setAt, sent) && Increasing(bornAt, ys) && SameOrder(sent, setAt, bornAt)
    requires forall c :: c in ys ==> c in sent && ByteLength(c.path) == n
    ensures Increasing(setAt, ys)
  {
    hide ByteLength, Cookie.Id;
    forall i, j | 0 <= i < j < |ys| ensures setAt(ys[i].Id()) < setAt(ys[j].Id()) {
      assert ys[i] in ys && ys[j] in ys;
      KeysDiffer(setAt, sent, ys[i], ys[j]);
      assert bornAt(ys[i].Id()) < bornAt(ys[j].Id());
    }
  }

  lemma KeysDiffer(key: Identity -> int, jar: seq<Cookie>, c: Cookie, d: Cookie)
    requires Increasing(key, jar) && c in jar && d in jar
    ensures key(c.Id()) == key(d.Id()) ==> c == d
  {
    hide Cookie.Id;
    var i :| 0 <= i < |jar| && jar[i] == c;
    var j :| 0 <= j < |jar| && jar[j] == d;
    assert i < j ==> key(jar[i].Id()) < key(jar[j].Id());
    assert j < i ==> key(jar[j].Id()) < key(jar[i].Id());
  }

  lemma ClassesAgree(xs: seq<Cookie>, ys: seq<Cookie>, setAt: Identity -> int, bornAt: Identity -> int)
    requires Increasing(setAt, xs) && Increasing(bornAt, ys) && forall c :: c in xs <==> c in ys
    requires SameOrder(xs, setAt, bornAt)
    ensures Sort(LongerPath(), xs) == Sort(LongerPath(), ys)
  {
    hide Sort, Filter, LongerPath, ByteLength, Increasing, SameOrder, Ordered;
    LongerPathTotal();
    SortOrdered(LongerPath(), xs);
    SortOrdered(LongerPath(), ys);
    forall n: nat ensures Filter(AsLong(n), Sort(LongerPath(), xs)) == Filter(AsLong(n), Sort(LongerPath(), ys)) {
      SortedClass(n, xs);
      SortedClass(n, ys);
      FilterIncreasing(setAt, AsLong(n), xs);
      FilterIncreasing(bornAt, AsLong(n), ys);
      ClassInOrder(xs, Filter(AsLong(n), ys), setAt, bornAt, n);
      SameIncreasing(setAt, Filter(AsLong(n), xs), Filter(AsLong(n), ys));
    }
    SameClasses(Sort(LongerPath(), xs), Sort(LongerPath(), ys));
  }

  lemma SortsAgree(xs: seq<Cookie>, ys: seq<Cookie>, setAt: Identity -> int, bornAt: Identity -> int)
    requires Increasing(setAt, xs) && Increasing(bornAt, ys)
    requires Sort(LongerPath(), xs) == Sort(LongerPath(), ys)
    ensures SameOrder(xs, setAt, bornAt)
  {
    hide Sort, Filter, LongerPath, ByteLength, Increasing, Cookie.Id;
    forall c, d | c in xs && d in xs && ByteLength(c.path) == ByteLength(d.path) && setAt(c.Id()) < setAt(d.Id())
      ensures bornAt(c.Id()) < bornAt(d.Id())
    {
      var p := AsLong(ByteLength(c.path));
      SortedClass(ByteLength(c.path), xs);
      SortedClass(ByteLength(c.path), ys);
      FilterIncreasing(setAt, p, xs);
      FilterIncreasing(bornAt, p, ys);
      BothIncrease(Filter(p, xs), setAt, bornAt, c, d);
    }
  }

  lemma BothIncrease(jar: seq<Cookie>, setAt: Identity -> int, bornAt: Identity -> int, c: Cookie, d: Cookie)
    requires Increasing(setAt, jar) && Increasing(bornAt, jar)
    requires c in jar && d in jar && setAt(c.Id()) < setAt(d.Id())
    ensures bornAt(c.Id()) < bornAt(d.Id())
  {
    hide Cookie.Id;
    var i :| 0 <= i < |jar| && jar[i] == c;
    var j :| 0 <= j < |jar| && jar[j] == d;
    assert j < i ==> setAt(jar[j].Id()) < setAt(jar[i].Id());
  }

  /** After any arrivals, a request gets its cookies in the order RFC 6265 asks for if
      and only if no two of them with paths as long were first set in one order and last
      set in the other. */
  lemma RunOrderIff(arrivals: seq<Arrival>, httpDate: string -> Option<nat>, host: string, path: string, isSecure: bool, nowMs: nat)
    ensures Matching(Record([], arrivals, httpDate), host, path, isSecure, nowMs)
            == Matching(RecordInPlace(arrivals, httpDate), host, path, isSecure, nowMs)
            <==> SameOrder(Matching(Record([], arrivals, httpDate), host, path, isSecure, nowMs),
                           SetAt(arrivals, httpDate), BornAt(arrivals, httpDate))
  {
    hide Record, RecordInPlace, SetAt, BornAt, Sort, Filter, LongerPath, ByteLength, Increasing, SameOrder, Below, Sendable;
    var p := Sendable(host, path, isSecure, nowMs);
    var jar, kept := Record([], arrivals, httpDate), RecordInPlace(arrivals, httpDate);
    var setAt, bornAt := SetAt(arrivals, httpDate), BornAt(arrivals, httpDate);
    RunsOrdered(arrivals, httpDate);
    FilterIncreasing(setAt, p, jar);
    FilterIncreasing(bornAt, p, kept);
    SortMembers(LongerPath(), Filter(p, jar));
    SameOrderOfMembers(Matching(jar, host, path, isSecure, nowMs), Filter(p, jar), setAt, bornAt);
    if SameOrder(Filter(p, jar), setAt, bornAt) {
      ClassesAgree(Filter(p, jar), Filter(p, kept), setAt, bornAt);
    }
    if Sort(LongerPath(), Filter(p, jar)) == Sort(LongerPath(), Filter(p, kept)) {
      SortsAgree(Filter(p, jar), Filter(p, kept), setAt, bornAt);
    }
  }

  lemma SameOrderOfMembers(xs: seq<Cookie>, ys: seq<Cookie>, setAt: Identity -> int, bornAt: Identity -> int)
    requires forall c :: c in xs <==> c in ys
    ensures SameOrder(xs, setAt, bornAt) <==> SameOrder(ys, setAt, bornAt)
  {
    hide ByteLength, Cookie.Id;
  }
}
