/** Which captures a query asks for. */
module CaptureFilters {
  import opened Text
  import opened Marks
  import opened LineCodec

  datatype CaptureFilter = CaptureFilter(host: Option<Bytes>, url: Option<Bytes>, verb: Option<Bytes>,
                                         statusMin: Option<Status>, statusMax: Option<Status>, session: Option<Bytes>)
  {
    predicate Matches(c: LoggedCapture) {
      && (host.Some? ==> Contains(HostOf(c.url), host.value))
      && (url.Some? ==> Contains(c.url, url.value))
      && (verb.Some? ==> LowerBytes(c.verb) == LowerBytes(verb.value))
      && (session.Some? ==> c.session == session)
      && (statusMin.Some? || statusMax.Some? ==>
            && c.status.Some?
            && (statusMin.Some? ==> c.status.value >= statusMin.value)
            && (statusMax.Some? ==> c.status.value <= statusMax.value))
    }
  }

  const SCHEME_END: Bytes := [58, 47, 47] // "://"

  function HostOf(url: Bytes): Bytes {
    var rest := match Find(url, SCHEME_END) case Some(i) => url[i + 3..] case None => url;
    UpTo(rest, {47, 63, 35})
  }

  function UpTo(s: Bytes, stops: set<byte>): Bytes {
    if s == [] || s[0] in stops then [] else [s[0]] + UpTo(s[1..], stops)
  }

  function LowerBytes(s: Bytes): Bytes {
    Map((b: byte) => LowerByte(b), s)
  }

  function LowerByte(b: byte): byte {
    if 65 <= b <= 90 then b + 32 else b
  }

  // ---------- what is asked for, of a URL in its parts ----------

  /** A URL as scheme, `://`, host and the rest; or, without `://`, as host and rest. */
  ghost predicate UrlParts(url: Bytes, scheme: Option<Bytes>, host: Bytes, rest: Bytes) {
    && (match scheme
        case Some(front) => url == front + [58, 47, 47] + (host + rest) && FirstMark(front, [58, 47, 47], host + rest)
        case None => url == host + rest && !Within([58, 47, 47], url))
    && 47 !in host && 63 !in host && 35 !in host
    && (rest == [] || rest[0] in {47, 63, 35})
  }

  /** Equal but for the case of the letters A to Z. */
  ghost predicate SameLetters(a: Bytes, b: Bytes) {
    && |a| == |b|
    && forall i :: 0 <= i < |a| ==>
         a[i] == b[i] || (65 <= a[i] <= 90 && b[i] == a[i] + 32) || (65 <= b[i] <= 90 && a[i] == b[i] + 32)
  }

  /** What the six fields of a filter ask of a capture whose URL has this host. */
  ghost predicate Wanted(f: CaptureFilter, c: LoggedCapture, host: Bytes) {
    && (f.host == None || Within(f.host.value, host))
    && (f.url == None || Within(f.url.value, c.url))
    && (f.verb == None || SameLetters(f.verb.value, c.verb))
    && (f.session == None || c.session == f.session)
    && (f.statusMin == None || (c.status.Some? && f.statusMin.value <= c.status.value))
    && (f.statusMax == None || (c.status.Some? && c.status.value <= f.statusMax.value))
  }

  lemma LowerBytesIff(a: Bytes, b: Bytes)
    ensures LowerBytes(a) == LowerBytes(b) <==> SameLetters(a, b)
  {
    var la, lb := LowerBytes(a), LowerBytes(b);
    assert forall i :: 0 <= i < |a| ==> la[i] == LowerByte(a[i]);
    assert forall i :: 0 <= i < |b| ==> lb[i] == LowerByte(b[i]);
    if SameLetters(a, b) { assert la == lb; }
    if la == lb {
      forall i | 0 <= i < |a|
        ensures a[i] == b[i] || (65 <= a[i] <= 90 && b[i] == a[i] + 32) || (65 <= b[i] <= 90 && a[i] == b[i] + 32)
      {
        assert la[i] == lb[i];
      }
    }
  }

  lemma {:induction false} UpToParts(host: Bytes, rest: Bytes, stops: set<byte>)
    requires forall b :: b in host ==> b !in stops
    requires rest == [] || rest[0] in stops
    ensures UpTo(host + rest, stops) == host
  {
    if host == [] {
      assert host + rest == rest;
    } else {
      assert (host + rest)[1..] == host[1..] + rest;
      UpToParts(host[1..], rest, stops);
    }
  }

  lemma HostOfParts(url: Bytes, scheme: Option<Bytes>, host: Bytes, rest: Bytes)
    requires UrlParts(url, scheme, host, rest)
    ensures HostOf(url) == host
  {
    hide UpTo, Find, FirstMark, Within;
    UpToParts(host, rest, {47, 63, 35});
    match scheme
    case Some(front) =>
      FindIff(front, SCHEME_END, host + rest);
      assert url[|front| + 3..] == host + rest;
    case None =>
      FindNoneIff(url, SCHEME_END);
  }

  /** A filter takes a capture exactly when each of its fields is met: a text within the
      host, a text within the URL, the method up to case, the session, and bounds on the
      status, which a capture without response never meets. */
  lemma MatchesIff(f: CaptureFilter, c: LoggedCapture, scheme: Option<Bytes>, host: Bytes, rest: Bytes)
    requires UrlParts(c.url, scheme, host, rest)
    ensures f.Matches(c) <==> Wanted(f, c, host)
  {
    hide HostOf, Contains, LowerBytes, UrlParts, Within, SameLetters;
    HostOfParts(c.url, scheme, host, rest);
    if f.host.Some? { ContainsIff(host, f.host.value); }
    if f.url.Some? { ContainsIff(c.url, f.url.value); }
    if f.verb.Some? { LowerBytesIff(f.verb.value, c.verb); }
  }

  /** Every URL has such parts, and one host only. */
  lemma PartsExist(url: Bytes)
    ensures exists scheme, host, rest :: UrlParts(url, scheme, host, rest)
  {
    hide Find, UpTo, FirstMark, Within;
    FindNoneIff(url, SCHEME_END);
    match Find(url, SCHEME_END)
    case Some(i) =>
      var host := UpTo(url[i + 3..], {47, 63, 35});
      UpToSplits(url[i + 3..], {47, 63, 35});
      CutAt(url, SCHEME_END, i);
      var front, rest := url[..i], url[i + 3..][|host|..];
      assert url[i + 3..] == host + rest;
      FindIff(front, SCHEME_END, host + rest);
      assert UrlParts(url, Some(front), host, rest);
    case None =>
      var host := UpTo(url, {47, 63, 35});
      UpToSplits(url, {47, 63, 35});
      var rest := url[|host|..];
      assert url == host + rest;
      assert UrlParts(url, None, host, rest);
  }

  lemma {:induction false} UpToSplits(s: Bytes, stops: set<byte>)
    ensures UpTo(s, stops) <= s && forall b :: b in UpTo(s, stops) ==> b !in stops
    ensures var rest := s[|UpTo(s, stops)|..]; rest == [] || rest[0] in stops
  {
    if s != [] && s[0] !in stops { UpToSplits(s[1..], stops); }
  }
}
