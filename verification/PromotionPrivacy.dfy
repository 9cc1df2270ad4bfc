/** What promotion writes into a file does not depend on any credential. */
module PromotionPrivacy {
  import opened Text
  import opened FieldMaps
  import opened Captures
  import opened Promotion

  /** Both are bearer credentials, or neither is. */
  predicate AlikeAuthorization(a: string, b: string) {
    BEARER <= a <==> BEARER <= b
  }

  predicate AlikeHeader(a: (string, string), b: (string, string)) {
    a.0 == b.0 && (if IsAuthorization(a) then AlikeAuthorization(a.1, b.1) else a.1 == b.1)
  }

  predicate IsCookie(key: string) {
    Lower(key) == "cookie"
  }

  /** The same values, except that cookies may be any, and credentials of the same
      scheme any. */
  predicate AlikeValues(key: string, a: seq<string>, b: seq<string>) {
    if IsCookie(key) then a == [] <==> b == []
    else |a| == |b| && forall i :: 0 <= i < |a| ==> AlikeHeader((key, a[i]), (key, b[i]))
  }

  predicate AlikeEntry(a: (string, FieldValue), b: (string, FieldValue)) {
    && a.0 == b.0 && AlikeValues(a.0, ValuesOf(a.1), ValuesOf(b.1))
  }

  predicate AlikeHeaders(a: Entries, b: Entries) {
    |a| == |b| && forall i :: 0 <= i < |a| ==> AlikeEntry(a[i], b[i])
  }

  function NameOnly(): ((string, string)) -> string {
    (kv: (string, string)) => kv.0
  }

  /** Everything but the secrets' values. */
  function Shown(k: Kept): (Entries, Option<Auth>, seq<string>) {
    (k.headers, k.auth, Map(NameOnly(), k.secrets))
  }

  /** Cookies and tokens stay out of the file. */
  predicate Careful(opts: Options) {
    !opts.inlineCookies && !opts.inlineToken
  }

  lemma KeepAlike(opts: Options, session: Option<string>, secret: string, k: Kept, k': Kept, h: (string, string), h': (string, string))
    requires Careful(opts) && Shown(k) == Shown(k') && AlikeHeader(h, h')
    ensures Shown(KeepHeader(opts, session, secret, k, h)) == Shown(KeepHeader(opts, session, secret, k', h'))
  {
    hide Inserted, Trim, Lower;
    assert Map(NameOnly(), k.secrets + [(secret, h.1)]) == Map(NameOnly(), k.secrets) + [secret];
    assert Map(NameOnly(), k'.secrets + [(secret, h'.1)]) == Map(NameOnly(), k'.secrets) + [secret];
    if IsBearer(h) {
      assert Map(NameOnly(), k.secrets + [(secret, TokenOf(h))]) == Map(NameOnly(), k.secrets) + [secret];
      assert Map(NameOnly(), k'.secrets + [(secret, TokenOf(h'))]) == Map(NameOnly(), k'.secrets) + [secret];
    }
  }

  lemma {:induction false} KeepAllAlike(opts: Options, session: Option<string>, secret: string, k: Kept, k': Kept,
                                        hs: seq<(string, string)>, hs': seq<(string, string)>)
    requires Careful(opts) && Shown(k) == Shown(k')
    requires |hs| == |hs'| && forall i :: 0 <= i < |hs| ==> AlikeHeader(hs[i], hs'[i])
    ensures Shown(KeepHeaders(opts, session, secret, k, hs)) == Shown(KeepHeaders(opts, session, secret, k', hs'))
    decreases |hs|
  {
    hide KeepHeader, AlikeHeader, Shown;
    if hs != [] {
      var n := |hs| - 1;
      KeepAllAlike(opts, session, secret, k, k', hs[..n], hs'[..n]);
      KeepAlike(opts, session, secret, KeepHeaders(opts, session, secret, k, hs[..n]),
                KeepHeaders(opts, session, secret, k', hs'[..n]), hs[n], hs'[n]);
    }
  }

  /** Any number of cookies, whatever they are, leave one mark. */
  lemma {:induction false} CookiesLeaveOneMark(opts: Options, session: Option<string>, secret: string, k: Kept,
                                               key: string, values: seq<string>)
    requires Careful(opts) && IsCookie(key) && values != []
    ensures KeepHeaders(opts, session, secret, k, WithKey(key, values))
            == k.(auth := if k.auth.Some? then k.auth else Some(SessionAuth(session)))
    decreases |values|
  {
    hide Lower, Inserted;
    var n := |values| - 1;
    var hs := WithKey(key, values);
    assert hs[..n] == WithKey(key, values[..n]) && hs[n] == (key, values[n]);
    if n > 0 { CookiesLeaveOneMark(opts, session, secret, k, key, values[..n]); }
  }

  lemma EntryAlike(opts: Options, session: Option<string>, secret: string, k: Kept, k': Kept,
                   a: (string, FieldValue), b: (string, FieldValue))
    requires Careful(opts) && Shown(k) == Shown(k') && AlikeEntry(a, b)
    ensures Shown(KeepHeaders(opts, session, secret, k, WithKey(a.0, ValuesOf(a.1))))
            == Shown(KeepHeaders(opts, session, secret, k', WithKey(b.0, ValuesOf(b.1))))
  {
    hide KeepHeader, KeepHeaders, AlikeHeader;
    var va, vb := ValuesOf(a.1), ValuesOf(b.1);
    if IsCookie(a.0) && va != [] {
      CookiesLeaveOneMark(opts, session, secret, k, a.0, va);
      CookiesLeaveOneMark(opts, session, secret, k', b.0, vb);
    } else {
      KeepAllAlike(opts, session, secret, k, k', WithKey(a.0, va), WithKey(b.0, vb));
    }
  }

  lemma {:induction false} KeepAppend(opts: Options, session: Option<string>, secret: string, k: Kept,
                                      a: seq<(string, string)>, b: seq<(string, string)>)
    ensures KeepHeaders(opts, session, secret, k, a + b) == KeepHeaders(opts, session, secret, KeepHeaders(opts, session, secret, k, a), b)
    decreases |b|
  {
    hide KeepHeader;
    if b == [] {
      assert a + b == a;
    } else {
      var n := |b| - 1;
      assert (a + b)[..|a + b| - 1] == a + b[..n] && (a + b)[|a + b| - 1] == b[n];
      KeepAppend(opts, session, secret, k, a, b[..n]);
    }
  }

  lemma {:induction false} HeadersAlike(opts: Options, session: Option<string>, secret: string, k: Kept, k': Kept, a: Entries, b: Entries)
    requires Careful(opts) && Shown(k) == Shown(k') && AlikeHeaders(a, b)
    ensures Shown(KeepHeaders(opts, session, secret, k, Pairs(a))) == Shown(KeepHeaders(opts, session, secret, k', Pairs(b)))
    decreases |a|
  {
    hide KeepHeader, KeepHeaders, Shown, AlikeEntry, Pairs;
    if a == [] {
      NoPairs(opts, session, secret, k);
      NoPairs(opts, session, secret, k');
    } else {
      var h, h' := WithKey(a[0].0, ValuesOf(a[0].1)), WithKey(b[0].0, ValuesOf(b[0].1));
      PairsFirst(a);
      PairsFirst(b);
      KeepAppend(opts, session, secret, k, h, Pairs(a[1..]));
      KeepAppend(opts, session, secret, k', h', Pairs(b[1..]));
      EntryAlike(opts, session, secret, k, k', a[0], b[0]);
      HeadersAlike(opts, session, secret, KeepHeaders(opts, session, secret, k, h),
                   KeepHeaders(opts, session, secret, k', h'), a[1..], b[1..]);
    }
  }

  lemma NoPairs(opts: Options, session: Option<string>, secret: string, k: Kept)
    ensures KeepHeaders(opts, session, secret, k, Pairs([])) == k
  {
  }

  lemma {:induction false} FirstAlike(a: Entries, b: Entries, key: string)
    requires AlikeHeaders(a, b) && Lower(key) != "cookie" && Lower(key) != "authorization"
    ensures First(a, key) == First(b, key)
    decreases |a|
  {
    hide Lower, AlikeAuthorization;
    if a != [] {
      assert AlikeEntry(a[0], b[0]);
      var va, vb := ValuesOf(a[0].1), ValuesOf(b[0].1);
      if SameName(a[0].0, key) && va != [] {
        assert AlikeHeader((a[0].0, va[0]), (a[0].0, vb[0]));
      }
      FirstAlike(a[1..], b[1..], key);
    }
  }

  /** Two captures that differ only in cookies and credentials promote to one and the
      same file, with the same variables and the same names for the secrets. */
  lemma PromotionShowsNoCredential(c: Capture, d: Capture, opts: Options, upper: string -> string, now: nat)
    requires Careful(opts)
    requires d == c.(request := c.request.(headers := d.request.headers))
    requires AlikeHeaders(c.request.headers, d.request.headers)
    ensures var p, q := PromotionOf(c, opts, upper, now), PromotionOf(d, opts, upper, now);
            && (p.Some? <==> q.Some?)
            && (p.Some? ==> && p.value.spec == q.value.spec && p.value.vars == q.value.vars && p.value.session == q.value.session
                            && Map(NameOnly(), p.value.secrets) == Map(NameOnly(), q.value.secrets))
  {
    hide KeepHeaders, Pairs, CutUrl, SplitOrigin, QueryFields, BodyFromCapture, SuggestName, SuggestSecretName, AlikeHeaders, First;
    var secret := SuggestSecretName(c.request.url);
    HeadersAlike(opts, c.session, secret, NOTHING_KEPT, NOTHING_KEPT, c.request.headers, d.request.headers);
    ContentTypeIsPlain();
    FirstAlike(c.request.headers, d.request.headers, "content-type");
  }

  lemma ContentTypeIsPlain()
    ensures Lower("content-type") != "cookie" && Lower("content-type") != "authorization"
  {
    assert Lower("content-type")[7] == '-';
  }
}
