/** The authorization URL and the query of its callback. */
module OAuth {
  import opened Text
  import opened Percent
  import opened Forms
  import Utf8

  datatype Client = Client(id: string, scope: Option<string>, audience: Option<string>)

  // ---------- the query of a callback ----------

  /** The decoded pairs in order; pieces without `=` are passed over. */
  function QueryPairs(pieces: seq<string>): Option<seq<(string, string)>>
    decreases |pieces|
  {
    if pieces == [] then Some([])
    else
      var n := |pieces| - 1;
      var before := QueryPairs(pieces[..n]);
      match SplitOnce(pieces[n], '=')
      case None => before
      case Some((k, v)) =>
        match (before, DecodePair(k, v))
        case (Some(pairs), Some(last)) => Some(pairs + [last])
        case _ => None
  }

  function ParseQuery(query: string): Option<map<string, string>> {
    match QueryPairs(Pieces(query)) case None => None case Some(pairs) => Some(MapOf(pairs))
  }

  // ---------- the authorization URL ----------

  function OptionalParam(key: string, value: Option<string>): seq<(string, string)> {
    if value.Some? then [(key, value.value)] else []
  }

  function AuthorizeParams(client: Client, redirectUri: string, challenge: string, state: string): seq<(string, string)> {
    [("response_type", "code"), ("client_id", client.id), ("redirect_uri", redirectUri), ("state", state),
     ("code_challenge", challenge), ("code_challenge_method", "S256")]
    + OptionalParam("scope", client.scope) + OptionalParam("audience", client.audience)
  }

  /** Keys go as they are, values encoded. */
  function EncodeParam(param: (string, string)): string {
    param.0 + "=" + Encoded(param.1, false)
  }

  function QueryOf(params: seq<(string, string)>): string {
    Join(Map(EncodeParam, params), "&")
  }

  method BuildAuthorizeUrl(authorizeUrl: string, client: Client, redirectUri: string, challenge: string, state: string)
    returns (url: string)
    ensures url == authorizeUrl + (if '?' in authorizeUrl then "&" else "?")
                   + QueryOf(AuthorizeParams(client, redirectUri, challenge, state))
  {
    hide Encoded;
    var params := [("response_type", "code"), ("client_id", client.id), ("redirect_uri", redirectUri), ("state", state),
                   ("code_challenge", challenge), ("code_challenge_method", "S256")];
    ghost var first := params;
    if client.scope.Some? {
      params := params + [("scope", client.scope.value)];
    }
    assert params == first + OptionalParam("scope", client.scope);
    if client.audience.Some? {
      params := params + [("audience", client.audience.value)];
    }
    assert params == AuthorizeParams(client, redirectUri, challenge, state);
    var query: seq<string> := [];
    for i := 0 to |params|
      invariant query == Map(EncodeParam, params[..i])
    {
      var value := Urlencode(params[i].1, false);
      query := query + [params[i].0 + "=" + value];
      assert params[..i + 1] == params[..i] + [params[i]];
    }
    assert params[..|params|] == params;
    url := authorizeUrl + (if '?' in authorizeUrl then "&" else "?") + Join(query, "&");
  }

  // ---------- what is written reads back ----------

  ghost predicate PlainKey(key: string) {
    forall c :: c in key ==> IsUnreserved(c)
  }

  /** Unreserved text is its own encoding. */
  lemma {:induction false} PlainIsItself(s: string)
    requires PlainKey(s)
    ensures Encoded(s, false) == s
  {
    hide IsUnreserved;
    if s != "" {
      assert s[0] in s && forall c :: c in s[1..] ==> c in s;
      PlainIsItself(s[1..]);
      PlainCharacter(s[0]);
      EncodeBytesAppend(Utf8.EncodeChar(s[0]), Utf8.Encode(s[1..]), false);
      assert s == [s[0]] + s[1..];
    }
  }

  lemma PlainCharacter(c: char)
    requires IsUnreserved(c)
    ensures EncodeBytes(Utf8.EncodeChar(c), false) == [c]
  {
    assert Utf8.EncodeChar(c) == [c as int];
    assert EncodeBytes([c as int], false) == EncodeByte(c as int, false) + "";
  }

  lemma ParamReadsBack(param: (string, string))
    requires PlainKey(param.0)
    ensures SplitOnce(EncodeParam(param), '=') == Some((param.0, Encoded(param.1, false)))
    ensures DecodePair(param.0, Encoded(param.1, false)) == Some(param)
    ensures '&' !in EncodeParam(param) && EncodeParam(param) != ""
  {
    hide Encoded, Decoded;
    EncodedHasNo(param.0, false);
    EncodedHasNo(param.1, false);
    PlainIsItself(param.0);
    DecodedOfEncoded(param.0, false);
    DecodedOfEncoded(param.1, false);
    SplitOnceFirst(param.0, '=', Encoded(param.1, false));
  }

  ghost predicate PlainKeys(params: seq<(string, string)>) {
    forall p :: p in params ==> PlainKey(p.0)
  }

  lemma {:induction false} ParamsReadBack(params: seq<(string, string)>)
    requires PlainKeys(params)
    ensures QueryPairs(Map(EncodeParam, params)) == Some(params)
    decreases |params|
  {
    hide EncodeParam, DecodePair, PlainKey;
    if params != [] {
      var n := |params| - 1;
      assert params[n] in params;
      ParamsReadBack(params[..n]);
      ParamReadsBack(params[n]);
      assert Map(EncodeParam, params)[..n] == Map(EncodeParam, params[..n]);
      assert params == params[..n] + [params[n]];
    }
  }

  lemma PiecesOfQuery(params: seq<(string, string)>)
    requires params != [] && PlainKeys(params)
    ensures Pieces(QueryOf(params)) == Map(EncodeParam, params)
  {
    hide EncodeParam, Split, PlainKey;
    var pieces := Map(EncodeParam, params);
    forall p | p in pieces ensures '&' !in p && p != "" {
      var i :| 0 <= i < |pieces| && pieces[i] == p;
      assert params[i] in params;
      ParamReadsBack(params[i]);
    }
    SplitOfJoin(pieces, '&');
    FilterAll(Present(), pieces);
  }

  lemma PiecesAppend(a: string, b: string)
    ensures Pieces(a + "&" + b) == Pieces(a) + Pieces(b)
  {
    hide Split, Filter;
    SplitAppend(a, '&', b);
    assert a + "&" + b == a + ['&'] + b;
    FilterAppend(Present(), Split(a, '&'), Split(b, '&'));
  }

  lemma {:induction false} QueryPairsAppend(a: seq<string>, b: seq<string>)
    requires QueryPairs(b).Some?
    ensures QueryPairs(a + b)
            == if QueryPairs(a).None? then None else Some(QueryPairs(a).value + QueryPairs(b).value)
    decreases |b|
  {
    hide DecodePair, SplitOnce;
    if b == [] {
      assert a + b == a;
      if QueryPairs(a).Some? { assert QueryPairs(a).value + [] == QueryPairs(a).value; }
    } else {
      var n := |b| - 1;
      assert (a + b)[..|a + b| - 1] == a + b[..n] && (a + b)[|a + b| - 1] == b[n];
      QueryPairsAppend(a, b[..n]);
      if QueryPairs(a).Some? && SplitOnce(b[n], '=').Some? {
        var (k, v) := SplitOnce(b[n], '=').value;
        var last := DecodePair(k, v).value;
        assert QueryPairs(a).value + (QueryPairs(b[..n]).value + [last]) == QueryPairs(a).value + QueryPairs(b[..n]).value + [last];
      }
    }
  }

  /** The query of an authorization URL reads back as the parameters, added to what the
      configured URL already asked. */
  lemma AuthorizeUrlReadsBack(authorizeUrl: string, params: seq<(string, string)>)
    requires params != [] && PlainKeys(params)
    ensures var url := authorizeUrl + (if '?' in authorizeUrl then "&" else "?") + QueryOf(params);
            var before := SplitOnce(authorizeUrl, '?');
            && SplitOnce(url, '?').Some?
            && SplitOnce(url, '?').value.0 == (if before.None? then authorizeUrl else before.value.0)
            && ParseQuery(SplitOnce(url, '?').value.1)
               == if before.None? then Some(MapOf(params))
                  else if ParseQuery(before.value.1).None? then None
                  else Some(ParseQuery(before.value.1).value + MapOf(params))
  {
    hide Pieces, QueryPairs, MapOf, QueryOf, PlainKeys, SplitOnce;
    var query := QueryOf(params);
    PiecesOfQuery(params);
    ParamsReadBack(params);
    if '?' !in authorizeUrl {
      assert authorizeUrl + "?" + query == authorizeUrl + ['?'] + query;
      SplitOnceFirst(authorizeUrl, '?', query);
    } else {
      var (base, asked) := SplitOnce(authorizeUrl, '?').value;
      assert authorizeUrl + "&" + query == base + ['?'] + (asked + "&" + query);
      SplitOnceFirst(base, '?', asked + "&" + query);
      PiecesAppend(asked, query);
      QueryPairsAppend(Pieces(asked), Pieces(query));
      if QueryPairs(Pieces(asked)).Some? { MapOfAppend(QueryPairs(Pieces(asked)).value, params); }
    }
  }

  /** The parameters sent are all distinct and plain, so each is recovered, and no
      other. */
  lemma AuthorizeParamsRecovered(client: Client, redirectUri: string, challenge: string, state: string)
    ensures var params := AuthorizeParams(client, redirectUri, challenge, state);
            && PlainKeys(params)
            && ParseQuery(QueryOf(params)) == Some(MapOf(params))
            && forall k, v :: (k in MapOf(params) && MapOf(params)[k] == v) <==> (k, v) in params
  {
    hide MapOf, Pieces, QueryOf, QueryPairs, PlainKeys, AuthorizeParams;
    var params := AuthorizeParams(client, redirectUri, challenge, state);
    AuthorizeKeys(client, redirectUri, challenge, state);
    PiecesOfQuery(params);
    ParamsReadBack(params);
    MapOfDistinct(params);
  }

  lemma AuthorizeKeys(client: Client, redirectUri: string, challenge: string, state: string)
    ensures var params := AuthorizeParams(client, redirectUri, challenge, state);
            && params != [] && PlainKeys(params)
            && forall i, j :: 0 <= i < j < |params| ==> params[i].0 != params[j].0
  {
    hide PlainKey, AuthorizeParams;
    KeysAsGiven(client, redirectUri, challenge, state);
    KeysArePlain();
    MoreKeysArePlain();
    AuthorizeKeysDiffer(client, redirectUri, challenge, state);
  }

  /** Every key is one of eight. */
  lemma KeysAsGiven(client: Client, redirectUri: string, challenge: string, state: string)
    ensures var params := AuthorizeParams(client, redirectUri, challenge, state);
            params != [] && forall p :: p in params ==>
              || p.0 == "response_type" || p.0 == "client_id" || p.0 == "redirect_uri" || p.0 == "state"
              || p.0 == "code_challenge" || p.0 == "code_challenge_method" || p.0 == "scope" || p.0 == "audience"
  {
  }

  lemma AuthorizeKeysDiffer(client: Client, redirectUri: string, challenge: string, state: string)
    ensures var params := AuthorizeParams(client, redirectUri, challenge, state);
            forall i, j :: 0 <= i < j < |params| ==> params[i].0 != params[j].0
  {
    assert "state"[1] != "scope"[1];
  }

  lemma KeysArePlain()
    ensures PlainKey("response_type") && PlainKey("client_id") && PlainKey("redirect_uri") && PlainKey("state")
  {
  }

  lemma MoreKeysArePlain()
    ensures PlainKey("code_challenge") && PlainKey("code_challenge_method") && PlainKey("scope") && PlainKey("audience")
  {
  }

  // ---------- the callback's state ----------

  /** Compare without leaving early at the first difference. */
  method ConstantTimeEq(a: seq<bv8>, b: seq<bv8>) returns (equal: bool)
    ensures equal <==> a == b
  {
    if |a| != |b| {
      return false;
    }
    var acc: bv8 := 0;
    for i := 0 to |a|
      invariant acc == 0 <==> a[..i] == b[..i]
    {
      assert a[..i + 1] == a[..i] + [a[i]] && b[..i + 1] == b[..i] + [b[i]];
      OrOfXor(acc, a[i], b[i]);
      acc := acc | (a[i] ^ b[i]);
    }
    assert a[..|a|] == a && b[..|b|] == b;
    equal := acc == 0;
  }

  lemma OrOfXor(acc: bv8, x: bv8, y: bv8)
    ensures acc | (x ^ y) == 0 <==> acc == 0 && x == y
  {
  }
}
