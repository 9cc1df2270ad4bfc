/** The parts of a captured URL in a promoted file: origin, query, and the names made of
    them. */
module PromotedParts {
  import opened Text
  import opened Marks
  import opened FieldMaps
  import opened Forms
  import opened Percent
  import opened Promotion

  // ---------- origin and query ----------

  /** Scheme and host are split from a path, or from nothing; a URL without `://` has no
      origin. */
  lemma OriginSplit(scheme: string, host: string, path: string)
    requires FirstMark(scheme, "://", host + path) && '/' !in host && (path == "" || path[0] == '/')
    ensures SplitOrigin(scheme + "://" + (host + path)) == Some((scheme + "://" + host, path))
  {
    hide Find, FirstMark, IndexOf;
    var url := scheme + "://" + (host + path);
    FindIff(scheme, "://", host + path);
    assert url[|scheme| + 3..] == host + path && url[..|scheme|] == scheme;
    SlashAt(host, path);
    assert (host + path)[..|host|] == host && (host + path)[|host|..] == path;
  }

  lemma SlashAt(host: string, path: string)
    requires '/' !in host && (path == "" || path[0] == '/')
    ensures IndexOf(host + path, '/') == if path == "" then None else Some(|host|)
  {
    hide IndexOf;
    if path == "" {
      assert host + path == host;
    } else {
      assert host + path == host + ['/'] + path[1..];
      IndexOfAppend(host, '/', path[1..]);
    }
  }

  lemma NoOrigin(url: string)
    requires !Within("://", url)
    ensures SplitOrigin(url) == None
  {
    hide Find, Within;
    FindNoneIff(url, "://");
  }

  /** The query stands between the first `?` and the first `#` behind it; what is left of
      the URL keeps the fragment. */
  lemma QuerySplit(base: string, query: string, fragment: string)
    requires '?' !in base && '#' !in query
    ensures SplitUrl(base) == (base, "")
    ensures SplitUrl(base + "?" + query) == (base, query)
    ensures SplitUrl(base + "?" + (query + "#" + fragment)) == (base + "#" + fragment, query)
  {
    hide SplitOnce;
    SplitOnceFirst(base, '?', query);
    SplitOnceFirst(base, '?', query + "#" + fragment);
    SplitOnceFirst(query, '#', fragment);
    assert base + "?" + query == base + ['?'] + query;
    assert base + "?" + (query + "#" + fragment) == base + ['?'] + (query + "#" + fragment);
    assert query + "#" + fragment == query + ['#'] + fragment;
    assert base + "" == base && base + (['#'] + fragment) == base + "#" + fragment;
  }

  lemma OnePiece(query: string, piece: string)
    requires '&' !in piece && piece != ""
    ensures Pieces(query + "&" + piece) == Pieces(query) + [piece]
    ensures Pieces("") == []
  {
    hide Split, Filter;
    assert query + "&" + piece == query + ['&'] + piece;
    SplitAppend(query, '&', piece);
    SplitNone(piece, '&');
    SplitNone("", '&');
    FilterAppend(Present(), Split(query, '&'), [piece]);
    FilterHead(Present(), [piece]);
    FilterHead(Present(), [""]);
    NothingFiltered(Present());
    assert [piece][1..] == [] && [""][1..] == [];
  }

  /** One more parameter of a query, decoded, goes behind those of its name; without a `=`
      it is empty. */
  lemma OneParameter(query: string, k: string, v: string)
    requires '&' !in k && '&' !in v && '=' !in k && k != ""
    requires QueryFields(query).Some? && Decoded(k).Some? && Decoded(v).Some?
    ensures QueryFields("") == Some([])
    ensures QueryFields(query + "&" + (k + "=" + v)) == Some(Inserted(QueryFields(query).value, Decoded(k).value, Decoded(v).value))
    ensures QueryFields(query + "&" + k) == Some(Inserted(QueryFields(query).value, Decoded(k).value, ""))
  {
    hide Pieces, KeyValue, Decoded, Inserted;
    OnePiece(query, k + "=" + v);
    OnePiece(query, k);
    KeyValueReads(k, v);
    EmptyDecodes();
    OnePair(Pieces(query), k + "=" + v);
    OnePair(Pieces(query), k);
  }

  lemma EmptyDecodes()
    ensures Decoded("") == Some("")
  {
  }

  lemma OnePair(pieces: seq<string>, piece: string)
    requires DecodePairs(pieces).Some? && DecodePair(KeyValue(piece).0, KeyValue(piece).1).Some?
    ensures var pair := DecodePair(KeyValue(piece).0, KeyValue(piece).1).value;
            && DecodePairs(pieces + [piece]) == Some(DecodePairs(pieces).value + [pair])
            && InsertAll([], DecodePairs(pieces).value + [pair]) == Inserted(InsertAll([], DecodePairs(pieces).value), pair.0, pair.1)
  {
    hide KeyValue, DecodePair, Inserted;
    assert (pieces + [piece])[..|pieces|] == pieces;
    var pairs, pair := DecodePairs(pieces).value, DecodePair(KeyValue(piece).0, KeyValue(piece).1).value;
    assert (pairs + [pair])[..|pairs|] == pairs;
  }

  // ---------- the suggested names ----------

  /** The last two segments that are not empty, or all there are. */
  ghost predicate LastSegments(segments: seq<string>, shown: string) {
    var kept := Filter((s: string) => s != "", segments);
    shown == if |kept| == 0 then "root"
             else if |kept| == 1 then kept[0]
             else kept[|kept| - 2] + "/" + kept[|kept| - 1]
  }

  lemma LastShown(segments: seq<string>)
    ensures var tail := Filter(Present(), segments);
            LastSegments(segments, if tail == [] then "root" else Join(LastTwo(tail), "/"))
  {
    hide Filter;
    FilterSame(Present(), (s: string) => s != "", segments);
    var tail := Filter(Present(), segments);
    if |tail| >= 2 {
      var two := tail[|tail| - 2..];
      assert two == [two[0], two[1]] && two[1..] == [two[1]];
    }
  }

  /** A request is named by its method and the end of its path. */
  lemma NamedAfter(upper: string -> string, verb: string, scheme: string, host: string, path: string, rest: string)
    requires FirstMark(scheme, "://", host + (path + rest)) && '/' !in host && '?' !in path
    requires path + rest == "" || (path + rest)[0] == '/'
    requires rest == "" || rest[0] == '?'
    ensures exists shown :: LastSegments(Split(path, '/'), shown)
                            && SuggestName(upper, verb, scheme + "://" + (host + (path + rest))) == upper(verb) + " " + shown
  {
    hide Split, SplitOrigin, FirstMark, LastSegments, Filter, LastTwo;
    OriginSplit(scheme, host, path + rest);
    PathOnly(path, rest);
    LastShown(Split(path, '/'));
  }

  /** Without an origin the whole URL, up to its query, is the path. */
  lemma NamedWithoutOrigin(upper: string -> string, verb: string, path: string, rest: string)
    requires !Within("://", path + rest) && '?' !in path && (rest == "" || rest[0] == '?')
    ensures exists shown :: LastSegments(Split(path, '/'), shown) && SuggestName(upper, verb, path + rest) == upper(verb) + " " + shown
  {
    hide Split, SplitOrigin, Within, LastSegments, Filter, LastTwo;
    NoOrigin(path + rest);
    PathOnly(path, rest);
    LastShown(Split(path, '/'));
  }

  lemma PathOnly(path: string, rest: string)
    requires '?' !in path && (rest == "" || rest[0] == '?')
    ensures Split(path + rest, '?')[0] == path
  {
    if rest == "" {
      assert path + rest == path;
      SplitNone(path, '?');
    } else {
      assert path + rest == path + ['?'] + rest[1..];
      SplitFirst(path, '?', rest[1..]);
    }
  }

  /** A character of a secret's name: lower-case letters and digits stay, upper-case ones
      are lowered, and any other is an underscore. */
  lemma SlugIs(c: char)
    ensures var n := c as int;
            SlugChar(c) == if 97 <= n <= 122 || 48 <= n <= 57 then c else if 65 <= n <= 90 then (n + 32) as char else '_'
  {
  }

  lemma {:induction false} UnderscoresOff(front: string, core: string, back: string)
    requires forall i :: 0 <= i < |front| ==> front[i] == '_'
    requires forall i :: 0 <= i < |back| ==> back[i] == '_'
    requires core == "" || (core[0] != '_' && core[|core| - 1] != '_')
    ensures TrimUnderscores(front + core + back) == core
    decreases |front| + |back|
  {
    hide TrimUnderscores;
    if front != "" {
      assert front + core + back == [front[0]] + (front[1..] + core + back);
      TrimFront(front[1..] + core + back);
      UnderscoresOff(front[1..], core, back);
    } else if back == "" {
      assert front + core + back == core;
      NothingToTrim(core);
    } else if core == "" {
      assert front + core + back == [back[0]] + ("" + "" + back[1..]);
      TrimFront("" + "" + back[1..]);
      UnderscoresOff("", "", back[1..]);
    } else {
      var n := |back| - 1;
      assert front + core + back == ("" + core + back[..n]) + [back[n]];
      TrimBack("" + core + back[..n]);
      UnderscoresOff("", core, back[..n]);
    }
  }

  lemma TrimFront(s: string)
    ensures TrimUnderscores("_" + s) == TrimUnderscores(s)
  {
    assert ("_" + s)[1..] == s;
  }

  lemma TrimBack(s: string)
    requires s != "" && s[0] != '_'
    ensures TrimUnderscores(s + "_") == TrimUnderscores(s)
  {
    assert (s + "_")[..|s|] == s && (s + "_")[0] == s[0];
  }

  lemma NothingToTrim(core: string)
    requires core == "" || (core[0] != '_' && core[|core| - 1] != '_')
    ensures TrimUnderscores(core) == core
  {
  }

  /** A token's suggested name: the host in slug characters, without underscores at its
      ends, and `_token`. */
  lemma TokenNamed(scheme: string, host: string, path: string, front: string, core: string, back: string)
    requires scheme in {"http", "https"} && '/' !in host && (path == "" || path[0] == '/')
    requires Map(SlugChar, host) == front + core + back
    requires forall i :: 0 <= i < |front| ==> front[i] == '_'
    requires forall i :: 0 <= i < |back| ==> back[i] == '_'
    requires core == "" || (core[0] != '_' && core[|core| - 1] != '_')
    ensures SuggestSecretName(scheme + "://" + (host + path)) == core + "_token"
  {
    hide SplitOrigin, TrimStartMatches, TrimUnderscores, SlugChar;
    SchemeIsFirst(scheme, host + path);
    OriginSplit(scheme, host, path);
    SchemeOff(scheme, host);
    UnderscoresOff(front, core, back);
  }

  /** Without an origin the whole URL makes the name. */
  lemma TokenWithoutOrigin(url: string, front: string, core: string, back: string)
    requires !Within("://", url) && Map(SlugChar, url) == front + core + back
    requires forall i :: 0 <= i < |front| ==> front[i] == '_'
    requires forall i :: 0 <= i < |back| ==> back[i] == '_'
    requires core == "" || (core[0] != '_' && core[|core| - 1] != '_')
    ensures SuggestSecretName(url) == core + "_token"
  {
    hide SplitOrigin, TrimStartMatches, TrimUnderscores, SlugChar, Within;
    NoOrigin(url);
    NoSchemeOff(url);
    UnderscoresOff(front, core, back);
  }

  lemma NoSchemeOff(url: string)
    requires !Within("://", url)
    ensures TrimStartMatches(url, "https://") == url && TrimStartMatches(url, "http://") == url
  {
    StartsWithin("https", "https://", url);
    StartsWithin("http", "http://", url);
  }

  lemma StartsWithin(scheme: string, pre: string, s: string)
    requires pre == scheme + "://"
    ensures pre <= s ==> Within("://", s)
  {
    if pre <= s { assert s == scheme + "://" + s[|pre|..]; }
  }

  lemma SchemeIsFirst(scheme: string, rest: string)
    requires ':' !in scheme
    ensures FirstMark(scheme, "://", rest)
  {
    var s := scheme + "://" + rest;
    assert forall j :: 0 <= j < |scheme| ==> s[j] == scheme[j] != ':';
    forall a: string, b: string | s == a + "://" + b ensures |a| >= |scheme| {
      assert (a + "://" + b)[|a|] == ':';
    }
  }

  lemma SchemeOff(scheme: string, host: string)
    requires scheme in {"http", "https"} && '/' !in host
    ensures TrimStartMatches(TrimStartMatches(scheme + "://" + host, "https://"), "http://") == host
  {
    HostStays(host);
    if scheme == "https" {
      assert scheme + "://" + host == "https://" + host;
      OneOff("https://", host);
    } else {
      assert scheme + "://" + host == "http://" + host;
      assert !("https://" <= "http://" + host) by { assert ("http://" + host)[4] == ':'; }
      OneOff("http://", host);
    }
  }

  lemma HostStays(host: string)
    requires '/' !in host
    ensures TrimStartMatches(host, "https://") == host && TrimStartMatches(host, "http://") == host
  {
    SlashWithin("https://", host);
    SlashWithin("http://", host);
    assert "https://"[6] == '/' && "http://"[5] == '/';
  }

  lemma SlashWithin(pre: string, s: string)
    ensures '/' in pre && pre <= s ==> '/' in s
  {
  }

  lemma OneOff(pre: string, host: string)
    requires pre != ""
    ensures TrimStartMatches(pre + host, pre) == TrimStartMatches(host, pre)
  {
    assert (pre + host)[|pre|..] == host;
  }
}
