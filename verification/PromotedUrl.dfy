/** For which variable names the URL of a promoted file comes back. */
module PromotedUrl {
  import opened Text
  import FieldMaps
  import opened Captures
  import opened Forms
  import opened Resolution
  import opened Promotion
  import opened PromotionMeaning

  // ---------- what a reference reads ----------

  /** Where the name between `{{` and `}}` ends: at the first `}}`. */
  function CloseOf(name: string): (k: nat)
    ensures k <= |name| && OccursAt(name + "}}", "}}", k)
    ensures forall j :: 0 <= j < k ==> !OccursAt(name + "}}", "}}", j)
  {
    assert OccursAt(name + "}}", "}}", |name|);
    Find(name + "}}", "}}").value
  }

  /** The name that is looked up. */
  function ReadName(name: string): string {
    Trim(name[..CloseOf(name)])
  }

  /** What is left of the name behind it, as text. */
  function LeftOf(name: string): string {
    (name + "}}")[CloseOf(name) + 2..]
  }

  lemma ScanAny(name: string, rest: string)
    ensures ScanNext("{{" + name + "}}" + rest) == Reference("", ReadName(name), LeftOf(name) + rest)
  {
    hide Find, Trim, Contains, CloseOf;
    var s := "{{" + name + "}}" + rest;
    var after, k := name + "}}" + rest, CloseOf(name);
    assert OccursAt(s, "{{", 0) by { assert s[0..2] == "{{"; }
    assert s[2..] == after;
    assert OccursAt(after, "}}", k) by { assert after[k..k + 2] == (name + "}}")[k..k + 2]; }
    forall j | 0 <= j < k ensures !OccursAt(after, "}}", j) {
      assert after[j..j + 2] == (name + "}}")[j..j + 2];
      assert !OccursAt(name + "}}", "}}", j);
    }
    assert after[..k] == name[..k] && after[k + 2..] == (name + "}}")[k + 2..] + rest;
  }

  /** A reference in front of anything: the value looked up, then the rest. */
  lemma ResolveAny(e: Env, name: string, rest: string)
    ensures var value := Lookup(e, MAX_DEPTH, ReadName(name), 0, []).result;
            Resolve(e, "{{" + name + "}}" + rest).result
            == if value.Err? then value
               else Prepend(value.value, ExpandRest(e, MAX_DEPTH, "{{" + name + "}}" + rest, LeftOf(name) + rest, 0, []).result)
  {
    hide ScanNext, Lookup, Contains, ReadName, LeftOf;
    ScanAny(name, rest);
    var value := Lookup(e, MAX_DEPTH, ReadName(name), 0, []).result;
    if value.Ok? { assert "" + value.value == value.value; }
  }

  lemma CloseEarly(name: string)
    ensures CloseOf(name) < |name| ==> Contains(name + "}", "}}")
  {
    var k := CloseOf(name);
    if k < |name| {
      assert (name + "}")[k..k + 2] == (name + "}}")[k..k + 2];
      assert OccursAt(name + "}", "}}", k);
    }
  }

  /** A name is read whole exactly when it is referable. */
  lemma ReadWholeIff(name: string)
    ensures ReadName(name) == name <==> Referable(name)
  {
    hide Trim, Find;
    var k := CloseOf(name);
    TrimShorter(name[..k]);
    CloseEarly(name);
    if Referable(name) {
      assert name[..|name|] == name;
      TrimFixed(name);
    }
    if ReadName(name) == name {
      assert k == |name| && name[..k] == name;
      TrimmedWhenFixed(name);
      forall j ensures !OccursAt(name + "}", "}}", j) {
        if 0 <= j && j + 2 <= |name| + 1 {
          assert (name + "}")[j..j + 2] == (name + "}}")[j..j + 2];
          assert !OccursAt(name + "}}", "}}", j);
        }
      }
    }
  }

  lemma TrimShorter(s: string)
    ensures |Trim(s)| <= |s|
  {
  }

  lemma TrimmedWhenFixed(name: string)
    ensures Trim(name) == name ==> Trimmed(name)
  {
  }

  // ---------- templates of one secret ----------

  /** A template whose references are all to one secret, with its value put in; `None`
      for any other template. */
  function Filled(rest: string, secret: string, value: Option<string>): Option<string>
    decreases |rest|
  {
    match ScanNext(rest)
    case Plain(text) => Some(text)
    case Open(_) => None
    case Reference(text, name, rest') =>
      if value.Some? && SECRET <= name && Trim(name[|SECRET|..]) == secret then
        match Filled(rest', secret, value)
        case None => None
        case Some(t) => Some(text + value.value + t)
      else None
  }

  /** What a piece of a name in front of a path ends with: nothing, or braces that a
      reference in it closes with. */
  predicate Closes(u: string) {
    u == "" || u == "}" || (|u| >= 2 && u[|u| - 2..] == "}}")
  }

  lemma BracesSplit(u: string, path: string)
    requires Closes(u) && !Contains(path, "{{")
    ensures Contains(u + path, "{{") <==> Contains(u, "{{")
  {
    hide Contains;
    TemplateIff(u);
    TemplateIff(path);
    TemplateIff(u + path);
    HalvesWithin(u, path);
    if k :| BracesAt(u + path, k) { BracesInFront(u, path, k); }
  }

  lemma BracesInFront(u: string, path: string, k: int)
    requires Closes(u) && BracesAt(u + path, k)
    ensures BracesAt(u, k) || BracesAt(path, k - |u|)
  {
  }

  lemma FindInFront(u: string, path: string, pat: string, i: nat)
    requires Find(u, pat) == Some(i)
    ensures Find(u + path, pat) == Some(i)
  {
    var s := u + path;
    assert s[i..i + |pat|] == u[i..i + |pat|];
    forall j | 0 <= j < i ensures !OccursAt(s, pat, j) {
      assert s[j..j + |pat|] == u[j..j + |pat|];
      assert !OccursAt(u, pat, j);
    }
    assert OccursAt(s, pat, i);
  }

  /** One reference in front of the path. */
  lemma ReferenceInFront(u: string, path: string, start: nat)
    requires Closes(u) && Find(u, "{{") == Some(start)
    ensures var r := ScanNext(u);
            r.Reference? && ScanNext(u + path) == Reference(r.text, r.name, r.rest + path)
            && Closes(r.rest) && |r.rest| < |u| && |r.name| + 4 <= |u|
  {
    hide Trim, Find, Closes;
    FindInFront(u, path, "{{", start);
    var after := u[start + 2..];
    assert (u + path)[start + 2..] == after + path && (u + path)[..start] == u[..start];
    ClosedBehind(u, start);
    var end := Find(after, "}}").value;
    FindInFront(after, path, "}}", end);
    assert (after + path)[..end] == after[..end] && (after + path)[end + 2..] == after[end + 2..] + path;
    ClosesRest(u, start + 2 + end + 2);
    assert after[end + 2..] == u[start + 2 + end + 2..];
    TrimShorter(after[..end]);
  }

  /** A path behind changes nothing of the references in front. */
  lemma ScanInFront(u: string, path: string)
    requires Closes(u) && !Contains(path, "{{")
    ensures var r := ScanNext(u);
            if r.Reference? then ScanNext(u + path) == Reference(r.text, r.name, r.rest + path)
                                 && Closes(r.rest) && |r.rest| < |u| && |r.name| + 4 <= |u|
            else r == Plain(u) && ScanNext(u + path) == Plain(u + path)
  {
    hide Trim, Find, Closes, Contains;
    match Find(u, "{{")
    case None =>
      BracesSplit(u, path);
      NoneFound(u, path);
    case Some(start) =>
      ReferenceInFront(u, path, start);
  }

  lemma NoneFound(u: string, path: string)
    requires Find(u, "{{") == None && (Contains(u + path, "{{") <==> Contains(u, "{{"))
    ensures Find(u + path, "{{") == None
  {
  }

  lemma ClosedBehind(u: string, start: nat)
    requires Closes(u) && OccursAt(u, "{{", start)
    ensures Find(u[start + 2..], "}}").Some?
  {
    var after := u[start + 2..];
    assert u[start..start + 2][0] == '{' && u[start..start + 2][1] == '{';
    assert |u| >= 2 && u[|u| - 2] == '}' && u[|u| - 1] == '}';
    assert OccursAt(after, "}}", |after| - 2);
  }

  lemma ClosesRest(u: string, i: nat)
    requires Closes(u) && i <= |u|
    ensures Closes(u[i..])
  {
    var rest := u[i..];
    if |rest| >= 2 { assert rest[|rest| - 2..] == u[|u| - 2..]; }
    if |rest| == 1 { assert rest[0] == u[|u| - 1] == '}'; }
  }

  lemma {:induction false} FilledInFront(u: string, path: string, secret: string, value: Option<string>)
    requires Closes(u) && !Contains(path, "{{")
    ensures Filled(u + path, secret, value)
            == match Filled(u, secret, value) { case None => None case Some(t) => Some(t + path) }
    decreases |u|
  {
    hide ScanNext, Trim, Closes, Contains;
    ScanInFront(u, path);
    var r := ScanNext(u);
    if r.Reference? {
      FilledInFront(r.rest, path, secret, value);
      if value.Some? && Filled(r.rest, secret, value).Some? {
        var t := Filled(r.rest, secret, value).value;
        assert r.text + value.value + (t + path) == r.text + value.value + t + path;
      }
    }
  }

  // ---------- for which names the URL comes back ----------

  /** Under what the promotion returned, the URL comes back whatever the generators of
      these names give. */
  ghost predicate ComesBack(p: Promoted, url: string, generators: set<string>) {
    forall generated :: GivenBy(generated, generators) ==> Resolve(Returned(p, generated), p.spec.url).result == Ok(url)
  }

  ghost predicate GivenBy(generated: map<string, string>, generators: set<string>) {
    generated.Keys == generators
  }

  /** A name that is read whole and then looked up among the variables. */
  ghost predicate GoodName(name: string, generators: set<string>) {
    Referable(name) && !(SECRET <= name) && !(ENV <= name) && name !in generators
  }

  /** The suggested secret's value, if a promotion returned one. */
  function SecretValue(p: Promoted, secret: string): Option<string> {
    if secret in MapOf(p.secrets) then Some(MapOf(p.secrets)[secret]) else None
  }

  lemma {:induction false} SecretsAreNamed(opts: Options, session: Option<string>, secret: string, headers: seq<(string, string)>)
    ensures forall kv :: kv in KeepHeaders(opts, session, secret, NOTHING_KEPT, headers).secrets ==> kv.0 == secret
    decreases |headers|
  {
    hide FieldMaps.Inserted, Trim, Lower;
    if headers != [] { SecretsAreNamed(opts, session, secret, headers[..|headers| - 1]); }
  }

  lemma {:induction false} OneKey(pairs: seq<(string, string)>, key: string)
    requires forall kv :: kv in pairs ==> kv.0 == key
    ensures forall k :: k in MapOf(pairs) ==> k == key
    decreases |pairs|
  {
    if pairs != [] {
      var n := |pairs| - 1;
      OneKey(pairs[..n], key);
      assert pairs[n] in pairs;
    }
  }

  /** Values so long that no result with one of them is `url`. */
  function TooLong(generators: set<string>, url: string): map<string, string> {
    map k | k in generators :: url + "x"
  }

  /** An environment with one variable and at most one secret. */
  ghost predicate Sparse(e: Env, name: string, secret: string, value: Option<string>) {
    && !e.allowEnv && (forall v :: v in e.vars ==> v == name)
    && (forall k :: k in e.secrets <==> k == secret && value.Some?)
    && (value.Some? ==> e.secrets[secret] == value.value)
  }

  lemma ReturnedIsSparse(c: Capture, opts: Options, upper: string -> string, now: nat, generated: map<string, string>)
    requires PromotionOf(c, opts, upper, now).Some? && opts.baseUrlVar.Some? && SplitOrigin(SplitUrl(c.request.url).0).Some?
    ensures var p, secret := PromotionOf(c, opts, upper, now).value, SuggestSecretName(c.request.url);
            Sparse(Returned(p, generated), opts.baseUrlVar.value, secret, SecretValue(p, secret))
  {
    hide SplitUrl, SplitOrigin, KeepHeaders, QueryFields, PromotedBody, SuggestName, SuggestSecretName, FieldMaps.Pairs, MapOf;
    var p, secret := PromotionOf(c, opts, upper, now).value, SuggestSecretName(c.request.url);
    OneKey(p.vars, opts.baseUrlVar.value);
    SecretsAreNamed(opts, c.session, secret, FieldMaps.Pairs(c.request.headers));
    OneKey(p.secrets, secret);
  }

  /** One name looked up there: the secret, or a failure, or a value of a generator, or
      the variable. */
  lemma SparseLookup(e: Env, name: string, secret: string, value: Option<string>, url: string, r: string)
    requires Sparse(e, name, secret, value) && e.generated == TooLong(e.generated.Keys, url)
    requires r != name || SECRET <= r || ENV <= r || r in e.generated
    ensures var found := Lookup(e, MAX_DEPTH, r, 0, []).result;
            if value.Some? && SECRET <= r && Trim(r[|SECRET|..]) == secret then found == Ok(value.value)
            else found.Err? || |found.value| > |url|
  {
    hide Trim, Expand;
  }

  lemma NextExpanded(e: Env, template: string, rest: string)
    requires ScanNext(rest).Reference?
    ensures var s := ScanNext(rest);
            var found := Lookup(e, MAX_DEPTH, s.name, 0, []).result;
            ExpandRest(e, MAX_DEPTH, template, rest, 0, []).result
            == if found.Err? then found
               else Prepend(s.text + found.value, ExpandRest(e, MAX_DEPTH, template, s.rest, 0, []).result)
  {
    hide ScanNext, Lookup;
  }

  lemma NothingNext(e: Env, template: string, rest: string)
    requires ScanNext(rest).Plain?
    ensures ExpandRest(e, MAX_DEPTH, template, rest, 0, []).result == Ok(rest)
  {
    hide ScanNext;
  }

  /** What is left of a name, in front of a path: filled with the secret, or not the URL
      while the generators give too much. */
  lemma {:induction false} LeftExpands(e: Env, name: string, secret: string, value: Option<string>, url: string,
                                       template: string, u: string, path: string)
    requires Sparse(e, name, secret, value) && e.generated == TooLong(e.generated.Keys, url)
    requires Closes(u) && |u| < |name| + 4 && !Contains(path, "{{")
    ensures var result := ExpandRest(e, MAX_DEPTH, template, u + path, 0, []).result;
            match Filled(u, secret, value)
            { case Some(t) => result == Ok(t + path)
              case None => result.Err? || |result.value| > |url| }
    decreases |u|
  {
    hide ScanNext, Lookup, ExpandRest, Trim, Closes, Contains, Sparse, TooLong;
    ScanInFront(u, path);
    var s := ScanNext(u);
    if s.Reference? {
      NextExpanded(e, template, u + path);
      SparseLookup(e, name, secret, value, url, s.name);
      LeftExpands(e, name, secret, value, url, template, s.rest, path);
      if value.Some? && Filled(s.rest, secret, value).Some? {
        var t := Filled(s.rest, secret, value).value;
        assert s.text + value.value + (t + path) == s.text + value.value + t + path;
      }
    } else {
      NothingNext(e, template, u + path);
    }
  }

  lemma LeftCloses(name: string)
    ensures Closes(LeftOf(name)) && |LeftOf(name)| <= |name|
  {
    hide Find;
    var s := name + "}}";
    ClosesRest(s, CloseOf(name) + 2);
  }

  lemma WholeScan(name: string)
    ensures ScanNext("{{" + name + "}}") == Reference("", ReadName(name), LeftOf(name))
  {
    hide ReadName, LeftOf;
    ScanAny(name, "");
    assert "{{" + name + "}}" + "" == "{{" + name + "}}" && LeftOf(name) + "" == LeftOf(name);
  }

  /** The file's URL, for a name that is not read whole as a variable's. */
  lemma OtherNameExpands(e: Env, name: string, secret: string, value: Option<string>, url: string, path: string)
    requires Sparse(e, name, secret, value) && e.generated == TooLong(e.generated.Keys, url)
    requires !GoodName(name, e.generated.Keys) && !Contains(path, "{{")
    ensures var result := Resolve(e, "{{" + name + "}}" + path).result;
            match Filled("{{" + name + "}}", secret, value)
            { case Some(t) => result == Ok(t + path)
              case None => result.Err? || |result.value| > |url| }
  {
    hide ScanNext, Lookup, ExpandRest, Trim, Closes, Contains, Sparse, TooLong, ReadName, LeftOf, Resolve, Referable;
    var template := "{{" + name + "}}" + path;
    ResolveAny(e, name, path);
    ReadWholeIff(name);
    SparseLookup(e, name, secret, value, url, ReadName(name));
    LeftCloses(name);
    LeftExpands(e, name, secret, value, url, template, LeftOf(name), path);
    WholeScan(name);
    if value.Some? && Filled(LeftOf(name), secret, value).Some? {
      var t := Filled(LeftOf(name), secret, value).value;
      assert "" + value.value + t + path == value.value + (t + path);
    }
  }

  /** A template of one secret alone needs nothing else of the environment. */
  lemma {:induction false} FilledExpands(e: Env, secret: string, value: Option<string>, template: string, rest: string)
    requires value.Some? ==> secret in e.secrets && e.secrets[secret] == value.value
    requires Filled(rest, secret, value).Some?
    ensures ExpandRest(e, MAX_DEPTH, template, rest, 0, []).result == Ok(Filled(rest, secret, value).value)
    decreases |rest|
  {
    hide ScanNext, Lookup, ExpandRest, Trim;
    var s := ScanNext(rest);
    if s.Reference? {
      NextExpanded(e, template, rest);
      SecretFound(e, s.name, secret);
      FilledExpands(e, secret, value, template, s.rest);
    } else {
      NothingNext(e, template, rest);
    }
  }

  lemma SecretFound(e: Env, name: string, secret: string)
    requires SECRET <= name && Trim(name[|SECRET|..]) == secret && secret in e.secrets
    ensures Lookup(e, MAX_DEPTH, name, 0, []).result == Ok(e.secrets[secret])
  {
    hide Trim, Expand;
  }

  lemma ResolveIsExpandRest(e: Env, template: string)
    ensures Resolve(e, template) == ExpandRest(e, MAX_DEPTH, template, template, 0, [])
  {
    hide ExpandRest;
  }

  /** The URL comes back under what was returned, whatever the generators give, if and
      only if the variable's name is read whole and is neither a secret's, nor the
      environment's, nor a generator's; or it refers to the suggested secret alone, and
      with that secret's value put in it spells the origin. */
  lemma UrlSurvivesIff(c: Capture, opts: Options, upper: string -> string, now: nat, generators: set<string>)
    requires PromotionOf(c, opts, upper, now).Some? && opts.baseUrlVar.Some?
    requires !Contains(c.request.url, "{{") && SplitOrigin(SplitUrl(c.request.url).0).Some?
    ensures var p, secret := PromotionOf(c, opts, upper, now).value, SuggestSecretName(c.request.url);
            ComesBack(p, CutUrl(c.request.url).base + CutUrl(c.request.url).fragment, generators)
            <==> || GoodName(opts.baseUrlVar.value, generators)
                 || Filled("{{" + opts.baseUrlVar.value + "}}", secret, SecretValue(p, secret))
                    == Some(SplitOrigin(SplitUrl(c.request.url).0).value.0)
  {
    hide Contains, Resolve, SplitOrigin, Referable, PromotionOf, CutUrl, TooLong, Returned, GoodName, Filled,
         SecretValue, SuggestSecretName, Sparse;
    var name, secret := opts.baseUrlVar.value, SuggestSecretName(c.request.url);
    var p := PromotionOf(c, opts, upper, now).value;
    var url := SplitUrl(c.request.url).0;
    var (origin, path) := SplitOrigin(url).value;
    var value := SecretValue(p, secret);
    BaseHoldsNone(c.request.url);
    HalvesWithin(origin, path);
    UrlOfName(c, opts, upper, now);
    if GoodName(name, generators) {
      forall generated | GivenBy(generated, generators) ensures Resolve(Returned(p, generated), p.spec.url).result == Ok(url) {
        GoodNameSucceeds(c, opts, upper, now, generated);
      }
    } else if Filled("{{" + name + "}}", secret, value) == Some(origin) {
      forall generated | GivenBy(generated, generators) ensures Resolve(Returned(p, generated), p.spec.url).result == Ok(url) {
        ReturnedIsSparse(c, opts, upper, now, generated);
        FilledNameSucceeds(Returned(p, generated), name, secret, value, origin, path);
      }
    } else {
      TooLongIsGiven(generators, url);
      ReturnedIsSparse(c, opts, upper, now, TooLong(generators, url));
      ReturnedGenerates(p, TooLong(generators, url));
      OtherNameExpands(Returned(p, TooLong(generators, url)), name, secret, value, url, path);
      OnlyOneFront(Filled("{{" + name + "}}", secret, value), origin, path);
      assert GivenBy(TooLong(generators, url), generators);
    }
  }

  lemma OnlyOneFront(t: Option<string>, origin: string, path: string)
    requires t != Some(origin)
    ensures t.Some? ==> t.value + path != origin + path
  {
    if t.Some? { SameFront(t.value, origin, path); }
  }

  lemma SameFront(a: string, b: string, path: string)
    ensures a + path == b + path ==> a == b
  {
    assert (a + path)[..|a|] == a && (b + path)[..|b|] == b;
  }

  lemma UrlOfName(c: Capture, opts: Options, upper: string -> string, now: nat)
    requires PromotionOf(c, opts, upper, now).Some? && opts.baseUrlVar.Some?
    requires SplitOrigin(SplitUrl(c.request.url).0).Some?
    ensures PromotionOf(c, opts, upper, now).value.spec.url
            == "{{" + opts.baseUrlVar.value + "}}" + SplitOrigin(SplitUrl(c.request.url).0).value.1
  {
    hide SplitUrl, SplitOrigin, KeepHeaders, QueryFields, PromotedBody, SuggestName, SuggestSecretName, FieldMaps.Pairs;
  }

  lemma FilledNameSucceeds(e: Env, name: string, secret: string, value: Option<string>, origin: string, path: string)
    requires Sparse(e, name, secret, value) && Filled("{{" + name + "}}", secret, value) == Some(origin)
    requires !Contains(path, "{{")
    ensures Resolve(e, "{{" + name + "}}" + path).result == Ok(origin + path)
  {
    hide Filled, ExpandRest, Resolve, Contains, ScanNext;
    var u := "{{" + name + "}}";
    assert u[|u| - 2..] == "}}";
    FilledInFront(u, path, secret, value);
    ResolveIsExpandRest(e, u + path);
    FilledExpands(e, secret, value, u + path, u + path);
  }

  lemma TooLongIsGiven(generators: set<string>, url: string)
    ensures TooLong(generators, url).Keys == generators
  {
  }

  lemma GoodNameSucceeds(c: Capture, opts: Options, upper: string -> string, now: nat, generated: map<string, string>)
    requires PromotionOf(c, opts, upper, now).Some? && opts.baseUrlVar.Some?
    requires !Contains(c.request.url, "{{") && SplitOrigin(SplitUrl(c.request.url).0).Some?
    requires GoodName(opts.baseUrlVar.value, generated.Keys)
    ensures var p := PromotionOf(c, opts, upper, now).value;
            Resolve(Returned(p, generated), p.spec.url).result == Ok(CutUrl(c.request.url).base + CutUrl(c.request.url).fragment)
  {
    hide Contains, Resolve, SplitOrigin, Referable, KeepHeaders, QueryFields, PromotedBody, SuggestName, SuggestSecretName,
         FieldMaps.Pairs, MapOf, CutUrl;
    var p := PromotionOf(c, opts, upper, now).value;
    SinglePairs(p.vars);
    UrlSurvives(c, opts, upper, now, Returned(p, generated));
  }

  /** A file whose origin is behind `$uuid` asks for a generated id instead. */
  lemma GeneratedNameFails(e: Env, path: string)
    requires "$uuid" in e.generated && !Contains(path, "{{")
    ensures Resolve(e, "{{$uuid}}" + path).result == Ok(e.generated["$uuid"] + path)
  {
    hide Contains, Resolve, Trim;
    assert "$uuid" + "}" == "$uuid}";
    NoClose("$uuid");
    TrimFixed("$uuid");
    assert "{{" + "$uuid" + "}}" + path == "{{$uuid}}" + path;
    assert !(SECRET <= "$uuid") && !(ENV <= "$uuid") by { assert "$uuid"[0] == '$' && SECRET[0] == 's' && ENV[0] == 'e'; }
    ResolveReference(e, "$uuid", path);
  }

  lemma NoClose(name: string)
    requires '}' !in name
    ensures !Contains(name + "}", "}}")
  {
    forall j ensures !OccursAt(name + "}", "}}", j) {
      if 0 <= j && j + 2 <= |name| + 1 {
        assert (name + "}")[j..j + 2][0] == name[j];
        assert name[j] in name;
      }
    }
  }
}
