/** The body of a promoted request: what the file says and what is sent again. */
module PromotedBodies {
  import opened Text
  import opened Marks
  import opened FieldMaps
  import opened Captures
  import opened Forms
  import opened Resolution
  import opened TemplateText
  import opened Promotion

  // ---------- what the file says ----------

  /** A word stands somewhere in a content type, in any case. */
  ghost predicate Names(contentType: string, word: string) {
    Within(word, Lower(contentType))
  }

  /** The content type a request was captured with, empty if it had none. */
  function ContentTypeOf(r: CapturedRequest): string {
    var found := First(r.headers, "content-type");
    if found == None then "" else found.value
  }

  /** A text body is kept as it was: as JSON where the content type names JSON, or GraphQL
      and no form; as the fields of a form; or as text with its content type. */
  ghost predicate FiledAs(text: string, contentType: string, body: Body) {
    if Names(contentType, "json") || (Names(contentType, "graphql") && !Names(contentType, "x-www-form-urlencoded"))
    then body == JsonBody(text)
    else if Names(contentType, "x-www-form-urlencoded") then body.FormBody? && ParseForm(text) == Some(body.fields)
    else body == PlainBody(text, if contentType == "" then None else Some(contentType))
  }

  /** A form whose text can be decoded, or no form. */
  ghost predicate Decodable(text: string, contentType: string) {
    Names(contentType, "x-www-form-urlencoded") && !Names(contentType, "json") ==> ParseForm(text).Some?
  }

  /** The file has a body if and only if the capture has one; and it is filed as the
      content type says. A body that was not text leaves an empty one. */
  lemma PromotedBodyIs(c: Capture, opts: Options, upper: string -> string, now: nat)
    ensures var p, ct := PromotionOf(c, opts, upper, now), ContentTypeOf(c.request);
            && (p.Some? <==> && QueryFields(SplitUrl(c.request.url).1).Some?
                             && (c.request.body.Some? && c.request.body.value.TextBody? ==> Decodable(c.request.body.value.text, ct)))
            && (p.Some? ==>
                  && (p.value.spec.body.Some? <==> c.request.body.Some?)
                  && (c.request.body.Some? ==>
                        match c.request.body.value
                        { case TextBody(text) => FiledAs(text, ct, p.value.spec.body.value)
                          case Base64Body(_) => p.value.spec.body.value == PlainBody("", Some(ct)) }))
  {
    hide KeepHeaders, QueryFields, SplitUrl, SuggestName, SuggestSecretName, PromotedUrl, ParseForm, Contains, Within, Lower, First, Pairs;
    var ct := ContentTypeOf(c.request);
    ContainsIff(Lower(ct), "json");
    ContainsIff(Lower(ct), "x-www-form-urlencoded");
    ContainsIff(Lower(ct), "graphql");
    assert Lower("") == "";
  }

  /** Method, capture, page and session are the captured ones. */
  lemma PromotedFrom(c: Capture, opts: Options, upper: string -> string, now: nat)
    requires PromotionOf(c, opts, upper, now).Some?
    ensures var p := PromotionOf(c, opts, upper, now).value;
            && p.spec.verb == upper(c.request.verb)
            && p.spec.capture == c.id && p.spec.page == c.page && p.spec.promotedAt == now
            && p.session == c.session
  {
    hide KeepHeaders, QueryFields, SplitUrl, SuggestName, SuggestSecretName, PromotedUrl, PromotedBody, Pairs;
  }

  // ---------- what is sent ----------

  datatype Prepared = Prepared(content: string, contentType: string)

  /** `build_body` for the kinds of body a promotion makes. */
  method BuildBody(resolver: Resolver, body: Option<Body>) returns (r: Result<Option<Prepared>, Error>)
    modifies resolver`usedSecrets
    ensures r == SentBody(resolver.Scope(), body).0
    ensures resolver.usedSecrets == old(resolver.usedSecrets) + SentBody(resolver.Scope(), body).1
  {
    hide Resolve, ResolveFields, EncodeForm;
    if body.None? {
      return Ok(None);
    }
    match body.value {
      case JsonBody(content) =>
        var text := resolver.ResolveText(content);
        if text.Err? {
          return Err(text.error);
        }
        r := Ok(Some(Prepared(text.value, "application/json")));
      case PlainBody(content, contentType) =>
        var text := resolver.ResolveText(content);
        if text.Err? {
          return Err(text.error);
        }
        r := Ok(Some(Prepared(text.value, if contentType.Some? then contentType.value else "text/plain")));
      case FormBody(fields) =>
        var text := BuildForm(resolver, fields);
        if text.Err? {
          return Err(text.error);
        }
        r := Ok(Some(Prepared(text.value, "application/x-www-form-urlencoded")));
    }
  }

  function SentBody(e: Env, body: Option<Body>): (Result<Option<Prepared>, Error>, set<string>) {
    if body.None? then (Ok(None), {})
    else match body.value
      case JsonBody(content) =>
        var text := Resolve(e, content);
        (if text.result.Err? then Err(text.result.error) else Ok(Some(Prepared(text.result.value, "application/json"))), text.used)
      case PlainBody(content, contentType) =>
        var text := Resolve(e, content);
        (if text.result.Err? then Err(text.result.error)
         else Ok(Some(Prepared(text.result.value, if contentType.Some? then contentType.value else "text/plain"))), text.used)
      case FormBody(fields) =>
        var form := ResolveFields(e, fields);
        (if form.fields.Err? then Err(form.fields.error)
         else Ok(Some(Prepared(EncodeForm(form.fields.value), "application/x-www-form-urlencoded"))), form.used)
  }

  /** The body sent for a captured one: the same text, or a form with the same fields. */
  ghost predicate SentAs(text: string, contentType: string, sent: Prepared) {
    if Names(contentType, "json") || (Names(contentType, "graphql") && !Names(contentType, "x-www-form-urlencoded"))
    then sent == Prepared(text, "application/json")
    else if Names(contentType, "x-www-form-urlencoded")
    then sent.contentType == "application/x-www-form-urlencoded" && ParseForm(sent.content) == ParseForm(text)
    else sent == Prepared(text, if contentType == "" then "text/plain" else contentType)
  }

  /** No text, name or value of a body holds a template. */
  ghost predicate Untemplated(body: Body) {
    match body
    case JsonBody(content) => !Within("{{", content)
    case PlainBody(content, _) => !Within("{{", content)
    case FormBody(fields) => NoTemplate(fields)
  }

  /** A captured text body without a template in it is sent again, whatever the
      environment: the same text under JSON or its content type, or the same fields. */
  lemma BodySurvives(c: Capture, opts: Options, upper: string -> string, now: nat, e: Env)
    requires PromotionOf(c, opts, upper, now).Some?
    requires c.request.body.Some? && c.request.body.value.TextBody?
    requires Untemplated(PromotionOf(c, opts, upper, now).value.spec.body.value)
    ensures var sent := SentBody(e, PromotionOf(c, opts, upper, now).value.spec.body);
            && sent.0.Ok? && sent.0.value.Some? && sent.1 == {}
            && SentAs(c.request.body.value.text, ContentTypeOf(c.request), sent.0.value.value)
  {
    hide PromotionOf, Resolve, ResolveFields, EncodeForm, ParseForm, Names, NoTemplate, Within, ContentTypeOf;
    PromotedBodyIs(c, opts, upper, now);
    match PromotionOf(c, opts, upper, now).value.spec.body.value
    case JsonBody(content) => ResolvePlain(e, content);
    case PlainBody(content, _) => ResolvePlain(e, content);
    case FormBody(fields) =>
      PlainFieldsResolve(e, fields);
      FormSurvives(e, c.request.body.value.text);
  }

  // ---------- which texts come back everywhere ----------

  /** An environment in which nothing has a value. */
  function Nowhere(): Env {
    Env(map[], map[], false, map[], map[])
  }

  lemma NothingThere(name: string)
    ensures Lookup(Nowhere(), 8, name, 0, []).result.Err?
  {
  }

  /** A text is sent unchanged whatever the environment if and only if it has no `{{`. */
  lemma TextSurvivesIff(text: string)
    ensures (forall e :: Resolve(e, text).result == Ok(text)) <==> !Within("{{", text)
  {
    hide Resolve, Lookup, Within, FirstMark, Trim;
    var s, e := ScanNext(text), Nowhere();
    ScanParts(text);
    if !Within("{{", text) {
      forall e ensures Resolve(e, text).result == Ok(text) { ResolvePlain(e, text); }
    } else if s.Open? {
      var back :| FirstMark(s.text, "{{", back) && !Within("}}", back) && text == s.text + "{{" + back;
      ResolveOpen(e, s.text, back);
      assert Resolve(e, text).result.Err?;
    } else {
      var raw :| text == s.text + "{{" + (raw + "}}" + s.rest)
                 && FirstMark(s.text, "{{", raw + "}}" + s.rest) && FirstMark(raw, "}}", s.rest);
      ResolveParts(e, s.text, raw, s.rest);
      NothingThere(Trim(raw));
      assert Resolve(e, text).result.Err?;
    }
  }
}
