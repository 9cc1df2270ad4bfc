/** What authentication adds to a request that is sent (section 11.6.2 of RFC 9110,
    RFC 7617 and RFC 6750). */
module SentAuth {
  import opened Text
  import opened Resolution
  import opened Promotion

  /** Nothing is added without credentials, and none where a session's cookies do. */
  lemma NothingIsAdded(e: Env, o: Outside, session: Option<string>)
    ensures forall auth :: auth in {None, Some(NoAuth), Some(Inherit), Some(SessionAuth(session))} ==>
              Authenticate(e, o, auth) == Authenticated(Ok(Additions([], [])), {})
  {
  }

  /** A token goes into the `Authorization` header behind its scheme. */
  lemma TokenPlaced(e: Env, o: Outside, token: string)
    ensures Resolve(e, token).result.Ok? ==>
              Authenticate(e, o, Some(Bearer(token)))
              == Authenticated(Ok(Additions([("Authorization", "Bearer " + Resolve(e, token).result.value)], [])), Resolve(e, token).used)
    ensures Resolve(e, token).result.Err? ==>
              Authenticate(e, o, Some(Bearer(token))) == Authenticated(Err(Resolve(e, token).result.error), Resolve(e, token).used)
    ensures Authenticate(e, o, Some(OAuth2))
            == Authenticated(if o.token.Err? then Err(o.token.error)
                             else Ok(Additions([("Authorization", "Bearer " + o.token.value)], [])), o.tokenSecrets)
  {
    hide Resolve;
  }

  /** User and password in this order with a colon between them, encoded in one header. */
  lemma PasswordPlaced(e: Env, o: Outside, username: string, password: string)
    requires Resolve(e, username).result.Ok? && Resolve(e, password).result.Ok?
    ensures Authenticate(e, o, Some(Basic(username, password)))
            == Authenticated(Ok(Additions([("Authorization",
                 "Basic " + o.b64(Resolve(e, username).result.value + ":" + Resolve(e, password).result.value))], [])),
                 Resolve(e, username).used + Resolve(e, password).used)
  {
    hide Resolve;
  }

  /** A key marked for the query is in the query and in no header; any other is in one
      header and not in the query. */
  lemma KeyPlaced(e: Env, o: Outside, key: string, value: string)
    requires Resolve(e, key).result.Ok? && Resolve(e, value).result.Ok?
    ensures var pair, used := (Resolve(e, key).result.value, Resolve(e, value).result.value), Resolve(e, key).used + Resolve(e, value).used;
            && Authenticate(e, o, Some(ApiKey(key, value, true))) == Authenticated(Ok(Additions([], [pair])), used)
            && Authenticate(e, o, Some(ApiKey(key, value, false))) == Authenticated(Ok(Additions([pair], [])), used)
  {
    hide Resolve;
  }

  /** The first template that fails decides, and the second is then not resolved. */
  lemma FirstFailureDecides(e: Env, o: Outside, a: string, b: string, inQuery: bool)
    requires Resolve(e, a).result.Err? || Resolve(e, b).result.Err?
    ensures var failed := if Resolve(e, a).result.Err? then Authenticated(Err(Resolve(e, a).result.error), Resolve(e, a).used)
                          else Authenticated(Err(Resolve(e, b).result.error), Resolve(e, a).used + Resolve(e, b).used);
            && Authenticate(e, o, Some(Basic(a, b))) == failed
            && Authenticate(e, o, Some(ApiKey(a, b, inQuery))) == failed
  {
    hide Resolve;
  }
}
