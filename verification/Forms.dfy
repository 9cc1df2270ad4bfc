/** Form bodies: read from a capture, written again by a request. */
module Forms {
  import opened Text
  import opened OrderedMap
  import opened Percent
  import opened Resolution

  // ---------- reading ----------

  function Present(): string -> bool {
    (piece: string) => piece != ""
  }

  /** The non-empty pieces between `&`. */
  function Pieces(text: string): seq<string> {
    Filter(Present(), Split(text, '&'))
  }

  function KeyValue(piece: string): (string, string) {
    match SplitOnce(piece, '=') case Some(kv) => kv case None => (piece, "")
  }

  function DecodePair(k: string, v: string): Option<(string, string)> {
    match (Decoded(k), Decoded(v))
    case (Some(key), Some(value)) => Some((key, value))
    case _ => None
  }

  /** The pairs of the pieces, in order; `None` when decoding fails. */
  function DecodePairs(pieces: seq<string>): Option<seq<(string, string)>>
    decreases |pieces|
  {
    if pieces == [] then Some([])
    else
      var n := |pieces| - 1;
      match (DecodePairs(pieces[..n]), DecodePair(KeyValue(pieces[n]).0, KeyValue(pieces[n]).1))
      case (Some(pairs), Some(last)) => Some(pairs + [last])
      case _ => None
  }

  function ParseForm(text: string): Option<seq<(string, string)>> {
    match DecodePairs(Pieces(text))
    case None => None
    case Some(pairs) => Some(PutAll([], pairs))
  }

  // ---------- writing ----------

  function EncodeField(field: (string, string)): string {
    Encoded(field.0, true) + "=" + Encoded(field.1, true)
  }

  function EncodeForm(fields: seq<(string, string)>): string {
    Join(Map(EncodeField, fields), "&")
  }

  /** The fields resolved so far, or the first failure, with the secrets used. */
  datatype Resolved = Resolved(fields: Result<seq<(string, string)>, Error>, used: set<string>)

  function ResolveNext(e: Env, before: Resolved, field: (string, string)): Resolved {
    if before.fields.Err? then before
    else
      var key := Resolve(e, field.0);
      if key.result.Err? then Resolved(Err(key.result.error), before.used + key.used)
      else
        var value := Resolve(e, field.1);
        if value.result.Err? then Resolved(Err(value.result.error), before.used + key.used + value.used)
        else Resolved(Ok(before.fields.value + [(key.result.value, value.result.value)]), before.used + key.used + value.used)
  }

  function ResolveFields(e: Env, fields: seq<(string, string)>): Resolved
    decreases |fields|
  {
    if fields == [] then Resolved(Ok([]), {})
    else ResolveNext(e, ResolveFields(e, fields[..|fields| - 1]), fields[|fields| - 1])
  }

  /** The form branch of `build_body`. */
  method BuildForm(resolver: Resolver, fields: seq<(string, string)>) returns (body: Result<string, Error>)
    modifies resolver`usedSecrets
    ensures var r := ResolveFields(resolver.Scope(), fields);
            && body == (if r.fields.Err? then Err(r.fields.error) else Ok(EncodeForm(r.fields.value)))
            && resolver.usedSecrets == old(resolver.usedSecrets) + r.used
  {
    hide Resolve, EncodeForm, Encoded, ResolveFields;
    ghost var e := resolver.Scope();
    ghost var done: seq<(string, string)> := [];
    var out := "";
    NoFields(e);
    assert fields[..0] == [];
    for i := 0 to |fields|
      invariant ResolveFields(e, fields[..i]).fields == Ok(done)
      invariant resolver.usedSecrets == old(resolver.usedSecrets) + ResolveFields(e, fields[..i]).used
      invariant out == EncodeForm(done) && (out == "" <==> done == [])
    {
      ResolveStep(e, fields, i);
      EarlyFailure(e, fields, i + 1);
      if out != "" {
        out := out + "&";
      }
      var key := resolver.ResolveText(fields[i].0);
      if key.Err? {
        return Err(key.error);
      }
      var k := Urlencode(key.value, true);
      out := out + k + "=";
      var value := resolver.ResolveText(fields[i].1);
      if value.Err? {
        return Err(value.error);
      }
      var v := Urlencode(value.value, true);
      out := out + v;
      EncodeFormSnoc(done, (key.value, value.value));
      done := done + [(key.value, value.value)];
    }
    assert fields[..|fields|] == fields;
    body := Ok(out);
  }

  lemma NoFields(e: Env)
    ensures ResolveFields(e, []) == Resolved(Ok([]), {}) && EncodeForm([]) == ""
  {
  }

  lemma ResolveStep(e: Env, fields: seq<(string, string)>, i: nat)
    requires i < |fields|
    ensures ResolveFields(e, fields[..i + 1]) == ResolveNext(e, ResolveFields(e, fields[..i]), fields[i])
  {
    hide ResolveNext;
    assert fields[..i + 1][..i] == fields[..i];
  }

  /** A failure among the first fields is the failure of all. */
  lemma {:induction false} EarlyFailure(e: Env, fields: seq<(string, string)>, i: nat)
    requires i <= |fields|
    ensures ResolveFields(e, fields[..i]).fields.Err? ==> ResolveFields(e, fields) == ResolveFields(e, fields[..i])
    decreases |fields|
  {
    hide Resolve;
    if i == |fields| {
      assert fields[..i] == fields;
    } else {
      var n := |fields| - 1;
      assert fields[..n][..i] == fields[..i];
      EarlyFailure(e, fields[..n], i);
    }
  }

  lemma EncodeFormSnoc(fields: seq<(string, string)>, field: (string, string))
    ensures EncodeForm(fields + [field])
            == EncodeForm(fields) + (if fields == [] then "" else "&") + Encoded(field.0, true) + "=" + Encoded(field.1, true)
    ensures EncodeForm(fields + [field]) != ""
  {
    hide Encoded;
    var one := [EncodeField(field)];
    assert Map(EncodeField, fields + [field]) == Map(EncodeField, fields) + one;
    if fields == [] {
      assert Map(EncodeField, fields + [field]) == one;
    } else {
      JoinAppend(Map(EncodeField, fields), one, "&");
    }
  }

  /** A piece is a name and a value around its first `=`, or a name alone. */
  lemma KeyValueReads(name: string, value: string)
    requires '=' !in name
    ensures KeyValue(name + "=" + value) == (name, value) && KeyValue(name) == (name, "")
  {
    hide SplitOnce;
    SplitOnceFirst(name, '=', value);
    assert name + "=" + value == name + ['='] + value;
  }

  // ---------- what is written reads back ----------

  lemma EncodedHasNo(s: string, spaceAsPlus: bool)
    ensures '&' !in Encoded(s, spaceAsPlus) && '=' !in Encoded(s, spaceAsPlus)
  {
    EncodedIsPlain(Utf8.Encode(s), spaceAsPlus);
  }

  lemma FieldReadsBack(field: (string, string))
    ensures KeyValue(EncodeField(field)) == (Encoded(field.0, true), Encoded(field.1, true))
    ensures DecodePair(Encoded(field.0, true), Encoded(field.1, true)) == Some(field)
    ensures '&' !in EncodeField(field) && EncodeField(field) != ""
  {
    hide Encoded, Decoded;
    EncodedHasNo(field.0, true);
    EncodedHasNo(field.1, true);
    DecodedOfEncoded(field.0, true);
    DecodedOfEncoded(field.1, true);
    SplitOnceFirst(Encoded(field.0, true), '=', Encoded(field.1, true));
  }

  lemma {:induction false} FieldsReadBack(fields: seq<(string, string)>)
    ensures DecodePairs(Map(EncodeField, fields)) == Some(fields)
    decreases |fields|
  {
    hide EncodeField, DecodePair, KeyValue;
    if fields != [] {
      var n := |fields| - 1;
      FieldsReadBack(fields[..n]);
      FieldReadsBack(fields[n]);
      assert Map(EncodeField, fields)[..n] == Map(EncodeField, fields[..n]);
      assert fields == fields[..n] + [fields[n]];
    }
  }

  lemma PiecesOfForm(fields: seq<(string, string)>)
    ensures Pieces(EncodeForm(fields)) == Map(EncodeField, fields)
  {
    hide EncodeField, Split;
    var pieces := Map(EncodeField, fields);
    if fields == [] {
      assert Split("", '&') == [""] by { SplitNone("", '&'); }
      assert [""][1..] == [];
    } else {
      forall p | p in pieces ensures '&' !in p && p != "" {
        var i :| 0 <= i < |pieces| && pieces[i] == p;
        FieldReadsBack(fields[i]);
      }
      SplitOfJoin(pieces, '&');
      FilterAll(Present(), pieces);
    }
  }

  /** A form written out reads back pair by pair, whatever the pairs are. */
  lemma FormReadsBack(fields: seq<(string, string)>)
    ensures ParseForm(EncodeForm(fields)) == Some(PutAll([], fields))
  {
    hide Pieces, DecodePairs, EncodeForm;
    PiecesOfForm(fields);
    FieldsReadBack(fields);
  }

  lemma PlainResolves(e: Env, template: string)
    requires !Contains(template, "{{")
    ensures Resolve(e, template) == Outcome(Ok(template), {})
  {
  }

  ghost predicate NoTemplate(fields: seq<(string, string)>) {
    forall f :: f in fields ==> !Contains(f.0, "{{") && !Contains(f.1, "{{")
  }

  lemma {:induction false} PlainFieldsResolve(e: Env, fields: seq<(string, string)>)
    requires NoTemplate(fields)
    ensures ResolveFields(e, fields) == Resolved(Ok(fields), {})
    decreases |fields|
  {
    hide Resolve, Contains;
    if fields != [] {
      var n := |fields| - 1;
      assert fields[n] in fields;
      PlainFieldsResolve(e, fields[..n]);
      PlainResolves(e, fields[n].0);
      PlainResolves(e, fields[n].1);
      assert fields == fields[..n] + [fields[n]];
    }
  }

  /** A form body read from a capture, resolved and written again, decodes to the same
      fields, provided none holds a template. */
  lemma FormSurvives(e: Env, text: string)
    requires ParseForm(text).Some? && NoTemplate(ParseForm(text).value)
    ensures var resolved := ResolveFields(e, ParseForm(text).value).fields;
            resolved.Ok? && ParseForm(EncodeForm(resolved.value)) == ParseForm(text)
  {
    hide Pieces, DecodePairs, EncodeForm, NoTemplate, ResolveFields;
    var fields := ParseForm(text).value;
    PlainFieldsResolve(e, fields);
    FormReadsBack(fields);
    PutAllAscending([], DecodePairs(Pieces(text)).value);
    PutAllOfMap(fields);
  }

  // ---------- pairs as a map ----------

  /** The last pair of a key counts. */
  function MapOf(pairs: seq<(string, string)>): map<string, string>
    decreases |pairs|
  {
    if pairs == [] then map[] else
      var n := |pairs| - 1;
      MapOf(pairs[..n])[pairs[n].0 := pairs[n].1]
  }

  lemma {:induction false} MapOfAppend(a: seq<(string, string)>, b: seq<(string, string)>)
    ensures MapOf(a + b) == MapOf(a) + MapOf(b)
    decreases |b|
  {
    if b == [] {
      assert a + b == a;
    } else {
      var n := |b| - 1;
      assert (a + b)[..|a + b| - 1] == a + b[..n];
      MapOfAppend(a, b[..n]);
    }
  }

  lemma {:induction false} MapOfDistinct(pairs: seq<(string, string)>)
    requires forall i, j :: 0 <= i < j < |pairs| ==> pairs[i].0 != pairs[j].0
    ensures forall k, v :: (k in MapOf(pairs) && MapOf(pairs)[k] == v) <==> (k, v) in pairs
    decreases |pairs|
  {
    if pairs != [] {
      var n := |pairs| - 1;
      MapOfDistinct(pairs[..n]);
      assert pairs == pairs[..n] + [pairs[n]];
      assert forall i :: 0 <= i < n ==> pairs[..n][i].0 != pairs[n].0;
    }
  }
}
