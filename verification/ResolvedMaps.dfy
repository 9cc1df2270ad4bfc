/** Resolving the templates in a whole map of headers or parameters. */
module ResolvedMaps {
  import opened Text
  import opened OrderedMap
  import opened FieldMaps
  import opened Resolution

  // ---------- the specification ----------

  /** A list resolved so far, or the first failure, with the secrets used. */
  datatype ResolvedList = ResolvedList(values: Result<seq<string>, Error>, used: set<string>)

  function ResolveList(e: Env, list: seq<string>): ResolvedList
    decreases |list|
  {
    if list == [] then ResolvedList(Ok([]), {})
    else
      var before := ResolveList(e, list[..|list| - 1]);
      if before.values.Err? then before
      else
        var last := Resolve(e, list[|list| - 1]);
        ResolvedList(if last.result.Err? then Err(last.result.error) else Ok(before.values.value + [last.result.value]),
                     before.used + last.used)
  }

  datatype ResolvedMap = ResolvedMap(entries: Result<Entries, Error>, used: set<string>)

  function Rebuilt(v: FieldValue, values: seq<string>): FieldValue {
    if v.One? && values != [] then One(values[0]) else Many(values)
  }

  /** One more entry: its key, then its values. */
  function ResolveEntry(e: Env, before: ResolvedMap, entry: (string, FieldValue)): ResolvedMap {
    if before.entries.Err? then before
    else
      var key := Resolve(e, entry.0);
      if key.result.Err? then ResolvedMap(Err(key.result.error), before.used + key.used)
      else
        var list := ResolveList(e, ValuesOf(entry.1));
        var used := before.used + key.used + list.used;
        if list.values.Err? then ResolvedMap(Err(list.values.error), used)
        else ResolvedMap(Ok(Put(before.entries.value, key.result.value, Rebuilt(entry.1, list.values.value))), used)
  }

  function ResolveEntries(e: Env, m: Entries): ResolvedMap
    decreases |m|
  {
    if m == [] then ResolvedMap(Ok([]), {})
    else ResolveEntry(e, ResolveEntries(e, m[..|m| - 1]), m[|m| - 1])
  }

  // ---------- the loops ----------

  method ResolveValues(resolver: Resolver, list: seq<string>) returns (r: Result<seq<string>, Error>)
    modifies resolver`usedSecrets
    ensures r == ResolveList(resolver.Scope(), list).values
    ensures resolver.usedSecrets == old(resolver.usedSecrets) + ResolveList(resolver.Scope(), list).used
  {
    hide Resolve;
    ghost var e := resolver.Scope();
    var done: seq<string> := [];
    for i := 0 to |list|
      invariant ResolveList(e, list[..i]).values == Ok(done)
      invariant resolver.usedSecrets == old(resolver.usedSecrets) + ResolveList(e, list[..i]).used
    {
      assert list[..i + 1][..i] == list[..i];
      EarlyListFailure(e, list, i + 1);
      var value := resolver.ResolveText(list[i]);
      if value.Err? {
        return Err(value.error);
      }
      done := done + [value.value];
    }
    assert list[..|list|] == list;
    r := Ok(done);
  }

  lemma {:induction false} EarlyListFailure(e: Env, list: seq<string>, i: nat)
    requires i <= |list|
    ensures ResolveList(e, list[..i]).values.Err? ==> ResolveList(e, list) == ResolveList(e, list[..i])
    decreases |list|
  {
    hide Resolve;
    if i == |list| {
      assert list[..i] == list;
    } else {
      assert list[..|list| - 1][..i] == list[..i];
      EarlyListFailure(e, list[..|list| - 1], i);
    }
  }

  method ResolveMap(resolver: Resolver, m: Entries) returns (r: Result<Entries, Error>)
    modifies resolver`usedSecrets
    ensures r == ResolveEntries(resolver.Scope(), m).entries
    ensures resolver.usedSecrets == old(resolver.usedSecrets) + ResolveEntries(resolver.Scope(), m).used
  {
    hide Resolve, ResolveList, ResolveEntries, Put;
    ghost var e := resolver.Scope();
    var done: Entries := [];
    NoEntries(e, m);
    for i := 0 to |m|
      invariant ResolveEntries(e, m[..i]).entries == Ok(done)
      invariant resolver.usedSecrets == old(resolver.usedSecrets) + ResolveEntries(e, m[..i]).used
    {
      EntryStep(e, m, i);
      EarlyMapFailure(e, m, i + 1);
      var key := resolver.ResolveText(m[i].0);
      if key.Err? {
        return Err(key.error);
      }
      var values := ResolveValues(resolver, ValuesOf(m[i].1));
      if values.Err? {
        return Err(values.error);
      }
      done := Put(done, key.value, Rebuilt(m[i].1, values.value));
    }
    assert m[..|m|] == m;
    r := Ok(done);
  }

  lemma NoEntries(e: Env, m: Entries)
    ensures ResolveEntries(e, m[..0]) == ResolvedMap(Ok([]), {})
  {
  }

  lemma EntryStep(e: Env, m: Entries, i: nat)
    requires i < |m|
    ensures ResolveEntries(e, m[..i + 1]) == ResolveEntry(e, ResolveEntries(e, m[..i]), m[i])
  {
    hide ResolveEntry;
    assert m[..i + 1][..i] == m[..i];
  }

  lemma {:induction false} EarlyMapFailure(e: Env, m: Entries, i: nat)
    requires i <= |m|
    ensures ResolveEntries(e, m[..i]).entries.Err? ==> ResolveEntries(e, m) == ResolveEntries(e, m[..i])
    decreases |m|
  {
    hide Resolve, ResolveList, Put;
    if i == |m| {
      assert m[..i] == m;
    } else {
      assert m[..|m| - 1][..i] == m[..i];
      EarlyMapFailure(e, m[..|m| - 1], i);
    }
  }

  // ---------- when every text resolves ----------

  function MapValue(v: FieldValue, g: string -> string): FieldValue {
    match v case One(s) => One(g(s)) case Many(list) => Many(Map(g, list))
  }

  function MapEntry(g: string -> string): ((string, FieldValue)) -> (string, FieldValue) {
    (e: (string, FieldValue)) => (e.0, MapValue(e.1, g))
  }

  function MapValues(m: Entries, g: string -> string): Entries {
    Map(MapEntry(g), m)
  }

  ghost predicate ResolvesBy(e: Env, entry: (string, FieldValue), g: string -> string) {
    && Resolve(e, entry.0).result == Ok(entry.0)
    && forall s :: s in ValuesOf(entry.1) ==> Resolve(e, s).result == Ok(g(s))
  }

  lemma {:induction false} ListResolvesBy(e: Env, list: seq<string>, g: string -> string)
    requires forall s :: s in list ==> Resolve(e, s).result == Ok(g(s))
    ensures ResolveList(e, list).values == Ok(Map(g, list))
    decreases |list|
  {
    hide Resolve;
    if list != [] {
      var n := |list| - 1;
      ListResolvesBy(e, list[..n], g);
      assert list[n] in list;
      assert Map(g, list) == Map(g, list[..n]) + [g(list[n])];
    }
  }

  lemma EntryResolvesBy(e: Env, before: ResolvedMap, entry: (string, FieldValue), g: string -> string)
    requires before.entries.Ok? && ResolvesBy(e, entry, g)
    ensures ResolveEntry(e, before, entry).entries == Ok(Put(before.entries.value, entry.0, MapValue(entry.1, g)))
  {
    hide Resolve, Put, ResolveList;
    ListResolvesBy(e, ValuesOf(entry.1), g);
    assert entry.1.One? ==> Map(g, ValuesOf(entry.1)) == [g(entry.1.value)];
  }

  lemma LastMapped(m: Entries, g: string -> string)
    requires m != [] && Ascending(m)
    ensures var n := |m| - 1;
            Ascending(m[..n]) && Put(MapValues(m[..n], g), m[n].0, MapValue(m[n].1, g)) == MapValues(m, g)
  {
    hide MapValue, LexLess, Put;
    var n := |m| - 1;
    var front := MapValues(m[..n], g);
    forall i | 0 <= i < |front| ensures LexLess(front[i].0, m[n].0) { assert LexLess(m[i].0, m[n].0); }
    PutLast(front, m[n].0, MapValue(m[n].1, g));
    assert MapValues(m, g) == front + [(m[n].0, MapValue(m[n].1, g))];
  }

  /** A map whose keys hold no template and whose values resolve one by one resolves to
      the map of their values. */
  lemma {:induction false} MapResolvesBy(e: Env, m: Entries, g: string -> string)
    requires Ascending(m) && forall entry :: entry in m ==> ResolvesBy(e, entry, g)
    ensures ResolveEntries(e, m).entries == Ok(MapValues(m, g))
    decreases |m|
  {
    if m != [] {
      hide ResolvesBy, ResolveEntry, MapValue, Ascending, Put, MapValues;
      var n := |m| - 1;
      LastMapped(m, g);
      MapResolvesBy(e, m[..n], g);
      assert m[n] in m;
      EntryResolvesBy(e, ResolveEntries(e, m[..n]), m[n], g);
    }
  }

  // ---------- mapping the values of what was inserted ----------

  lemma {:induction false} GetOfMapped(m: Entries, g: string -> string, k: string)
    ensures Get(MapValues(m, g), k) == match Get(m, k) { case None => None case Some(v) => Some(MapValue(v, g)) }
  {
    if m != [] {
      hide MapValue;
      assert MapValues(m, g)[1..] == MapValues(m[1..], g);
      GetOfMapped(m[1..], g, k);
    }
  }

  lemma {:induction false} PutOfMapped(m: Entries, g: string -> string, k: string, v: FieldValue)
    ensures Put(MapValues(m, g), k, MapValue(v, g)) == MapValues(Put(m, k, v), g)
  {
    hide MapValue, LexLess;
    if m == [] {
      assert MapValues([(k, v)], g) == [(k, MapValue(v, g))];
    } else {
      var mapped := MapValues(m, g);
      assert mapped[1..] == MapValues(m[1..], g);
      PutOfMapped(m[1..], g, k, v);
      assert MapValues([(k, v)] + m[1..], g) == [(k, MapValue(v, g))] + mapped[1..];
      assert MapValues([(k, v)] + m, g) == [(k, MapValue(v, g))] + mapped;
      assert MapValues([m[0]] + Put(m[1..], k, v), g) == [mapped[0]] + MapValues(Put(m[1..], k, v), g);
    }
  }

  lemma InsertedMapped(m: Entries, g: string -> string, k: string, value: string)
    ensures MapValues(Inserted(m, k, value), g) == Inserted(MapValues(m, g), k, g(value))
  {
    hide Put, Get, MapValues;
    GetOfMapped(m, g, k);
    PutOfMapped(m, g, k, Added(Get(m, k), value));
    AddedMapped(Get(m, k), g, value);
  }

  lemma AddedMapped(held: Option<FieldValue>, g: string -> string, value: string)
    ensures MapValue(Added(held, value), g)
            == Added(match held { case None => None case Some(v) => Some(MapValue(v, g)) }, g(value))
  {
    match held
    case None =>
    case Some(One(first)) =>
      assert Map(g, [first, value]) == [g(first), g(value)];
    case Some(Many(list)) =>
      assert Map(g, list + [value]) == Map(g, list) + [g(value)];
  }

  function MapPair(g: string -> string): ((string, string)) -> (string, string) {
    (p: (string, string)) => (p.0, g(p.1))
  }

  lemma {:induction false} InsertAllMapped(pairs: seq<(string, string)>, g: string -> string)
    ensures MapValues(InsertAll([], pairs), g) == InsertAll([], Map(MapPair(g), pairs))
    decreases |pairs|
  {
    if pairs == [] {
      assert MapValues([], g) == [];
    } else {
      hide Inserted, MapValues;
      var n := |pairs| - 1;
      InsertAllMapped(pairs[..n], g);
      InsertedMapped(InsertAll([], pairs[..n]), g, pairs[n].0, pairs[n].1);
      assert Map(MapPair(g), pairs)[..n] == Map(MapPair(g), pairs[..n]);
    }
  }

  /** All values of a map are among these pairs, and every key has one. */
  ghost predicate Among(m: Entries, pairs: seq<(string, string)>) {
    forall entry :: entry in m ==> EntryAmong(entry, pairs)
  }

  ghost predicate EntryAmong(entry: (string, FieldValue), pairs: seq<(string, string)>) {
    ValuesOf(entry.1) != [] && forall s :: s in ValuesOf(entry.1) ==> (entry.0, s) in pairs
  }

  lemma AddedAmong(held: Option<FieldValue>, key: string, value: string, pairs: seq<(string, string)>)
    requires held.Some? ==> EntryAmong((key, held.value), pairs)
    ensures EntryAmong((key, Added(held, value)), pairs + [(key, value)])
  {
    if held.Some? {
      assert ValuesOf(Added(held, value)) == ValuesOf(held.value) + [value];
    } else {
      assert ValuesOf(Added(held, value)) == [value];
    }
  }

  lemma InsertedAmong(m: Entries, key: string, value: string, pairs: seq<(string, string)>)
    requires Among(m, pairs)
    ensures Among(Inserted(m, key, value), pairs + [(key, value)])
  {
    hide Put, Get, EntryAmong;
    var held := Get(m, key);
    if held.Some? { assert (key, held.value) in m; }
    AddedAmong(held, key, value, pairs);
    PutKeys(m, key, Added(held, value));
    forall entry | entry in m ensures EntryAmong(entry, pairs + [(key, value)]) { EntryStaysAmong(entry, pairs, (key, value)); }
  }

  lemma EntryStaysAmong(entry: (string, FieldValue), pairs: seq<(string, string)>, more: (string, string))
    requires EntryAmong(entry, pairs)
    ensures EntryAmong(entry, pairs + [more])
  {
  }

  /** A map made by insertion holds nothing but the pairs inserted. */
  lemma {:induction false} InsertAllAmong(pairs: seq<(string, string)>)
    ensures Among(InsertAll([], pairs), pairs)
    decreases |pairs|
  {
    if pairs != [] {
      hide Inserted, Among;
      var n := |pairs| - 1;
      InsertAllAmong(pairs[..n]);
      InsertedAmong(InsertAll([], pairs[..n]), pairs[n].0, pairs[n].1, pairs[..n]);
      assert pairs[..n] + [(pairs[n].0, pairs[n].1)] == pairs;
    }
  }
}
