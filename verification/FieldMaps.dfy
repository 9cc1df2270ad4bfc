/** Headers and query parameters: keys in order, each with one value or several. */
module FieldMaps {
  import opened Text
  import opened Marks
  import opened OrderedMap

  datatype FieldValue = One(value: string) | Many(values: seq<string>)

  type Entries = seq<(string, FieldValue)>

  function ValuesOf(v: FieldValue): seq<string> {
    match v case One(s) => [s] case Many(list) => list
  }

  function Added(v: Option<FieldValue>, value: string): FieldValue {
    match v
    case None => One(value)
    case Some(One(first)) => Many([first, value])
    case Some(Many(list)) => Many(list + [value])
  }

  function Inserted(m: Entries, key: string, value: string): Entries {
    Put(m, key, Added(Get(m, key), value))
  }

  function InsertAll(m: Entries, pairs: seq<(string, string)>): Entries
    decreases |pairs|
  {
    if pairs == [] then m
    else
      var n := |pairs| - 1;
      Inserted(InsertAll(m, pairs[..n]), pairs[n].0, pairs[n].1)
  }

  predicate SameName(a: string, b: string) {
    Lower(a) == Lower(b)
  }

  /** Names are compared without case, and the first key in order counts. */
  function First(m: Entries, key: string): Option<string> {
    if m == [] then None
    else if SameName(m[0].0, key) then Some(if ValuesOf(m[0].1) == [] then "" else ValuesOf(m[0].1)[0])
    else First(m[1..], key)
  }

  function WithKey(key: string, values: seq<string>): seq<(string, string)> {
    seq(|values|, i requires 0 <= i < |values| => (key, values[i]))
  }

  /** `iter_pairs`. */
  function Pairs(m: Entries): seq<(string, string)> {
    if m == [] then [] else WithKey(m[0].0, ValuesOf(m[0].1)) + Pairs(m[1..])
  }

  class FieldMap {
    var entries: Entries

    ghost predicate Valid()
      reads this
    {
      Ascending(entries)
    }

    constructor ()
      ensures Valid() && entries == []
    {
      entries := [];
    }

    method Insert(key: string, value: string)
      requires Valid()
      modifies this
      ensures Valid() && entries == Inserted(old(entries), key, value)
    {
      PutAscending(entries, key, Added(Get(entries, key), value));
      var held: Option<FieldValue> := Get(entries, key);
      match held {
        case Some(One(first)) =>
          entries := Put(entries, key, Many([first, value]));
        case Some(Many(list)) =>
          entries := Put(entries, key, Many(list + [value]));
        case None =>
          entries := Put(entries, key, One(value));
      }
    }

    /** The key gets this one value, whatever it had. */
    method Set(key: string, value: string)
      requires Valid()
      modifies this
      ensures Valid()
      ensures forall k :: Get(entries, k) == if k == key then Some(One(value)) else Get(old(entries), k)
    {
      PutAscending(entries, key, One(value));
      forall k ensures Get(Put(entries, key, One(value)), k) == if k == key then Some(One(value)) else Get(entries, k) {
        GetOfPut(entries, key, One(value), k);
      }
      entries := Put(entries, key, One(value));
    }

    /** Every spelling of the name goes, and no other key. */
    method Remove(key: string)
      requires Valid()
      modifies this
      ensures Valid() && First(entries, key) == None
      ensures forall k :: Get(entries, k) == if SameName(k, key) then None else Get(old(entries), k)
    {
      hide Get, Without, Ascending, Lower;
      ghost var before := entries;
      var found := Filter(SpelledAs(key), Map(KeyOf(), entries));
      KeysFound(entries, key);
      for i := 0 to |found|
        invariant Ascending(entries)
        invariant forall k :: Get(entries, k) == if k in found[..i] then None else Get(before, k)
      {
        WithoutAscending(entries, found[i]);
        forall k ensures Get(Without(entries, found[i]), k) == if k == found[i] then None else Get(entries, k) {
          GetOfWithout(entries, found[i], k);
        }
        entries := Without(entries, found[i]);
        assert found[..i + 1] == found[..i] + [found[i]];
      }
      assert found[..|found|] == found;
      NoneFirst(entries, key);
    }
  }

  function KeyOf(): ((string, FieldValue)) -> string {
    (e: (string, FieldValue)) => e.0
  }

  function SpelledAs(key: string): string -> bool {
    (k: string) => SameName(k, key)
  }

  lemma KeysFound(m: Entries, key: string)
    ensures forall k :: k in Filter(SpelledAs(key), Map(KeyOf(), m)) <==> HasKey(m, k) && SameName(k, key)
    ensures forall k :: !HasKey(m, k) ==> Get(m, k) == None
  {
    var keys := Map(KeyOf(), m);
    forall k ensures k in keys <==> HasKey(m, k) {
      if k in keys {
        var i :| 0 <= i < |keys| && keys[i] == k;
        assert m[i].0 == k;
      }
      if HasKey(m, k) {
        var i :| 0 <= i < |m| && m[i].0 == k;
        assert keys[i] == k;
      }
    }
  }

  /** A name is found exactly when some spelling of it is a key. */
  lemma {:induction false} NoneFirst(m: Entries, key: string)
    ensures First(m, key) == None <==> forall k :: HasKey(m, k) ==> !SameName(k, key)
  {
    if m != [] {
      NoneFirst(m[1..], key);
      assert HasKey(m, m[0].0);
      forall k ensures HasKey(m, k) <==> k == m[0].0 || HasKey(m[1..], k) {
        if i :| 0 <= i < |m| && m[i].0 == k { if i > 0 { assert m[1..][i - 1].0 == k; } }
        if i :| 0 <= i < |m[1..]| && m[1..][i].0 == k { assert m[i + 1].0 == k; }
      }
    }
  }

  lemma SameNameIff(a: string, b: string)
    ensures SameName(a, b) <==> Spells(a, b)
  {
    hide Lower, Spells;
    LowerIff(a, b);
  }

  /** Key `i` is the first that spells a name, in any case. */
  ghost predicate FirstSpelling(m: Entries, name: string, i: int) {
    0 <= i < |m| && Spells(m[i].0, name) && forall j :: 0 <= j < i ==> !Spells(m[j].0, name)
  }

  /** A name is found if some key spells it; its value is the first one of the first such
      key, and empty if that key has none. */
  lemma {:induction false} FirstIs(m: Entries, name: string)
    ensures First(m, name) == None <==> forall i :: 0 <= i < |m| ==> !Spells(m[i].0, name)
    ensures forall i :: FirstSpelling(m, name, i) ==>
              First(m, name) == Some(match m[i].1 case One(s) => s case Many(list) => if list == [] then "" else list[0])
  {
    hide SameName, Spells;
    if m != [] {
      SameNameIff(m[0].0, name);
      FirstIs(m[1..], name);
      forall i | FirstSpelling(m, name, i) ensures i == 0 || FirstSpelling(m[1..], name, i - 1) {
        SpellingBehind(m, name, i);
      }
      assert forall i :: 0 < i < |m| ==> m[i] == m[1..][i - 1];
    }
  }

  lemma SpellingBehind(m: Entries, name: string, i: int)
    requires FirstSpelling(m, name, i)
    ensures i == 0 || FirstSpelling(m[1..], name, i - 1)
  {
    hide Spells;
    assert forall j :: 0 <= j < |m[1..]| ==> m[1..][j] == m[j + 1];
  }

  // ---------- a key's values, in order ----------

  function Under(m: Entries, key: string): seq<string> {
    match Get(m, key) case None => [] case Some(v) => ValuesOf(v)
  }

  function HasName(key: string): ((string, string)) -> bool {
    (p: (string, string)) => p.0 == key
  }

  function Second(): ((string, string)) -> string {
    (p: (string, string)) => p.1
  }

  /** Inserting adds a value behind those its key has, and leaves other keys alone. */
  lemma InsertedUnder(m: Entries, key: string, value: string, k: string)
    requires Ascending(m)
    ensures Ascending(Inserted(m, key, value))
    ensures Under(Inserted(m, key, value), k) == Under(m, k) + (if k == key then [value] else [])
  {
    hide Get, Put, Ascending;
    var added := Added(Get(m, key), value);
    PutAscending(m, key, added);
    GetOfPut(m, key, added, k);
    assert k != key ==> Under(m, k) + [] == Under(m, k);
  }

  /** Whatever order pairs come in, every key keeps its values in that order. */
  lemma {:induction false} InsertAllUnder(pairs: seq<(string, string)>, k: string)
    ensures Ascending(InsertAll([], pairs))
    ensures Under(InsertAll([], pairs), k) == Map(Second(), Filter(HasName(k), pairs))
    decreases |pairs|
  {
    hide Under, Inserted, Ascending, Filter;
    if pairs == [] {
      NothingUnder(k);
    } else {
      var n := |pairs| - 1;
      InsertAllUnder(pairs[..n], k);
      InsertedUnder(InsertAll([], pairs[..n]), pairs[n].0, pairs[n].1, k);
      LastFiltered(pairs, k);
    }
  }

  lemma NothingUnder(k: string)
    ensures Under([], k) == [] && Map(Second(), Filter(HasName(k), [])) == []
    ensures Ascending<FieldValue>([])
  {
  }

  lemma LastFiltered(pairs: seq<(string, string)>, k: string)
    requires pairs != []
    ensures var n := |pairs| - 1;
            Map(Second(), Filter(HasName(k), pairs))
            == Map(Second(), Filter(HasName(k), pairs[..n])) + (if k == pairs[n].0 then [pairs[n].1] else [])
  {
    hide Filter;
    var n := |pairs| - 1;
    assert pairs[..n + 1] == pairs;
    FilterSnoc(HasName(k), pairs, n);
  }

  // ---------- a map is rebuilt from its pairs ----------

  /** As inserting leaves a map: keys ascend and only several values make a list. */
  ghost predicate Normal(m: Entries) {
    Ascending(m) && forall e :: e in m && e.1.Many? ==> |e.1.values| >= 2
  }

  lemma EmptyIsNormal()
    ensures Normal([])
  {
  }

  lemma InsertedNormal(m: Entries, key: string, value: string)
    requires Normal(m)
    ensures Normal(Inserted(m, key, value))
  {
    hide Get, Put, Ascending;
    var added := Added(Get(m, key), value);
    PutAscending(m, key, added);
    PutKeys(m, key, added);
    if Get(m, key).Some? { assert (key, Get(m, key).value) in m; }
  }

  lemma {:induction false} InsertAllAppend(m: Entries, a: seq<(string, string)>, b: seq<(string, string)>)
    ensures InsertAll(m, a + b) == InsertAll(InsertAll(m, a), b)
    decreases |b|
  {
    hide Inserted;
    if b == [] {
      assert a + b == a;
    } else {
      var n := |b| - 1;
      assert (a + b)[..|a + b| - 1] == a + b[..n] && (a + b)[|a + b| - 1] == b[n];
      InsertAllAppend(m, a, b[..n]);
    }
  }

  /** The value that several insertions of one key make. */
  function Gathered(values: seq<string>): FieldValue
    requires values != []
  {
    if |values| == 1 then One(values[0]) else Many(values)
  }

  lemma {:induction false} InsertOneKey(m: Entries, key: string, values: seq<string>)
    requires values != [] && Ascending(m) && forall i :: 0 <= i < |m| ==> LexLess(m[i].0, key)
    ensures InsertAll(m, WithKey(key, values)) == m + [(key, Gathered(values))]
    decreases |values|
  {
    hide Put, Get, Ascending;
    var n := |values| - 1;
    var pairs := WithKey(key, values);
    assert pairs[..n] == WithKey(key, values[..n]) && pairs[n] == (key, values[n]);
    LastKey(m, key);
    if n == 0 {
      assert InsertAll(m, pairs[..0]) == m;
      PutLast(m, key, One(values[0]));
    } else {
      InsertOneKey(m, key, values[..n]);
      ReplaceLast(m, key, Gathered(values[..n]), Gathered(values));
      AddedGathered(values);
    }
  }

  lemma AddedGathered(values: seq<string>)
    requires |values| > 1
    ensures Added(Some(Gathered(values[..|values| - 1])), values[|values| - 1]) == Gathered(values)
  {
    assert values == values[..|values| - 1] + [values[|values| - 1]];
  }

  lemma {:induction false} LastKey(m: Entries, key: string)
    requires forall i :: 0 <= i < |m| ==> LexLess(m[i].0, key)
    ensures Get(m, key) == None
  {
    if m != [] {
      LexLessIrreflexive(key);
      LastKey(m[1..], key);
    }
  }

  lemma {:induction false} ReplaceLast(m: Entries, key: string, v: FieldValue, v': FieldValue)
    requires forall i :: 0 <= i < |m| ==> LexLess(m[i].0, key)
    ensures Get(m + [(key, v)], key) == Some(v)
    ensures Put(m + [(key, v)], key, v') == m + [(key, v')]
  {
    hide LexLess, Get, Put;
    if m == [] {
      ReplaceOnly(key, v, v');
      assert m + [(key, v)] == [(key, v)] && m + [(key, v')] == [(key, v')];
    } else {
      LexLessIrreflexive(key);
      LexLessAsymmetric(m[0].0, key);
      ReplaceLast(m[1..], key, v, v');
      ReplaceBehind(m[0], m[1..] + [(key, v)], key, v');
      assert m + [(key, v)] == [m[0]] + (m[1..] + [(key, v)]);
      assert m + [(key, v')] == [m[0]] + (m[1..] + [(key, v')]);
    }
  }

  lemma ReplaceOnly(key: string, v: FieldValue, v': FieldValue)
    ensures Get([(key, v)], key) == Some(v) && Put([(key, v)], key, v') == [(key, v')]
  {
    LexLessIrreflexive(key);
  }

  lemma ReplaceBehind(first: (string, FieldValue), rest: Entries, key: string, v: FieldValue)
    requires LexLess(first.0, key) && !LexLess(key, first.0) && first.0 != key
    ensures Get([first] + rest, key) == Get(rest, key)
    ensures Put([first] + rest, key, v) == [first] + Put(rest, key, v)
  {
    hide LexLess;
    assert ([first] + rest)[1..] == rest;
  }

  lemma NormalSplit(done: Entries, todo: Entries)
    requires todo != [] && Normal(done + todo)
    ensures Ascending(done) && forall i :: 0 <= i < |done| ==> LexLess(done[i].0, todo[0].0)
    ensures ValuesOf(todo[0].1) != [] && Gathered(ValuesOf(todo[0].1)) == todo[0].1
    ensures done + todo == done + [todo[0]] + todo[1..]
  {
    hide LexLess;
    var all := done + todo;
    assert all[|done|] == todo[0] && todo[0] in all;
    forall i | 0 <= i < |done| ensures LexLess(done[i].0, todo[0].0) { assert all[i] == done[i]; }
    forall i, j | 0 <= i < j < |done| ensures LexLess(done[i].0, done[j].0) { assert all[i] == done[i] && all[j] == done[j]; }
  }

  lemma {:induction false} InsertAllFrom(done: Entries, todo: Entries)
    requires Normal(done + todo)
    ensures InsertAll(done, Pairs(todo)) == done + todo
    decreases |todo|
  {
    if todo == [] {
      assert done + todo == done;
    } else {
      hide InsertAll, LexLess, Pairs, Gathered, Normal, Ascending;
      NormalSplit(done, todo);
      InsertOneKey(done, todo[0].0, ValuesOf(todo[0].1));
      PairsFirst(todo);
      InsertAllAppend(done, WithKey(todo[0].0, ValuesOf(todo[0].1)), Pairs(todo[1..]));
      assert (todo[0].0, todo[0].1) == todo[0];
      InsertAllFrom(done + [todo[0]], todo[1..]);
    }
  }

  lemma PairsFirst(m: Entries)
    requires m != []
    ensures Pairs(m) == WithKey(m[0].0, ValuesOf(m[0].1)) + Pairs(m[1..])
  {
  }

  /** Inserting a map's own pairs one by one rebuilds it. */
  lemma RebuiltFromPairs(m: Entries)
    requires Normal(m)
    ensures InsertAll([], Pairs(m)) == m
  {
    hide Pairs, InsertAll;
    assert [] + m == m;
    InsertAllFrom([], m);
  }

  lemma {:induction false} InsertAllNormal(m: Entries, pairs: seq<(string, string)>)
    requires Normal(m)
    ensures Normal(InsertAll(m, pairs))
    decreases |pairs|
  {
    if pairs != [] {
      hide Normal, Inserted;
      var n := |pairs| - 1;
      InsertAllNormal(m, pairs[..n]);
      InsertedNormal(InsertAll(m, pairs[..n]), pairs[n].0, pairs[n].1);
    }
  }
}
