/** `BTreeMap<String, V>`: pairs in ascending order of their keys. */
module OrderedMap {
  import opened Text

  ghost predicate Ascending<V>(m: seq<(string, V)>) {
    forall i, j :: 0 <= i < j < |m| ==> LexLess(m[i].0, m[j].0)
  }

  predicate HasKey<V>(m: seq<(string, V)>, k: string) {
    exists i :: 0 <= i < |m| && m[i].0 == k
  }

  function Put<V>(m: seq<(string, V)>, k: string, v: V): (r: seq<(string, V)>)
    ensures r != []
  {
    if m == [] then [(k, v)]
    else if m[0].0 == k then [(k, v)] + m[1..]
    else if LexLess(k, m[0].0) then [(k, v)] + m
    else [m[0]] + Put(m[1..], k, v)
  }

  function Get<V>(m: seq<(string, V)>, k: string): (r: Option<V>)
    ensures r.Some? <==> HasKey(m, k)
    ensures r.Some? ==> (k, r.value) in m
  {
    if m == [] then None else if m[0].0 == k then Some(m[0].1) else
      var r := Get(m[1..], k);
      assert HasKey(m[1..], k) ==> HasKey(m, k) by {
        if i :| 0 <= i < |m[1..]| && m[1..][i].0 == k { assert m[i + 1].0 == k; }
      }
      r
  }

  /** `remove`. */
  function Without<V>(m: seq<(string, V)>, k: string): seq<(string, V)> {
    if m == [] then [] else if m[0].0 == k then m[1..] else [m[0]] + Without(m[1..], k)
  }

  lemma {:induction false} PutKeys<V>(m: seq<(string, V)>, k: string, v: V)
    ensures forall p :: p in Put(m, k, v) ==> p in m || p == (k, v)
  {
    if m != [] && m[0].0 != k && !LexLess(k, m[0].0) { PutKeys(m[1..], k, v); }
  }

  lemma {:induction false} PutAscending<V>(m: seq<(string, V)>, k: string, v: V)
    requires Ascending(m)
    ensures Ascending(Put(m, k, v))
  {
    if m == [] || m[0].0 == k {
    } else if LexLess(k, m[0].0) {
      forall j | 0 < j < |m| ensures LexLess(k, m[j].0) { LexLessTransitive(k, m[0].0, m[j].0); }
    } else {
      var rest := Put(m[1..], k, v);
      PutAscending(m[1..], k, v);
      PutKeys(m[1..], k, v);
      LexLessTotal(k, m[0].0);
      forall j | 0 <= j < |rest| ensures LexLess(m[0].0, rest[j].0) {
        assert rest[j] in rest;
        if rest[j] in m[1..] {
          var i :| 0 <= i < |m[1..]| && m[1..][i] == rest[j];
          assert m[i + 1] == rest[j];
        }
      }
    }
  }

  /** What is put is what is got, and nothing else changes. */
  lemma {:induction false} GetOfPut<V>(m: seq<(string, V)>, k: string, v: V, key: string)
    requires Ascending(m)
    ensures Get(Put(m, k, v), key) == if key == k then Some(v) else Get(m, key)
  {
    if m == [] {
    } else if m[0].0 == k {
      assert ([(k, v)] + m[1..])[1..] == m[1..];
    } else if LexLess(k, m[0].0) {
      assert ([(k, v)] + m)[1..] == m;
    } else {
      GetOfPut(m[1..], k, v, key);
      assert ([m[0]] + Put(m[1..], k, v))[1..] == Put(m[1..], k, v);
    }
  }

  /** A key before all others is not there. */
  lemma {:induction false} NotAmongGreater<V>(m: seq<(string, V)>, k: string)
    requires forall i :: 0 <= i < |m| ==> LexLess(k, m[i].0)
    ensures Get(m, k) == None
  {
    if m != [] {
      LexLessIrreflexive(k);
      NotAmongGreater(m[1..], k);
    }
  }

  lemma {:induction false} WithoutKeys<V>(m: seq<(string, V)>, k: string)
    ensures forall p :: p in Without(m, k) ==> p in m
  {
    if m != [] && m[0].0 != k { WithoutKeys(m[1..], k); }
  }

  lemma {:induction false} WithoutAscending<V>(m: seq<(string, V)>, k: string)
    requires Ascending(m)
    ensures Ascending(Without(m, k))
  {
    if m != [] && m[0].0 != k {
      var rest := Without(m[1..], k);
      WithoutAscending(m[1..], k);
      WithoutKeys(m[1..], k);
      forall j | 0 <= j < |rest| ensures LexLess(m[0].0, rest[j].0) {
        assert rest[j] in rest;
        var i :| 0 <= i < |m[1..]| && m[1..][i] == rest[j];
        assert m[i + 1] == rest[j];
      }
    }
  }

  /** What is removed is gone, and nothing else changes. */
  lemma {:induction false} GetOfWithout<V>(m: seq<(string, V)>, k: string, key: string)
    requires Ascending(m)
    ensures Get(Without(m, k), key) == if key == k then None else Get(m, key)
  {
    if m == [] {
    } else if m[0].0 == k {
      NotAmongGreater(m[1..], k);
    } else {
      GetOfWithout(m[1..], k, key);
      assert ([m[0]] + Without(m[1..], k))[1..] == Without(m[1..], k);
    }
  }

  /** A map is what its keys get. */
  lemma {:induction false} SameGetsSameMap<V(!new)>(a: seq<(string, V)>, b: seq<(string, V)>)
    requires Ascending(a) && Ascending(b) && forall k :: Get(a, k) == Get(b, k)
    ensures a == b
  {
    if a == [] {
      assert b != [] ==> Get(b, b[0].0) == Get(a, b[0].0);
    } else {
      assert Get(a, a[0].0) == Some(a[0].1) == Get(b, a[0].0);
      FirstKeyFirst(b, a[0].0);
      assert Get(b, b[0].0) == Some(b[0].1) == Get(a, b[0].0);
      FirstKeyFirst(a, b[0].0);
      if LexLess(a[0].0, b[0].0) { LexLessAsymmetric(a[0].0, b[0].0); }
      forall k ensures Get(a[1..], k) == Get(b[1..], k) {
        if k == a[0].0 {
          NotAmongGreater(a[1..], k);
          NotAmongGreater(b[1..], k);
        } else {
          assert Get(a, k) == Get(b, k);
        }
      }
      SameGetsSameMap(a[1..], b[1..]);
      assert a == [a[0]] + a[1..] && b == [b[0]] + b[1..];
    }
  }

  lemma FirstKeyFirst<V>(m: seq<(string, V)>, k: string)
    requires m != [] && Ascending(m) && Get(m, k).Some?
    ensures k == m[0].0 || LexLess(m[0].0, k)
  {
    var i :| 0 <= i < |m| && m[i].0 == k;
  }

  /** A key past all others goes last. */
  lemma {:induction false} PutLast<V>(m: seq<(string, V)>, k: string, v: V)
    requires forall i :: 0 <= i < |m| ==> LexLess(m[i].0, k)
    ensures Put(m, k, v) == m + [(k, v)]
  {
    if m != [] {
      LexLessAsymmetric(m[0].0, k);
      LexLessIrreflexive(k);
      PutLast(m[1..], k, v);
    }
  }

  /** The pairs of a map, put one by one. */
  function PutAll<V>(m: seq<(string, V)>, pairs: seq<(string, V)>): seq<(string, V)>
    decreases |pairs|
  {
    if pairs == [] then m
    else
      var n := |pairs| - 1;
      Put(PutAll(m, pairs[..n]), pairs[n].0, pairs[n].1)
  }

  /** Rebuilding a map from its own pairs gives the map. */
  lemma {:induction false} PutAllOfMap<V>(m: seq<(string, V)>)
    requires Ascending(m)
    ensures PutAll([], m) == m
    decreases |m|
  {
    if m != [] {
      var n := |m| - 1;
      PutAllOfMap(m[..n]);
      PutLast(m[..n], m[n].0, m[n].1);
      assert m == m[..n] + [m[n]];
    }
  }

  lemma {:induction false} PutAllAscending<V>(m: seq<(string, V)>, pairs: seq<(string, V)>)
    requires Ascending(m)
    ensures Ascending(PutAll(m, pairs))
    decreases |pairs|
  {
    if pairs != [] {
      var n := |pairs| - 1;
      PutAllAscending(m, pairs[..n]);
      PutAscending(PutAll(m, pairs[..n]), pairs[n].0, pairs[n].1);
    }
  }
}
