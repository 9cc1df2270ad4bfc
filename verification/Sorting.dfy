/** `sort_by_key`: a stable sort. */
module Sorting {
  import opened Text

  /** Put `x` in front of the first element it may precede. */
  function Insert<T>(le: (T, T) -> bool, x: T, ys: seq<T>): seq<T> {
    if ys == [] || le(x, ys[0]) then [x] + ys else [ys[0]] + Insert(le, x, ys[1..])
  }

  function Sort<T>(le: (T, T) -> bool, xs: seq<T>): seq<T> {
    if xs == [] then [] else Insert(le, xs[0], Sort(le, xs[1..]))
  }

  ghost predicate Ordered<T>(le: (T, T) -> bool, xs: seq<T>) {
    forall i, j :: 0 <= i < j < |xs| ==> le(xs[i], xs[j])
  }

  ghost predicate TotalOrder<T(!new)>(le: (T, T) -> bool) {
    && (forall x, y :: le(x, y) || le(y, x))
    && (forall x, y, z :: le(x, y) && le(y, z) ==> le(x, z))
  }

  lemma {:induction false} InsertElements<T>(le: (T, T) -> bool, x: T, ys: seq<T>)
    ensures multiset(Insert(le, x, ys)) == multiset{x} + multiset(ys)
    ensures |Insert(le, x, ys)| == |ys| + 1
  {
    if ys != [] && !le(x, ys[0]) {
      InsertElements(le, x, ys[1..]);
      assert ys == [ys[0]] + ys[1..];
    }
  }

  lemma {:induction false} InsertOrdered<T(!new)>(le: (T, T) -> bool, x: T, ys: seq<T>)
    requires TotalOrder(le) && Ordered(le, ys)
    ensures Ordered(le, Insert(le, x, ys))
  {
    if ys != [] && !le(x, ys[0]) {
      InsertOrdered(le, x, ys[1..]);
      InsertElements(le, x, ys[1..]);
      var rest := Insert(le, x, ys[1..]);
      forall j | 0 <= j < |rest| ensures le(ys[0], rest[j]) {
        assert rest[j] in multiset(rest);
        if rest[j] in ys[1..] {
          var k :| 0 <= k < |ys[1..]| && ys[1..][k] == rest[j];
          assert ys[k + 1] == rest[j];
        }
      }
    }
  }

  /** The result is ordered and a permutation. */
  lemma {:induction false} SortOrdered<T(!new)>(le: (T, T) -> bool, xs: seq<T>)
    requires TotalOrder(le)
    ensures Ordered(le, Sort(le, xs)) && multiset(Sort(le, xs)) == multiset(xs) && |Sort(le, xs)| == |xs|
  {
    if xs != [] {
      SortOrdered(le, xs[1..]);
      InsertOrdered(le, xs[0], Sort(le, xs[1..]));
      InsertElements(le, xs[0], Sort(le, xs[1..]));
      assert xs == [xs[0]] + xs[1..];
    }
  }

  lemma {:induction false} InsertStable<T(!new)>(le: (T, T) -> bool, p: T -> bool, x: T, ys: seq<T>)
    requires forall y :: p(x) && p(y) ==> le(x, y)
    ensures Filter(p, Insert(le, x, ys)) == Filter(p, [x]) + Filter(p, ys)
  {
    hide Filter, Insert;
    if ys == [] {
      NothingBefore(le, x);
      NothingFiltered(p);
      assert Filter(p, [x]) + [] == Filter(p, [x]);
    } else {
      InsertAtFront(le, x, ys);
      FilterHead(p, ys);
      if le(x, ys[0]) {
        FilterAppend(p, [x], ys);
      } else {
        var rest := Insert(le, x, ys[1..]);
        InsertStable(le, p, x, ys[1..]);
        assert ([ys[0]] + rest)[1..] == rest;
        FilterHead(p, [ys[0]] + rest);
        FilterOne(p, x);
        assert p(x) ==> !p(ys[0]);
        assert [] + Filter(p, ys) == Filter(p, ys);
      }
    }
  }

  lemma NothingBefore<T>(le: (T, T) -> bool, x: T)
    ensures Insert(le, x, []) == [x]
  {
  }

  lemma FilterOne<T(!new)>(p: T -> bool, x: T)
    ensures Filter(p, [x]) == if p(x) then [x] else []
  {
    assert [x][1..] == [];
  }

  /** Elements of one class of equals keep their order. */
  lemma {:induction false} SortStable<T(!new)>(le: (T, T) -> bool, p: T -> bool, xs: seq<T>)
    requires forall x, y :: p(x) && p(y) ==> le(x, y)
    ensures Filter(p, Sort(le, xs)) == Filter(p, xs)
  {
    if xs != [] {
      SortStable(le, p, xs[1..]);
      InsertStable(le, p, xs[0], Sort(le, xs[1..]));
      FilterAppend(p, [xs[0]], xs[1..]);
      assert [xs[0]] + xs[1..] == xs;
    }
  }

  lemma {:induction false} SortMembers<T(!new)>(le: (T, T) -> bool, xs: seq<T>)
    ensures multiset(Sort(le, xs)) == multiset(xs)
    ensures forall x :: x in Sort(le, xs) <==> x in xs
  {
    if xs != [] {
      SortMembers(le, xs[1..]);
      InsertElements(le, xs[0], Sort(le, xs[1..]));
      assert xs == [xs[0]] + xs[1..];
    }
    assert forall x :: x in Sort(le, xs) <==> x in multiset(Sort(le, xs));
    assert forall x :: x in xs <==> x in multiset(xs);
  }

  // ---------- where a later element may stand ----------

  /** Neither is before the other. */
  predicate Tied<T>(le: (T, T) -> bool, x: T, y: T) {
    le(x, y) && le(y, x)
  }

  /** Inserting two elements that are not tied gives the same in either order. */
  lemma {:induction false} InsertsCommute<T(!new)>(le: (T, T) -> bool, x: T, y: T, zs: seq<T>)
    requires TotalOrder(le) && !Tied(le, x, y)
    ensures Insert(le, x, Insert(le, y, zs)) == Insert(le, y, Insert(le, x, zs))
  {
    if zs == [] {
      InsertAtFront(le, x, [y]);
      InsertAtFront(le, y, [x]);
    } else {
      InsertsCommute(le, x, y, zs[1..]);
      InsertAtFront(le, x, zs);
      InsertAtFront(le, y, zs);
      InsertAtFront(le, x, Insert(le, y, zs));
      InsertAtFront(le, y, Insert(le, x, zs));
      InsertAtFront(le, x, [y] + zs);
      InsertAtFront(le, y, [x] + zs);
    }
  }

  lemma InsertAtFront<T>(le: (T, T) -> bool, x: T, ys: seq<T>)
    requires ys != []
    ensures Insert(le, x, ys) == if le(x, ys[0]) then [x] + ys else [ys[0]] + Insert(le, x, ys[1..])
    ensures forall y :: ([y] + ys)[1..] == ys
  {
  }

  lemma InsertStep<T>(le: (T, T) -> bool, x: T, y: T, ys: seq<T>)
    ensures Insert(le, x, [y] + ys) == if le(x, y) then [x] + ([y] + ys) else [y] + Insert(le, x, ys)
  {
    assert ([y] + ys)[1..] == ys;
  }

  /** An element tied with none of those behind it may as well stand behind them. */
  lemma {:induction false} SortMovesBack<T(!new)>(le: (T, T) -> bool, x: T, ys: seq<T>)
    requires TotalOrder(le) && forall y :: y in ys ==> !Tied(le, x, y)
    ensures Sort(le, [x] + ys) == Sort(le, ys + [x])
  {
    assert ([x] + ys)[1..] == ys;
    if ys == [] {
      assert ys + [x] == [x] + ys;
    } else {
      SortMovesBack(le, x, ys[1..]);
      assert ([x] + ys[1..])[1..] == ys[1..];
      assert (ys + [x])[1..] == ys[1..] + [x];
      InsertsCommute(le, x, ys[0], Sort(le, ys[1..]));
    }
  }

  lemma {:induction false} SortAfter<T>(le: (T, T) -> bool, front: seq<T>, a: seq<T>, b: seq<T>)
    requires Sort(le, a) == Sort(le, b)
    ensures Sort(le, front + a) == Sort(le, front + b)
  {
    if front == [] {
      assert front + a == a && front + b == b;
    } else {
      assert (front + a)[1..] == front[1..] + a && (front + b)[1..] == front[1..] + b;
      SortAfter(le, front[1..], a, b);
    }
  }
}
