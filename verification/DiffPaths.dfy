/** Where the changes of a diff point: to disjoint places, at the reported values,
    and how the places print. */
module DiffPaths {
  import opened Text
  import opened Json
  import opened Diff

  // ---------- changes do not overlap ----------

  ghost predicate Apart(p: Path, q: Path) {
    !(p <= q) && !(q <= p)
  }

  ghost predicate AllApart(cs: seq<Change>) {
    forall i, j :: 0 <= i < j < |cs| ==> Apart(cs[i].at, cs[j].at)
  }

  ghost predicate Across(xs: seq<Change>, ys: seq<Change>) {
    forall i, j :: 0 <= i < |xs| && 0 <= j < |ys| ==> Apart(xs[i].at, ys[j].at)
  }

  lemma ApartAppend(xs: seq<Change>, ys: seq<Change>)
    requires AllApart(xs) && AllApart(ys) && Across(xs, ys)
    ensures AllApart(xs + ys)
  {
  }

  lemma RestrictMember(cs: seq<Change>, p: Path, c: Change)
    requires Restrict(cs, p) == [] && c in cs
    ensures !(p <= c.at)
  {
    assert c in Restrict(cs, p) <==> p <= c.at;
  }

  /** What lies below one child is apart from what lies below the others. */
  lemma AcrossChildren(xs: seq<Change>, ys: seq<Change>, at: Path, s: Segment)
    requires Within(xs, at + [s]) && Within(ys, at) && Restrict(ys, at + [s]) == []
    requires forall c :: c in ys ==> |c.at| > |at|
    ensures Across(xs, ys)
  {
    forall i, j | 0 <= i < |xs| && 0 <= j < |ys| ensures Apart(xs[i].at, ys[j].at) {
      assert xs[i] in xs && ys[j] in ys;
      RestrictMember(ys, at + [s], ys[j]);
      Siblings(at, s, xs[i].at, ys[j].at);
    }
  }

  lemma Siblings(at: Path, s: Segment, p: Path, q: Path)
    requires at + [s] <= p && at <= q && |q| > |at| && !(at + [s] <= q)
    ensures Apart(p, q)
  {
    assert (at + [s])[|at|] == p[|at|];
    assert at + [q[|at|]] <= q;
  }

  lemma {:induction false} WalkApart(at: Path, path: string, a: Value, b: Value)
    requires Valid(a) && Valid(b)
    ensures AllApart(Walk(at, path, a, b))
    decreases a, |at| + 2
  {
    match (a, b)
    case (Object(fa), Object(fb)) =>
      FieldsApart(at, path, fa, fb);
      FieldsAddedApart(at, path, fa, fb);
      FieldsAcross(at, path, fa, fb, fb);
      ApartAppend(FieldsDiff(at, path, fa, fb), FieldsAdded(at, path, fa, fb));
    case (Array(x), Array(y)) =>
      ItemsApart(at, path, x, y, 0);
      ItemsAddedApart(at, path, |x|, y);
      ItemsAcross(at, path, x, |x|, y);
      ApartAppend(ItemsDiff(at, path, x, y, 0), ItemsAdded(at, path, |x|, y));
    case _ =>
  }

  lemma {:induction false} FieldsApart(at: Path, path: string, fa: seq<Field>, fb: seq<Field>)
    requires Ascending(fa)
    requires forall j :: 0 <= j < |fa| ==> Valid(fa[j].value)
    requires forall j :: 0 <= j < |fb| ==> Valid(fb[j].value)
    ensures AllApart(FieldsDiff(at, path, fa, fb))
    decreases fa, |at| + 1
  {
    if fa != [] {
      hide Restrict;
      var f := fa[0];
      AscendingTail(fa);
      match Get(fb, f.key) {
        case Some(bv) =>
          assert Field(f.key, bv) in fb;
          WalkApart(at + [Key(f.key)], JoinKey(path, f.key), f.value, bv);
        case None =>
      }
      FieldsApart(at, path, fa[1..], fb);
      FieldDiffWithin(at, path, f, fb);
      FieldsWithin(at, path, fa[1..], fb);
      FieldsBelow(at, path, fa[1..], fb, f.key);
      AcrossChildren(FieldDiff(at, path, f, fb), FieldsDiff(at, path, fa[1..], fb), at, Key(f.key));
      ApartAppend(FieldDiff(at, path, f, fb), FieldsDiff(at, path, fa[1..], fb));
    }
  }

  lemma {:induction false} FieldsAddedBelowMissing(at: Path, path: string, fa: seq<Field>, fb: seq<Field>, key: string)
    requires forall i :: 0 <= i < |fb| ==> fb[i].key != key
    ensures Restrict(FieldsAdded(at, path, fa, fb), at + [Key(key)]) == []
  {
    if fb != [] {
      FieldsAddedBelowMissing(at, path, fa, fb[1..], key);
      if Get(fa, fb[0].key).None? {
        var one := [Change(at + [Key(fb[0].key)], JoinKey(path, fb[0].key), Added(fb[0].value))];
        RestrictOther(one, at, Key(fb[0].key), Key(key));
        RestrictAppend(one, FieldsAdded(at, path, fa, fb[1..]), at + [Key(key)]);
      } else {
        assert [] + FieldsAdded(at, path, fa, fb[1..]) == FieldsAdded(at, path, fa, fb[1..]);
      }
    }
  }

  lemma {:induction false} FieldsAddedApart(at: Path, path: string, fa: seq<Field>, fb: seq<Field>)
    requires Ascending(fb)
    ensures AllApart(FieldsAdded(at, path, fa, fb))
  {
    if fb != [] {
      hide Restrict;
      AscendingTail(fb);
      FieldsAddedApart(at, path, fa, fb[1..]);
      var rest := FieldsAdded(at, path, fa, fb[1..]);
      if Get(fa, fb[0].key).None? {
        var one := [Change(at + [Key(fb[0].key)], JoinKey(path, fb[0].key), Added(fb[0].value))];
        FieldsAddedWithin(at, path, fa, fb[1..]);
        FieldsAddedBelowMissing(at, path, fa, fb[1..], fb[0].key);
        AcrossChildren(one, rest, at, Key(fb[0].key));
        ApartAppend(one, rest);
      } else {
        assert [] + rest == rest;
      }
    }
  }

  lemma {:induction false} FieldsAcross(at: Path, path: string, fa: seq<Field>, fb: seq<Field>, new_: seq<Field>)
    ensures Across(FieldsDiff(at, path, fa, fb), FieldsAdded(at, path, fa, new_))
    decreases |new_|
  {
    if new_ != [] {
      hide Restrict, FieldsDiff;
      FieldsAcross(at, path, fa, fb, new_[1..]);
      if Get(fa, new_[0].key).None? {
        var one := [Change(at + [Key(new_[0].key)], JoinKey(path, new_[0].key), Added(new_[0].value))];
        FieldsBelow(at, path, fa, fb, new_[0].key);
        FieldsWithin(at, path, fa, fb);
        AcrossChildren(one, FieldsDiff(at, path, fa, fb), at, Key(new_[0].key));
        AcrossCons(FieldsDiff(at, path, fa, fb), one[0], FieldsAdded(at, path, fa, new_[1..]));
      } else {
        assert [] + FieldsAdded(at, path, fa, new_[1..]) == FieldsAdded(at, path, fa, new_[1..]);
      }
    }
  }

  lemma AcrossCons(xs: seq<Change>, c: Change, ys: seq<Change>)
    requires Across([c], xs) && Across(xs, ys)
    ensures Across(xs, [c] + ys)
  {
    forall i | 0 <= i < |xs| ensures Apart(xs[i].at, c.at) {
      assert Apart([c][0].at, xs[i].at);
    }
  }

  lemma {:induction false} ItemsApart(at: Path, path: string, x: seq<Value>, y: seq<Value>, i: nat)
    requires forall j :: 0 <= j < |x| ==> Valid(x[j])
    requires forall j :: 0 <= j < |y| ==> Valid(y[j])
    ensures AllApart(ItemsDiff(at, path, x, y, i))
    decreases x, |at| + 1
  {
    if x != [] {
      hide Restrict;
      if i < |y| { WalkApart(at + [Index(i)], JoinIndex(path, i), x[0], y[i]); }
      ItemsApart(at, path, x[1..], y, i + 1);
      ItemDiffWithin(at, path, x[0], y, i);
      ItemsWithin(at, path, x[1..], y, i + 1);
      ItemsBelowLater(at, path, x[1..], y, i + 1, i);
      AcrossChildren(ItemDiff(at, path, x[0], y, i), ItemsDiff(at, path, x[1..], y, i + 1), at, Index(i));
      ApartAppend(ItemDiff(at, path, x[0], y, i), ItemsDiff(at, path, x[1..], y, i + 1));
    }
  }

  lemma {:induction false} ItemsAddedApart(at: Path, path: string, i: nat, y: seq<Value>)
    ensures AllApart(ItemsAdded(at, path, i, y))
    decreases |y| - i
  {
    if i < |y| {
      hide Restrict;
      var one := [Change(at + [Index(i)], JoinIndex(path, i), Added(y[i]))];
      ItemsAddedApart(at, path, i + 1, y);
      ItemsAddedWithin(at, path, i + 1, y);
      ItemsAddedBelow(at, path, i + 1, y, i);
      AcrossChildren(one, ItemsAdded(at, path, i + 1, y), at, Index(i));
      ApartAppend(one, ItemsAdded(at, path, i + 1, y));
    }
  }

  lemma {:induction false} ItemsBelowBeyond(at: Path, path: string, x: seq<Value>, y: seq<Value>, i: nat, k: nat)
    requires k >= i + |x|
    ensures Restrict(ItemsDiff(at, path, x, y, i), at + [Index(k)]) == []
    decreases |x|
  {
    if x != [] {
      ItemDiffWithin(at, path, x[0], y, i);
      RestrictOther(ItemDiff(at, path, x[0], y, i), at, Index(i), Index(k));
      RestrictAppend(ItemDiff(at, path, x[0], y, i), ItemsDiff(at, path, x[1..], y, i + 1), at + [Index(k)]);
      ItemsBelowBeyond(at, path, x[1..], y, i + 1, k);
    }
  }

  lemma {:induction false} ItemsAcross(at: Path, path: string, x: seq<Value>, i: nat, y: seq<Value>)
    requires i >= |x|
    ensures Across(ItemsDiff(at, path, x, y, 0), ItemsAdded(at, path, i, y))
    decreases |y| - i
  {
    if i < |y| {
      hide Restrict, ItemsDiff;
      ItemsAcross(at, path, x, i + 1, y);
      var one := [Change(at + [Index(i)], JoinIndex(path, i), Added(y[i]))];
      ItemsBelowBeyond(at, path, x, y, 0, i);
      ItemsWithin(at, path, x, y, 0);
      AcrossChildren(one, ItemsDiff(at, path, x, y, 0), at, Index(i));
      AcrossCons(ItemsDiff(at, path, x, y, 0), one[0], ItemsAdded(at, path, i + 1, y));
    }
  }

  /** No two changes report the same place, nor one place inside another. */
  lemma DiffPathsApart(a: Value, b: Value)
    requires Valid(a) && Valid(b)
    ensures AllApart(DiffJson(a, b))
  {
    WalkApart([], "", a, b);
  }

  // ---------- where a change points ----------

  function BeforeOf(k: Kind): Option<Value> {
    if k.Added? then None else Some(k.before)
  }

  function AfterOf(k: Kind): Option<Value> {
    if k.Removed? then None else Some(k.after)
  }

  ghost predicate Points(c: Change, n: nat, a: Value, b: Value) {
    n <= |c.at| && Follow(a, c.at[n..]) == BeforeOf(c.kind) && Follow(b, c.at[n..]) == AfterOf(c.kind)
  }

  lemma PointsUp(c: Change, at: Path, s: Segment, a: Value, b: Value, x: Value, y: Value)
    requires at + [s] <= c.at && Child(a, s) == Some(x) && Child(b, s) == Some(y)
    requires Points(c, |at| + 1, x, y)
    ensures Points(c, |at|, a, b)
  {
    assert c.at[|at|] == (at + [s])[|at|];
    assert c.at[|at|..] == [s] + c.at[|at| + 1..];
  }

  lemma PointsHere(c: Change, at: Path, s: Segment, a: Value, b: Value)
    requires c.at == at + [s] && Child(a, s) == BeforeOf(c.kind) && Child(b, s) == AfterOf(c.kind)
    ensures Points(c, |at|, a, b)
  {
    assert c.at[|at|..] == [s];
    assert [s][1..] == [];
  }

  /** Every change of a walk points at the values it reports, and at nothing on the
      side where the value is missing. */
  lemma {:induction false} WalkPoints(at: Path, path: string, a: Value, b: Value, c: Change)
    requires Valid(a) && Valid(b) && c in Walk(at, path, a, b)
    ensures Points(c, |at|, a, b)
    decreases a, |at| + 2
  {
    match (a, b)
    case (Object(fa), Object(fb)) =>
      if c in FieldsDiff(at, path, fa, fb) {
        FieldsPoint(at, path, fa, fb, 0, c);
      } else {
        FieldsAddedPoint(at, path, fa, fb, 0, c);
      }
    case (Array(x), Array(y)) =>
      if c in ItemsDiff(at, path, x, y, 0) {
        ItemsPoint(at, path, x, y, 0, c);
      } else {
        ItemsAddedPoint(at, path, x, |x|, y, c);
      }
    case _ =>
      assert c.at[|at|..] == [];
  }

  lemma {:induction false} FieldsPoint(at: Path, path: string, fa: seq<Field>, fb: seq<Field>, i: nat, c: Change)
    requires i <= |fa| && Valid(Object(fa)) && Valid(Object(fb))
    requires c in FieldsDiff(at, path, fa[i..], fb) || (i == 0 && c in FieldsDiff(at, path, fa, fb))
    ensures Points(c, |at|, Object(fa), Object(fb))
    decreases fa, |fa| - i
  {
    assert fa[0..] == fa;
    if i < |fa| {
      var f := fa[i];
      assert fa[i..][0] == f && fa[i..][1..] == fa[i + 1..];
      if c in FieldDiff(at, path, f, fb) {
        GetOfMember(fa, i);
        FieldDiffWithin(at, path, f, fb);
        match Get(fb, f.key)
        case Some(bv) =>
          assert Field(f.key, bv) in fb;
          WalkPoints(at + [Key(f.key)], JoinKey(path, f.key), f.value, bv, c);
          PointsUp(c, at, Key(f.key), Object(fa), Object(fb), f.value, bv);
        case None =>
          PointsHere(c, at, Key(f.key), Object(fa), Object(fb));
      } else {
        FieldsPoint(at, path, fa, fb, i + 1, c);
      }
    }
  }

  lemma {:induction false} FieldsAddedPoint(at: Path, path: string, fa: seq<Field>, fb: seq<Field>, i: nat, c: Change)
    requires i <= |fb| && Ascending(fb)
    requires c in FieldsAdded(at, path, fa, fb[i..]) || (i == 0 && c in FieldsAdded(at, path, fa, fb))
    ensures Points(c, |at|, Object(fa), Object(fb))
    decreases |fb| - i
  {
    assert fb[0..] == fb;
    if i < |fb| {
      assert fb[i..][0] == fb[i] && fb[i..][1..] == fb[i + 1..];
      if Get(fa, fb[i].key).None? && c == Change(at + [Key(fb[i].key)], JoinKey(path, fb[i].key), Added(fb[i].value)) {
        GetOfMember(fb, i);
        PointsHere(c, at, Key(fb[i].key), Object(fa), Object(fb));
      } else {
        FieldsAddedPoint(at, path, fa, fb, i + 1, c);
      }
    }
  }

  lemma {:induction false} ItemsPoint(at: Path, path: string, x: seq<Value>, y: seq<Value>, i: nat, c: Change)
    requires i <= |x| && Valid(Array(x)) && Valid(Array(y))
    requires c in ItemsDiff(at, path, x[i..], y, i) || (i == 0 && c in ItemsDiff(at, path, x, y, 0))
    ensures Points(c, |at|, Array(x), Array(y))
    decreases x, |x| - i
  {
    assert x[0..] == x;
    if i < |x| {
      assert x[i..][0] == x[i] && x[i..][1..] == x[i + 1..];
      if c in ItemDiff(at, path, x[i], y, i) {
        ItemDiffWithin(at, path, x[i], y, i);
        if i < |y| {
          WalkPoints(at + [Index(i)], JoinIndex(path, i), x[i], y[i], c);
          PointsUp(c, at, Index(i), Array(x), Array(y), x[i], y[i]);
        } else {
          PointsHere(c, at, Index(i), Array(x), Array(y));
        }
      } else {
        ItemsPoint(at, path, x, y, i + 1, c);
      }
    }
  }

  lemma {:induction false} ItemsAddedPoint(at: Path, path: string, x: seq<Value>, i: nat, y: seq<Value>, c: Change)
    requires i >= |x| && c in ItemsAdded(at, path, i, y)
    ensures Points(c, |at|, Array(x), Array(y))
    decreases |y| - i
  {
    if i < |y| {
      if c == Change(at + [Index(i)], JoinIndex(path, i), Added(y[i])) {
        PointsHere(c, at, Index(i), Array(x), Array(y));
      } else {
        ItemsAddedPoint(at, path, x, i + 1, y, c);
      }
    }
  }

  // ---------- what a change prints ----------

  function PrintPath(at: Path): string {
    if at == [] then "" else PrintSegment(PrintPath(at[..|at| - 1]), at[|at| - 1])
  }

  function PrintSegment(path: string, s: Segment): string {
    match s
    case Key(k) => JoinKey(path, k)
    case Index(i) => JoinIndex(path, i)
  }

  function Shown(at: Path, kind: Kind): string {
    if kind.Changed? && PrintPath(at) == "" then "$" else PrintPath(at)
  }

  lemma PrintStep(at: Path, s: Segment)
    ensures PrintPath(at + [s]) == PrintSegment(PrintPath(at), s)
  {
    assert (at + [s])[..|at|] == at;
  }

  /** The text of every change is the printed form of its place. */
  lemma {:induction false} WalkPrints(at: Path, a: Value, b: Value)
    ensures forall c :: c in Walk(at, PrintPath(at), a, b) ==> c.path == Shown(c.at, c.kind)
    decreases a, |at| + 2
  {
    match (a, b)
    case (Object(fa), Object(fb)) =>
      FieldsPrint(at, fa, fb);
      FieldsAddedPrint(at, fa, fb);
    case (Array(x), Array(y)) =>
      ItemsPrint(at, x, y, 0);
      ItemsAddedPrint(at, |x|, y);
    case _ =>
  }

  lemma {:induction false} FieldsPrint(at: Path, fa: seq<Field>, fb: seq<Field>)
    ensures forall c :: c in FieldsDiff(at, PrintPath(at), fa, fb) ==> c.path == Shown(c.at, c.kind)
    decreases fa, |at| + 1
  {
    if fa != [] {
      hide PrintPath;
      PrintStep(at, Key(fa[0].key));
      if Get(fb, fa[0].key).Some? {
        WalkPrints(at + [Key(fa[0].key)], fa[0].value, Get(fb, fa[0].key).value);
      }
      FieldsPrint(at, fa[1..], fb);
    }
  }

  lemma {:induction false} FieldsAddedPrint(at: Path, fa: seq<Field>, fb: seq<Field>)
    ensures forall c :: c in FieldsAdded(at, PrintPath(at), fa, fb) ==> c.path == Shown(c.at, c.kind)
  {
    if fb != [] {
      hide PrintPath;
      PrintStep(at, Key(fb[0].key));
      FieldsAddedPrint(at, fa, fb[1..]);
    }
  }

  lemma {:induction false} ItemsPrint(at: Path, x: seq<Value>, y: seq<Value>, i: nat)
    ensures forall c :: c in ItemsDiff(at, PrintPath(at), x, y, i) ==> c.path == Shown(c.at, c.kind)
    decreases x, |at| + 1
  {
    if x != [] {
      hide PrintPath;
      PrintStep(at, Index(i));
      if i < |y| { WalkPrints(at + [Index(i)], x[0], y[i]); }
      ItemsPrint(at, x[1..], y, i + 1);
    }
  }

  lemma {:induction false} ItemsAddedPrint(at: Path, i: nat, y: seq<Value>)
    ensures forall c :: c in ItemsAdded(at, PrintPath(at), i, y) ==> c.path == Shown(c.at, c.kind)
    decreases |y| - i
  {
    if i < |y| {
      hide PrintPath;
      PrintStep(at, Index(i));
      ItemsAddedPrint(at, i + 1, y);
    }
  }
}
