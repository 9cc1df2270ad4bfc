/** Why the list of changes is a complete patch, and empty only for equal documents. */
module Patch {
  import opened Text
  import opened Json
  import opened Diff

  // ---------- applying a patch ----------

  /** The first change reported at exactly this place. */
  function KindAt(cs: seq<Change>, p: Path): Option<Kind> {
    if cs == [] then None
    else if cs[0].at == p then Some(cs[0].kind)
    else KindAt(cs[1..], p)
  }

  /** Rebuild a value from the changes at and below its place, in whatever order
      they are listed: replace it if it changed, else drop its removed children,
      patch the kept ones and put in the added ones. */
  function Apply(at: Path, v: Value, cs: seq<Change>): Value
    decreases v, 1
  {
    match KindAt(cs, at)
    case Some(Changed(_, after)) => after
    case _ =>
      match v
      case Object(fs) => Object(Merge(KeptFields(at, fs, cs), NewFields(at, cs)))
      case Array(xs) => Array(KeptItems(at, xs, 0, cs) + NewItems(at, cs))
      case _ => v
  }

  predicate Dropped(cs: seq<Change>, p: Path) {
    match KindAt(cs, p) case Some(Removed(_)) => true case _ => false
  }

  function KeptFields(at: Path, fs: seq<Field>, cs: seq<Change>): seq<Field>
    decreases fs, 0
  {
    if fs == [] then []
    else
      var p := at + [Key(fs[0].key)];
      (if Dropped(cs, p) then [] else [Field(fs[0].key, Apply(p, fs[0].value, cs))]) + KeptFields(at, fs[1..], cs)
  }

  function KeptItems(at: Path, xs: seq<Value>, i: nat, cs: seq<Change>): seq<Value>
    decreases xs, 0
  {
    if xs == [] then []
    else
      var p := at + [Index(i)];
      (if Dropped(cs, p) then [] else [Apply(p, xs[0], cs)]) + KeptItems(at, xs[1..], i + 1, cs)
  }

  predicate AddsChild(at: Path, c: Change) {
    c.kind.Added? && |c.at| == |at| + 1 && at <= c.at
  }

  function OneNewField(at: Path, c: Change): seq<Field> {
    if AddsChild(at, c) && c.at[|at|].Key? then [Field(c.at[|at|].key, c.kind.after)] else []
  }

  function OneNewItem(at: Path, c: Change): seq<Value> {
    if AddsChild(at, c) && c.at[|at|].Index? then [c.kind.after] else []
  }

  function NewFields(at: Path, cs: seq<Change>): seq<Field> {
    if cs == [] then []
    else OneNewField(at, cs[0]) + NewFields(at, cs[1..])
  }

  function NewItems(at: Path, cs: seq<Change>): seq<Value> {
    if cs == [] then []
    else OneNewItem(at, cs[0]) + NewItems(at, cs[1..])
  }

  /** Merge two lists of fields by key. */
  function Merge(xs: seq<Field>, ys: seq<Field>): seq<Field> {
    if xs == [] then ys
    else if ys == [] then xs
    else if LexLess(xs[0].key, ys[0].key) then [xs[0]] + Merge(xs[1..], ys)
    else [ys[0]] + Merge(xs, ys[1..])
  }

  // ---------- the patch is complete ----------

  lemma {:induction false} KindAtRestrict(cs: seq<Change>, p: Path)
    ensures KindAt(cs, p) == KindAt(Restrict(cs, p), p)
  {
    if cs != [] {
      KindAtRestrict(cs[1..], p);
      if p <= cs[0].at {
        assert Restrict(cs, p)[1..] == Restrict(cs[1..], p);
      } else {
        assert [] + Restrict(cs[1..], p) == Restrict(cs[1..], p);
      }
    }
  }

  lemma {:induction false} NoKindAt(cs: seq<Change>, p: Path)
    requires forall c :: c in cs ==> c.at != p
    ensures KindAt(cs, p) == None
  {
    if cs != [] { NoKindAt(cs[1..], p); }
  }

  /** At the place of a walk there is at most a `Changed`. */
  lemma WalkKind(at: Path, path: string, a: Value, b: Value)
    ensures var k := KindAt(Walk(at, path, a, b), at); k.None? || k.value.Changed?
  {
    WalkWithin(at, path, a, b);
    KindAtMember(Walk(at, path, a, b), at);
  }

  lemma {:induction false} KindAtMember(cs: seq<Change>, p: Path)
    ensures KindAt(cs, p).Some? ==> exists c :: c in cs && c.at == p && c.kind == KindAt(cs, p).value
  {
    if cs != [] && cs[0].at != p { KindAtMember(cs[1..], p); }
    else if cs != [] { assert cs[0] in cs; }
  }

  lemma {:induction false} NewFieldsRestrict(at: Path, cs: seq<Change>)
    ensures NewFields(at, cs) == NewFields(at, Restrict(cs, at))
    ensures NewItems(at, cs) == NewItems(at, Restrict(cs, at))
  {
    if cs != [] {
      NewFieldsRestrict(at, cs[1..]);
      if at <= cs[0].at {
        assert Restrict(cs, at)[1..] == Restrict(cs[1..], at);
      } else {
        assert [] + Restrict(cs[1..], at) == Restrict(cs[1..], at);
      }
    }
  }

  lemma {:induction false} NewFieldsAppend(at: Path, xs: seq<Change>, ys: seq<Change>)
    ensures NewFields(at, xs + ys) == NewFields(at, xs) + NewFields(at, ys)
    ensures NewItems(at, xs + ys) == NewItems(at, xs) + NewItems(at, ys)
  {
    if xs == [] {
      assert xs + ys == ys;
    } else {
      hide AddsChild, OneNewField, OneNewItem;
      assert (xs + ys)[1..] == xs[1..] + ys;
      NewFieldsAppend(at, xs[1..], ys);
      var f, x := OneNewField(at, xs[0]), OneNewItem(at, xs[0]);
      assert f + (NewFields(at, xs[1..]) + NewFields(at, ys)) == f + NewFields(at, xs[1..]) + NewFields(at, ys);
      assert x + (NewItems(at, xs[1..]) + NewItems(at, ys)) == x + NewItems(at, xs[1..]) + NewItems(at, ys);
    }
  }

  lemma {:induction false} NothingNew(at: Path, cs: seq<Change>)
    requires forall c :: c in cs ==> !AddsChild(at, c)
    ensures NewFields(at, cs) == [] && NewItems(at, cs) == []
  {
    if cs != [] { NothingNew(at, cs[1..]); }
  }

  predicate Missing(fa: seq<Field>, f: Field) {
    Get(fa, f.key).None?
  }

  function MissingFrom(fa: seq<Field>): Field -> bool {
    (f: Field) => Missing(fa, f)
  }

  function PresentIn(fa: seq<Field>): Field -> bool {
    (f: Field) => !Missing(fa, f)
  }

  lemma {:induction false} NewFieldsOfAdded(at: Path, path: string, fa: seq<Field>, fb: seq<Field>)
    ensures NewFields(at, FieldsAdded(at, path, fa, fb)) == Filter(MissingFrom(fa), fb)
  {
    if fb != [] {
      NewFieldsOfAdded(at, path, fa, fb[1..]);
      if Missing(fa, fb[0]) {
        var c := Change(at + [Key(fb[0].key)], JoinKey(path, fb[0].key), Added(fb[0].value));
        assert ([c] + FieldsAdded(at, path, fa, fb[1..]))[1..] == FieldsAdded(at, path, fa, fb[1..]);
        assert AddsChild(at, c) && Field(c.at[|at|].key, c.kind.after) == fb[0];
      } else {
        assert [] + FieldsAdded(at, path, fa, fb[1..]) == FieldsAdded(at, path, fa, fb[1..]);
      }
    }
  }

  lemma {:induction false} NewItemsOfAdded(at: Path, path: string, i: nat, y: seq<Value>)
    requires i <= |y|
    ensures NewItems(at, ItemsAdded(at, path, i, y)) == y[i..]
    decreases |y| - i
  {
    if i < |y| {
      NewItemsOfAdded(at, path, i + 1, y);
      var c := Change(at + [Index(i)], JoinIndex(path, i), Added(y[i]));
      assert ([c] + ItemsAdded(at, path, i + 1, y))[1..] == ItemsAdded(at, path, i + 1, y);
      assert AddsChild(at, c);
      assert y[i..] == [y[i]] + y[i + 1..];
    }
  }

  /** The fields of `fa` that survive, with their new values. */
  function Common(fa: seq<Field>, fb: seq<Field>): seq<Field> {
    if fa == [] then []
    else (match Get(fb, fa[0].key) case Some(bv) => [Field(fa[0].key, bv)] case None => []) + Common(fa[1..], fb)
  }

  lemma {:induction false} CommonIsFilter(fa: seq<Field>, fb: seq<Field>)
    requires Ascending(fa) && Ascending(fb)
    ensures Common(fa, fb) == Filter(PresentIn(fa), fb)
    decreases |fa| + |fb|
  {
    var p := PresentIn(fa);
    if fa == [] {
      FilterNone(p, fb);
    } else if fb == [] {
      CommonIsFilter(fa[1..], fb) by { AscendingTail(fa); }
    } else {
      AscendingTail(fa);
      AscendingTail(fb);
      var k, l := fa[0].key, fb[0].key;
      LexLessTotal(k, l);
      if k == l {
        CommonIsFilter(fa[1..], fb[1..]);
        CommonSkipsB(fa[1..], fb);
        FilterSame(PresentIn(fa[1..]), p, fb[1..]);
      } else if LexLess(k, l) {
        BeforeAll(k, fb);
        CommonIsFilter(fa[1..], fb);
        FilterSame(PresentIn(fa[1..]), p, fb);
        assert [] + Common(fa[1..], fb) == Common(fa[1..], fb);
      } else {
        BeforeAll(l, fa);
        CommonIsFilter(fa, fb[1..]);
        CommonSkipsB(fa, fb);
        assert [] + Filter(p, fb[1..]) == Filter(p, fb[1..]);
      }
    }
  }

  /** A key before the first of an ascending list is in none of it. */
  lemma BeforeAll(k: string, fs: seq<Field>)
    requires Ascending(fs) && fs != [] && LexLess(k, fs[0].key)
    ensures Get(fs, k).None?
  {
    forall i | 0 <= i < |fs| ensures fs[i].key != k {
      if i > 0 { LexLessTransitive(k, fs[0].key, fs[i].key); }
      LexLessIrreflexive(k);
    }
  }

  lemma {:induction false} CommonSkipsB(fa: seq<Field>, fb: seq<Field>)
    requires fb != [] && Get(fa, fb[0].key).None?
    ensures Common(fa, fb) == Common(fa, fb[1..])
  {
    if fa != [] { CommonSkipsB(fa[1..], fb); }
  }

  lemma MergeHead(f: Field, xs: seq<Field>, ys: seq<Field>)
    ensures (ys != [] ==> LexLess(f.key, ys[0].key)) ==> Merge([f] + xs, ys) == [f] + Merge(xs, ys)
    ensures (xs != [] ==> LexLess(f.key, xs[0].key)) ==> Merge(xs, [f] + ys) == [f] + Merge(xs, ys)
  {
    assert ([f] + xs)[1..] == xs && ([f] + ys)[1..] == ys;
    if xs != [] && LexLess(f.key, xs[0].key) { LexLessAsymmetric(f.key, xs[0].key); }
  }

  /** An ascending list is the merge of the fields that `fa` has and those it lacks. */
  lemma {:induction false} MergeParts(fa: seq<Field>, fs: seq<Field>)
    requires Ascending(fs)
    ensures Merge(Filter(PresentIn(fa), fs), Filter(MissingFrom(fa), fs)) == fs
  {
    if fs != [] {
      hide Merge, LexLess, Filter, Ascending, Missing;
      var p, q := PresentIn(fa), MissingFrom(fa);
      AscendingTail(fs);
      MergeParts(fa, fs[1..]);
      FirstOfRest(p, fs);
      FirstOfRest(q, fs);
      FilterHead(p, fs);
      FilterHead(q, fs);
      MergeHead(fs[0], Filter(p, fs[1..]), Filter(q, fs[1..]));
      assert fs == [fs[0]] + fs[1..];
    } else {
      assert Merge([], []) == [];
    }
  }

  lemma FirstOfRest(p: Field -> bool, fs: seq<Field>)
    requires Ascending(fs) && fs != []
    ensures Filter(p, fs[1..]) != [] ==> LexLess(fs[0].key, Filter(p, fs[1..])[0].key)
  {
    if Filter(p, fs[1..]) != [] {
      var f := Filter(p, fs[1..])[0];
      assert f in Filter(p, fs[1..]);
      var i :| 0 <= i < |fs[1..]| && fs[1..][i] == f;
      assert fs[i + 1] == f;
    }
  }

  /** Below a walk, the changes of one child are those of the walk of that child. */
  lemma FieldChanges(at: Path, path: string, fa: seq<Field>, fb: seq<Field>, cs: seq<Change>, i: nat)
    requires Ascending(fa) && i < |fa|
    requires Restrict(cs, at) == FieldsDiff(at, path, fa, fb) + FieldsAdded(at, path, fa, fb)
    ensures Restrict(cs, at + [Key(fa[i].key)]) == FieldDiff(at, path, fa[i], fb)
  {
    hide Restrict, FieldsDiff, FieldsAdded, FieldDiff;
    var p := at + [Key(fa[i].key)];
    RestrictTwice(cs, at, p);
    RestrictAppend(FieldsDiff(at, path, fa, fb), FieldsAdded(at, path, fa, fb), p);
    FieldsBelowOne(at, path, fa, fb, i);
    GetOfMember(fa, i);
    FieldsAddedBelow(at, path, fa, fb, fa[i].key);
  }

  lemma ItemChanges(at: Path, path: string, x: seq<Value>, y: seq<Value>, cs: seq<Change>, i: nat)
    requires i < |x|
    requires Restrict(cs, at) == ItemsDiff(at, path, x, y, 0) + ItemsAdded(at, path, |x|, y)
    ensures Restrict(cs, at + [Index(i)]) == ItemDiff(at, path, x[i], y, i)
  {
    hide Restrict, ItemsDiff, ItemsAdded, ItemDiff;
    var p := at + [Index(i)];
    RestrictTwice(cs, at, p);
    RestrictAppend(ItemsDiff(at, path, x, y, 0), ItemsAdded(at, path, |x|, y), p);
    ItemsBelowOne(at, path, x, y, 0, i);
    ItemsAddedBelow(at, path, |x|, y, i);
  }

  lemma {:induction false} KeptFieldsAreCommon(at: Path, path: string, fa: seq<Field>, fb: seq<Field>, cs: seq<Change>, i: nat)
    requires i <= |fa| && Ascending(fa) && Ascending(fb)
    requires forall j :: 0 <= j < |fa| ==> Valid(fa[j].value)
    requires forall j :: 0 <= j < |fb| ==> Valid(fb[j].value)
    requires Restrict(cs, at) == FieldsDiff(at, path, fa, fb) + FieldsAdded(at, path, fa, fb)
    ensures KeptFields(at, fa[i..], cs) == Common(fa[i..], fb)
    decreases fa, |fa| - i
  {
    if i < |fa| {
      var f := fa[i];
      var p := at + [Key(f.key)];
      assert fa[i..][0] == f && fa[i..][1..] == fa[i + 1..];
      FieldChanges(at, path, fa, fb, cs, i);
      KindAtRestrict(cs, p);
      match Get(fb, f.key)
      case Some(bv) =>
        WalkKind(p, JoinKey(path, f.key), f.value, bv);
        assert Field(f.key, bv) in fb;
        ApplyWalk(p, JoinKey(path, f.key), f.value, bv, cs);
        KeptFieldsAreCommon(at, path, fa, fb, cs, i + 1);
        assert !Dropped(cs, p);
        assert KeptFields(at, fa[i..], cs) == [Field(f.key, bv)] + KeptFields(at, fa[i + 1..], cs);
      case None =>
        assert Dropped(cs, p);
        KeptFieldsAreCommon(at, path, fa, fb, cs, i + 1);
    }
  }

  lemma ItemRemoved(cs: seq<Change>, p: Path, path: string, v: Value)
    requires Restrict(cs, p) == [Change(p, path, Removed(v))]
    ensures Dropped(cs, p)
  {
    KindAtRestrict(cs, p);
  }

  lemma KeptItemsStep(at: Path, x: seq<Value>, i: nat, cs: seq<Change>)
    requires i < |x|
    ensures var p := at + [Index(i)];
            KeptItems(at, x[i..], i, cs)
            == (if Dropped(cs, p) then [] else [Apply(p, x[i], cs)]) + KeptItems(at, x[i + 1..], i + 1, cs)
  {
    assert x[i..][0] == x[i] && x[i..][1..] == x[i + 1..];
  }

  /** The items of `y` from `i` on, before `n`. */
  function Between(y: seq<Value>, i: nat, n: nat): seq<Value>
    requires i <= n
  {
    if i >= |y| then [] else y[i..if n <= |y| then n else |y|]
  }

  lemma BetweenStep(y: seq<Value>, i: nat, n: nat)
    requires i < n
    ensures Between(y, i, n) == (if i < |y| then [y[i]] else []) + Between(y, i + 1, n)
  {
  }

  lemma NoneKept(at: Path, x: seq<Value>, y: seq<Value>, cs: seq<Change>)
    ensures KeptItems(at, x[|x|..], |x|, cs) == Between(y, |x|, |x|)
  {
  }

  lemma {:induction false} KeptItemsArePrefix(at: Path, path: string, x: seq<Value>, y: seq<Value>, cs: seq<Change>, i: nat)
    requires i <= |x|
    requires forall j :: 0 <= j < |x| ==> Valid(x[j])
    requires forall j :: 0 <= j < |y| ==> Valid(y[j])
    requires Restrict(cs, at) == ItemsDiff(at, path, x, y, 0) + ItemsAdded(at, path, |x|, y)
    ensures KeptItems(at, x[i..], i, cs) == Between(y, i, |x|)
    decreases x, |x| - i
  {
    hide Restrict, ItemsDiff, ItemsAdded, Walk, Apply, KeptItems, Dropped, Between;
    if i < |x| {
      var p := at + [Index(i)];
      ItemChanges(at, path, x, y, cs, i);
      KeptItemsArePrefix(at, path, x, y, cs, i + 1);
      KeptItemsStep(at, x, i, cs);
      BetweenStep(y, i, |x|);
      if i < |y| {
        NotDropped(cs, p, JoinIndex(path, i), x[i], y[i]);
        ApplyWalk(p, JoinIndex(path, i), x[i], y[i], cs);
      } else {
        ItemRemoved(cs, p, JoinIndex(path, i), x[i]);
      }
    } else {
      NoneKept(at, x, y, cs);
    }
  }

  lemma NotDropped(cs: seq<Change>, p: Path, path: string, a: Value, b: Value)
    requires Restrict(cs, p) == Walk(p, path, a, b)
    ensures !Dropped(cs, p)
  {
    hide Walk;
    KindAtRestrict(cs, p);
    WalkKind(p, path, a, b);
  }

  lemma ObjectPatched(at: Path, path: string, fa: seq<Field>, fb: seq<Field>, cs: seq<Change>)
    requires Ascending(fa) && Ascending(fb)
    requires Restrict(cs, at) == FieldsDiff(at, path, fa, fb) + FieldsAdded(at, path, fa, fb)
    requires KeptFields(at, fa, cs) == Common(fa, fb)
    ensures Apply(at, Object(fa), cs) == Object(fb)
  {
    hide FieldsDiff, FieldsAdded, Filter, Merge, Common, NewFields, KeptFields, Restrict, KindAt;
    var cs' := FieldsDiff(at, path, fa, fb) + FieldsAdded(at, path, fa, fb);
    KindAtRestrict(cs, at);
    FieldsWithin(at, path, fa, fb);
    FieldsAddedWithin(at, path, fa, fb);
    NoKindAt(cs', at);
    NewFieldsRestrict(at, cs);
    NewFieldsAppend(at, FieldsDiff(at, path, fa, fb), FieldsAdded(at, path, fa, fb));
    NothingNew(at, FieldsDiff(at, path, fa, fb));
    NewFieldsOfAdded(at, path, fa, fb);
    assert NewFields(at, cs) == Filter(MissingFrom(fa), fb);
    CommonIsFilter(fa, fb);
    MergeParts(fa, fb);
  }

  lemma NewItemsBeyond(at: Path, path: string, x: seq<Value>, y: seq<Value>)
    ensures NewItems(at, ItemsAdded(at, path, |x|, y)) == if |x| <= |y| then y[|x|..] else []
  {
    if |x| <= |y| { NewItemsOfAdded(at, path, |x|, y); }
  }

  lemma ApplyArray(at: Path, x: seq<Value>, cs: seq<Change>)
    requires KindAt(cs, at) == None
    ensures Apply(at, Array(x), cs) == Array(KeptItems(at, x, 0, cs) + NewItems(at, cs))
  {
    hide KindAt, KeptItems, NewItems;
  }

  /** An array's own changes are additions past its end. */
  lemma OnlyItemsAdded(at: Path, path: string, x: seq<Value>, y: seq<Value>, cs: seq<Change>)
    requires Restrict(cs, at) == ItemsDiff(at, path, x, y, 0) + ItemsAdded(at, path, |x|, y)
    ensures KindAt(cs, at) == None
    ensures NewItems(at, cs) == if |x| <= |y| then y[|x|..] else []
  {
    hide ItemsDiff, ItemsAdded, NewItems, Restrict, KindAt;
    var cs' := ItemsDiff(at, path, x, y, 0) + ItemsAdded(at, path, |x|, y);
    KindAtRestrict(cs, at);
    ItemsWithin(at, path, x, y, 0);
    ItemsAddedWithin(at, path, |x|, y);
    NoKindAt(cs', at);
    NewFieldsRestrict(at, cs);
    NewFieldsAppend(at, ItemsDiff(at, path, x, y, 0), ItemsAdded(at, path, |x|, y));
    NothingNew(at, ItemsDiff(at, path, x, y, 0));
    NewItemsBeyond(at, path, x, y);
  }

  lemma ArrayPatched(at: Path, path: string, x: seq<Value>, y: seq<Value>, cs: seq<Change>)
    requires Restrict(cs, at) == ItemsDiff(at, path, x, y, 0) + ItemsAdded(at, path, |x|, y)
    requires KeptItems(at, x, 0, cs) == if |x| <= |y| then y[..|x|] else y
    ensures Apply(at, Array(x), cs) == Array(y)
  {
    hide ItemsDiff, ItemsAdded, NewItems, KeptItems, Restrict, KindAt, Apply;
    OnlyItemsAdded(at, path, x, y, cs);
    ApplyArray(at, x, cs);
    assert y + [] == y;
  }

  /** Among any changes, those at and below a place turn what was there before into
      what is there after. */
  lemma {:induction false} ApplyWalk(at: Path, path: string, a: Value, b: Value, cs: seq<Change>)
    requires Valid(a) && Valid(b) && Restrict(cs, at) == Walk(at, path, a, b)
    ensures Apply(at, a, cs) == b
    decreases a, |cs| + 1
  {
    match (a, b)
    case (Object(fa), Object(fb)) =>
      assert fa[0..] == fa;
      KeptFieldsAreCommon(at, path, fa, fb, cs, 0);
      ObjectPatched(at, path, fa, fb, cs);
    case (Array(x), Array(y)) =>
      assert x[0..] == x;
      KeptItemsArePrefix(at, path, x, y, cs, 0);
      ArrayPatched(at, path, x, y, cs);
    case _ =>
      KindAtRestrict(cs, at);
  }

  /** The diff of two documents is a patch that rebuilds the second from the first. */
  lemma DiffIsPatch(a: Value, b: Value)
    requires Valid(a) && Valid(b)
    ensures Apply([], a, DiffJson(a, b)) == b
  {
    RestrictAll(DiffJson(a, b), []);
    ApplyWalk([], "", a, b, DiffJson(a, b));
  }

  // ---------- nothing to report ----------

  lemma {:induction false} ApplyNothing(at: Path, v: Value)
    ensures Apply(at, v, []) == v
    decreases v, 1
  {
    match v
    case Object(fs) => KeepAllFields(at, fs);
    case Array(xs) => KeepAllItems(at, xs, 0);
    case _ =>
  }

  lemma {:induction false} KeepAllFields(at: Path, fs: seq<Field>)
    ensures KeptFields(at, fs, []) == fs
    decreases fs, 0
  {
    if fs != [] {
      ApplyNothing(at + [Key(fs[0].key)], fs[0].value);
      KeepAllFields(at, fs[1..]);
    }
  }

  lemma {:induction false} KeepAllItems(at: Path, xs: seq<Value>, i: nat)
    ensures KeptItems(at, xs, i, []) == xs
    decreases xs, 0
  {
    if xs != [] {
      ApplyNothing(at + [Index(i)], xs[0]);
      KeepAllItems(at, xs[1..], i + 1);
    }
  }

  lemma {:induction false} WalkSame(at: Path, path: string, a: Value)
    requires Valid(a)
    ensures Walk(at, path, a, a) == []
    decreases a, |at| + 1
  {
    match a
    case Object(fa) =>
      SameFields(at, path, fa, 0);
      NoneAdded(at, path, fa, 0);
    case Array(x) => SameItems(at, path, x, 0);
    case _ =>
  }

  lemma {:induction false} SameFields(at: Path, path: string, fa: seq<Field>, i: nat)
    requires i <= |fa| && Ascending(fa) && forall j :: 0 <= j < |fa| ==> Valid(fa[j].value)
    ensures FieldsDiff(at, path, fa[i..], fa) == []
    decreases fa, |fa| - i
  {
    if i < |fa| {
      GetOfMember(fa, i);
      assert fa[i..][0] == fa[i] && fa[i..][1..] == fa[i + 1..];
      WalkSame(at + [Key(fa[i].key)], JoinKey(path, fa[i].key), fa[i].value);
      SameFields(at, path, fa, i + 1);
    }
    assert fa[0..] == fa;
  }

  lemma {:induction false} NoneAdded(at: Path, path: string, fa: seq<Field>, i: nat)
    requires i <= |fa| && Ascending(fa)
    ensures FieldsAdded(at, path, fa, fa[i..]) == []
    decreases |fa| - i
  {
    if i < |fa| {
      GetOfMember(fa, i);
      assert fa[i..][0] == fa[i] && fa[i..][1..] == fa[i + 1..];
      NoneAdded(at, path, fa, i + 1);
    }
  }

  lemma {:induction false} SameItems(at: Path, path: string, x: seq<Value>, i: nat)
    requires i <= |x| && forall j :: 0 <= j < |x| ==> Valid(x[j])
    ensures ItemsDiff(at, path, x[i..], x, i) == []
    decreases x, |x| - i
  {
    if i < |x| {
      assert x[i..][0] == x[i] && x[i..][1..] == x[i + 1..];
      WalkSame(at + [Index(i)], JoinIndex(path, i), x[i]);
      SameItems(at, path, x, i + 1);
    }
    assert x[0..] == x;
  }

  /** The diff is empty exactly for equal documents. */
  lemma DiffEmptyIffEqual(a: Value, b: Value)
    requires Valid(a) && Valid(b)
    ensures DiffJson(a, b) == [] <==> a == b
  {
    DiffIsPatch(a, b);
    ApplyNothing([], a);
    WalkSame([], "", a);
  }
}
