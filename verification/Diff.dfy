/** Structural comparison of two JSON documents. */
module Diff {
  import opened Text
  import opened Decimal
  import opened Json

  /** A reported change.  `path` is the text the source prints; `at` is the same
      place as a list of steps. The source renders the values to text; here they
      are kept. */
  datatype Change = Change(at: Path, path: string, kind: Kind)
  datatype Kind = Added(after: Value) | Removed(before: Value) | Changed(before: Value, after: Value)

  function JoinKey(path: string, key: string): string {
    if path == "" then key else path + "." + key
  }

  function JoinIndex(path: string, i: nat): string {
    path + "[" + Dec(i) + "]"
  }

  // ---------- the walk, as a function ----------

  function Walk(at: Path, path: string, a: Value, b: Value): seq<Change>
    decreases a, 1
  {
    match (a, b)
    case (Object(fa), Object(fb)) => FieldsDiff(at, path, fa, fb) + FieldsAdded(at, path, fa, fb)
    case (Array(x), Array(y)) => ItemsDiff(at, path, x, y, 0) + ItemsAdded(at, path, |x|, y)
    case _ => if a == b then [] else [Change(at, if path == "" then "$" else path, Changed(a, b))]
  }

  function FieldDiff(at: Path, path: string, f: Field, fb: seq<Field>): seq<Change>
    decreases f, 2
  {
    match Get(fb, f.key)
    case Some(bv) => Walk(at + [Key(f.key)], JoinKey(path, f.key), f.value, bv)
    case None => [Change(at + [Key(f.key)], JoinKey(path, f.key), Removed(f.value))]
  }

  function FieldsDiff(at: Path, path: string, fa: seq<Field>, fb: seq<Field>): seq<Change>
    decreases fa, 0
  {
    if fa == [] then []
    else FieldDiff(at, path, fa[0], fb) + FieldsDiff(at, path, fa[1..], fb)
  }

  function FieldsAdded(at: Path, path: string, fa: seq<Field>, fb: seq<Field>): seq<Change> {
    if fb == [] then []
    else
      (if Get(fa, fb[0].key).Some? then []
       else [Change(at + [Key(fb[0].key)], JoinKey(path, fb[0].key), Added(fb[0].value))])
      + FieldsAdded(at, path, fa, fb[1..])
  }

  function ItemDiff(at: Path, path: string, v: Value, y: seq<Value>, i: nat): seq<Change>
    decreases v, 2
  {
    if i < |y| then Walk(at + [Index(i)], JoinIndex(path, i), v, y[i])
    else [Change(at + [Index(i)], JoinIndex(path, i), Removed(v))]
  }

  /** The items of `x` stand at indices `i` onward. */
  function ItemsDiff(at: Path, path: string, x: seq<Value>, y: seq<Value>, i: nat): seq<Change>
    decreases x, 0
  {
    if x == [] then []
    else ItemDiff(at, path, x[0], y, i) + ItemsDiff(at, path, x[1..], y, i + 1)
  }

  function ItemsAdded(at: Path, path: string, i: nat, y: seq<Value>): seq<Change>
    decreases |y| - i
  {
    if i >= |y| then []
    else [Change(at + [Index(i)], JoinIndex(path, i), Added(y[i]))] + ItemsAdded(at, path, i + 1, y)
  }

  function DiffJson(before: Value, after: Value): seq<Change> {
    Walk([], "", before, after)
  }

  // ---------- where changes lie ----------

  ghost predicate Within(cs: seq<Change>, p: Path) {
    forall c :: c in cs ==> p <= c.at
  }

  function Restrict(cs: seq<Change>, p: Path): seq<Change> {
    Filter((c: Change) => p <= c.at, cs)
  }

  lemma RestrictAll(cs: seq<Change>, p: Path)
    requires Within(cs, p)
    ensures Restrict(cs, p) == cs
  {
    FilterAll((c: Change) => p <= c.at, cs);
  }

  lemma RestrictNone(cs: seq<Change>, p: Path)
    requires forall c :: c in cs ==> !(p <= c.at)
    ensures Restrict(cs, p) == []
  {
    FilterNone((c: Change) => p <= c.at, cs);
  }

  lemma NextStep(p: Path, s: Segment, q: Path)
    ensures p + [s] <= q ==> |q| > |p| && q[|p|] == s
  {
    if p + [s] <= q { assert (p + [s])[|p|] == q[|p|]; }
  }

  lemma RestrictOther(cs: seq<Change>, at: Path, s: Segment, t: Segment)
    requires Within(cs, at + [s]) && s != t
    ensures Restrict(cs, at + [t]) == []
  {
    forall c | c in cs ensures !(at + [t] <= c.at) {
      NextStep(at, s, c.at);
      NextStep(at, t, c.at);
    }
    RestrictNone(cs, at + [t]);
  }

  lemma RestrictAppend(xs: seq<Change>, ys: seq<Change>, p: Path)
    ensures Restrict(xs + ys, p) == Restrict(xs, p) + Restrict(ys, p)
  {
    FilterAppend((c: Change) => p <= c.at, xs, ys);
  }

  lemma RestrictTwice(cs: seq<Change>, p: Path, q: Path)
    requires p <= q
    ensures Restrict(Restrict(cs, p), q) == Restrict(cs, q)
  {
    FilterFilter((c: Change) => p <= c.at, (c: Change) => q <= c.at, (c: Change) => q <= c.at, cs);
  }

  lemma WithinShorter(cs: seq<Change>, p: Path, s: Segment)
    requires Within(cs, p + [s])
    ensures Within(cs, p) && forall c :: c in cs ==> |c.at| > |p|
  {
    forall c | c in cs ensures p <= c.at { assert p <= p + [s] <= c.at; }
  }

  /** Every change of a walk lies at or below its place; only a `Changed` lies at it. */
  lemma {:induction false} WalkWithin(at: Path, path: string, a: Value, b: Value)
    ensures Within(Walk(at, path, a, b), at)
    ensures forall c :: c in Walk(at, path, a, b) ==> c.kind.Changed? || |c.at| > |at|
    decreases a, 1
  {
    match (a, b)
    case (Object(fa), Object(fb)) =>
      FieldsWithin(at, path, fa, fb);
      FieldsAddedWithin(at, path, fa, fb);
    case (Array(x), Array(y)) =>
      ItemsWithin(at, path, x, y, 0);
      ItemsAddedWithin(at, path, |x|, y);
    case _ =>
  }

  lemma {:induction false} FieldDiffWithin(at: Path, path: string, f: Field, fb: seq<Field>)
    ensures Within(FieldDiff(at, path, f, fb), at + [Key(f.key)])
    ensures forall c :: c in FieldDiff(at, path, f, fb) ==> !c.kind.Added? || |c.at| > |at| + 1
    decreases f, 2
  {
    if Get(fb, f.key).Some? {
      WalkWithin(at + [Key(f.key)], JoinKey(path, f.key), f.value, Get(fb, f.key).value);
    }
  }

  lemma {:induction false} FieldsWithin(at: Path, path: string, fa: seq<Field>, fb: seq<Field>)
    ensures Within(FieldsDiff(at, path, fa, fb), at)
    ensures forall c :: c in FieldsDiff(at, path, fa, fb) ==> |c.at| > |at| && (!c.kind.Added? || |c.at| > |at| + 1)
    decreases fa, 0
  {
    if fa != [] {
      FieldDiffWithin(at, path, fa[0], fb);
      WithinShorter(FieldDiff(at, path, fa[0], fb), at, Key(fa[0].key));
      FieldsWithin(at, path, fa[1..], fb);
    }
  }

  lemma {:induction false} FieldsAddedWithin(at: Path, path: string, fa: seq<Field>, fb: seq<Field>)
    ensures Within(FieldsAdded(at, path, fa, fb), at)
    ensures forall c :: c in FieldsAdded(at, path, fa, fb) ==> |c.at| > |at|
  {
    if fb != [] { FieldsAddedWithin(at, path, fa, fb[1..]); }
  }

  lemma {:induction false} ItemDiffWithin(at: Path, path: string, v: Value, y: seq<Value>, i: nat)
    ensures Within(ItemDiff(at, path, v, y, i), at + [Index(i)])
    ensures forall c :: c in ItemDiff(at, path, v, y, i) ==> !c.kind.Added? || |c.at| > |at| + 1
    decreases v, 2
  {
    if i < |y| { WalkWithin(at + [Index(i)], JoinIndex(path, i), v, y[i]); }
  }

  lemma {:induction false} ItemsWithin(at: Path, path: string, x: seq<Value>, y: seq<Value>, i: nat)
    ensures Within(ItemsDiff(at, path, x, y, i), at)
    ensures forall c :: c in ItemsDiff(at, path, x, y, i) ==> |c.at| > |at| && (!c.kind.Added? || |c.at| > |at| + 1)
    decreases x, 0
  {
    if x != [] {
      ItemDiffWithin(at, path, x[0], y, i);
      WithinShorter(ItemDiff(at, path, x[0], y, i), at, Index(i));
      ItemsWithin(at, path, x[1..], y, i + 1);
    }
  }

  lemma {:induction false} ItemsAddedWithin(at: Path, path: string, i: nat, y: seq<Value>)
    ensures Within(ItemsAdded(at, path, i, y), at)
    ensures forall c :: c in ItemsAdded(at, path, i, y) ==> |c.at| > |at|
    decreases |y| - i
  {
    if i < |y| { ItemsAddedWithin(at, path, i + 1, y); }
  }

  // ---------- the part of a walk below one child ----------

  lemma {:induction false} FieldsBelow(at: Path, path: string, fa: seq<Field>, fb: seq<Field>, key: string)
    requires forall i :: 0 <= i < |fa| ==> fa[i].key != key
    ensures Restrict(FieldsDiff(at, path, fa, fb), at + [Key(key)]) == []
    decreases |fa|
  {
    if fa != [] {
      FieldDiffWithin(at, path, fa[0], fb);
      RestrictOther(FieldDiff(at, path, fa[0], fb), at, Key(fa[0].key), Key(key));
      RestrictAppend(FieldDiff(at, path, fa[0], fb), FieldsDiff(at, path, fa[1..], fb), at + [Key(key)]);
      FieldsBelow(at, path, fa[1..], fb, key);
    }
  }

  lemma {:induction false} FieldsBelowOne(at: Path, path: string, fa: seq<Field>, fb: seq<Field>, i: nat)
    requires Ascending(fa) && i < |fa|
    ensures Restrict(FieldsDiff(at, path, fa, fb), at + [Key(fa[i].key)]) == FieldDiff(at, path, fa[i], fb)
    decreases |fa|
  {
    hide Restrict, FieldDiff;
    var p := at + [Key(fa[i].key)];
    AscendingTail(fa);
    FieldDiffWithin(at, path, fa[0], fb);
    RestrictAppend(FieldDiff(at, path, fa[0], fb), FieldsDiff(at, path, fa[1..], fb), p);
    if i == 0 {
      RestrictAll(FieldDiff(at, path, fa[0], fb), p);
      FieldsBelow(at, path, fa[1..], fb, fa[0].key);
    } else {
      LexLessIrreflexive(fa[0].key);
      RestrictOther(FieldDiff(at, path, fa[0], fb), at, Key(fa[0].key), Key(fa[i].key));
      FieldsBelowOne(at, path, fa[1..], fb, i - 1);
    }
  }

  lemma {:induction false} FieldsAddedBelow(at: Path, path: string, fa: seq<Field>, fb: seq<Field>, key: string)
    requires Get(fa, key).Some?
    ensures Restrict(FieldsAdded(at, path, fa, fb), at + [Key(key)]) == []
  {
    if fb != [] {
      FieldsAddedBelow(at, path, fa, fb[1..], key);
      if Get(fa, fb[0].key).None? {
        var one := [Change(at + [Key(fb[0].key)], JoinKey(path, fb[0].key), Added(fb[0].value))];
        RestrictOther(one, at, Key(fb[0].key), Key(key));
        RestrictAppend(one, FieldsAdded(at, path, fa, fb[1..]), at + [Key(key)]);
      } else {
        assert [] + FieldsAdded(at, path, fa, fb[1..]) == FieldsAdded(at, path, fa, fb[1..]);
      }
    }
  }

  lemma {:induction false} ItemsBelowLater(at: Path, path: string, x: seq<Value>, y: seq<Value>, i: nat, k: nat)
    requires k < i
    ensures Restrict(ItemsDiff(at, path, x, y, i), at + [Index(k)]) == []
    decreases |x|
  {
    if x != [] {
      ItemDiffWithin(at, path, x[0], y, i);
      RestrictOther(ItemDiff(at, path, x[0], y, i), at, Index(i), Index(k));
      RestrictAppend(ItemDiff(at, path, x[0], y, i), ItemsDiff(at, path, x[1..], y, i + 1), at + [Index(k)]);
      ItemsBelowLater(at, path, x[1..], y, i + 1, k);
    }
  }

  lemma {:induction false} ItemsBelowOne(at: Path, path: string, x: seq<Value>, y: seq<Value>, i: nat, k: nat)
    requires k < |x|
    ensures Restrict(ItemsDiff(at, path, x, y, i), at + [Index(i + k)]) == ItemDiff(at, path, x[k], y, i + k)
    decreases |x|
  {
    hide Restrict, ItemDiff;
    var p := at + [Index(i + k)];
    ItemDiffWithin(at, path, x[0], y, i);
    RestrictAppend(ItemDiff(at, path, x[0], y, i), ItemsDiff(at, path, x[1..], y, i + 1), p);
    if k == 0 {
      RestrictAll(ItemDiff(at, path, x[0], y, i), p);
      ItemsBelowLater(at, path, x[1..], y, i + 1, i);
    } else {
      RestrictOther(ItemDiff(at, path, x[0], y, i), at, Index(i), Index(i + k));
      ItemsBelowOne(at, path, x[1..], y, i + 1, k - 1);
    }
  }

  lemma {:induction false} ItemsAddedBelow(at: Path, path: string, i: nat, y: seq<Value>, k: nat)
    requires k < i
    ensures Restrict(ItemsAdded(at, path, i, y), at + [Index(k)]) == []
    decreases |y| - i
  {
    hide Restrict;
    RestrictAll([], at + [Index(k)]);
    if i < |y| {
      var one := [Change(at + [Index(i)], JoinIndex(path, i), Added(y[i]))];
      RestrictOther(one, at, Index(i), Index(k));
      RestrictAppend(one, ItemsAdded(at, path, i + 1, y), at + [Index(k)]);
      ItemsAddedBelow(at, path, i + 1, y, k);
    }
  }

  // ---------- the walk, pushing changes ----------

  class Differ {
    var out: seq<Change>

    constructor ()
      ensures out == []
    {
      out := [];
    }

    method Push(c: Change)
      modifies this
      ensures out == old(out) + [c]
    {
      out := out + [c];
    }

    method WalkInto(at: Path, path: string, before: Value, after: Value)
      modifies this
      ensures out == old(out) + Walk(at, path, before, after)
      decreases before
    {
      hide FieldsDiff, FieldsAdded, ItemsDiff, ItemsAdded;
      match (before, after)
      case (Object(a), Object(b)) =>
        WalkFields(at, path, a, b);
        AddFields(at, path, a, b);
        assert Walk(at, path, before, after) == FieldsDiff(at, path, a, b) + FieldsAdded(at, path, a, b);
      case (Array(x), Array(y)) =>
        WalkItems(at, path, x, y);
        AddItems(at, path, |x|, y);
        assert Walk(at, path, before, after) == ItemsDiff(at, path, x, y, 0) + ItemsAdded(at, path, |x|, y);
      case _ =>
        if before != after {
          Push(Change(at, if path == "" then "$" else path, Changed(before, after)));
        }
    }

    method AddFields(at: Path, path: string, a: seq<Field>, b: seq<Field>)
      modifies this
      ensures out == old(out) + FieldsAdded(at, path, a, b)
    {
      for i := 0 to |b|
        invariant out == old(out) + FieldsAdded(at, path, a, b[..i])
      {
        AddedSnoc(at, path, a, b, i);
        if Get(a, b[i].key).None? {
          Push(Change(at + [Key(b[i].key)], JoinKey(path, b[i].key), Added(b[i].value)));
        }
      }
      assert b[..|b|] == b;
    }

    method AddItems(at: Path, path: string, from: nat, y: seq<Value>)
      modifies this
      ensures out == old(out) + ItemsAdded(at, path, from, y)
    {
      var i := from;
      while i < |y|
        invariant from <= i
        invariant out + ItemsAdded(at, path, i, y) == old(out) + ItemsAdded(at, path, from, y)
      {
        Push(Change(at + [Index(i)], JoinIndex(path, i), Added(y[i])));
        i := i + 1;
      }
    }

    method WalkFields(at: Path, path: string, a: seq<Field>, b: seq<Field>)
      modifies this
      ensures out == old(out) + FieldsDiff(at, path, a, b)
      decreases a
    {
      var i := 0;
      while i < |a|
        invariant i <= |a|
        invariant out + FieldsDiff(at, path, a[i..], b) == old(out) + FieldsDiff(at, path, a, b)
      {
        assert a[i..][1..] == a[i + 1..];
        match Get(b, a[i].key) {
          case Some(bv) => WalkInto(at + [Key(a[i].key)], JoinKey(path, a[i].key), a[i].value, bv);
          case None => Push(Change(at + [Key(a[i].key)], JoinKey(path, a[i].key), Removed(a[i].value)));
        }
        i := i + 1;
      }
    }

    method WalkItems(at: Path, path: string, x: seq<Value>, y: seq<Value>)
      modifies this
      ensures out == old(out) + ItemsDiff(at, path, x, y, 0)
      decreases x
    {
      var i := 0;
      while i < |x|
        invariant i <= |x|
        invariant out + ItemsDiff(at, path, x[i..], y, i) == old(out) + ItemsDiff(at, path, x, y, 0)
      {
        assert x[i..][1..] == x[i + 1..];
        if i < |y| {
          WalkInto(at + [Index(i)], JoinIndex(path, i), x[i], y[i]);
        } else {
          Push(Change(at + [Index(i)], JoinIndex(path, i), Removed(x[i])));
        }
        i := i + 1;
      }
    }
  }

  lemma {:induction false} AddedSnoc(at: Path, path: string, fa: seq<Field>, fb: seq<Field>, i: nat)
    requires i < |fb|
    ensures FieldsAdded(at, path, fa, fb[..i + 1])
            == FieldsAdded(at, path, fa, fb[..i])
               + (if Get(fa, fb[i].key).Some? then []
                  else [Change(at + [Key(fb[i].key)], JoinKey(path, fb[i].key), Added(fb[i].value))])
    decreases i
  {
    if i == 0 {
      assert fb[..1][1..] == [];
    } else {
      assert fb[..i + 1][1..] == fb[1..][..i] && fb[..i][1..] == fb[1..][..i - 1];
      AddedSnoc(at, path, fa, fb[1..], i - 1);
    }
  }
}
