/** Where one text stands in another. */
module Marks {
  import opened Text

  /** `part` stands somewhere in `whole`. */
  ghost predicate Within<T(!new)>(part: seq<T>, whole: seq<T>) {
    exists a: seq<T>, b: seq<T> :: whole == a + part + b
  }

  /** `front` is all that stands before the first `mark` of `front + mark + back`. */
  ghost predicate FirstMark<T(!new)>(front: seq<T>, mark: seq<T>, back: seq<T>) {
    forall a: seq<T>, b: seq<T> :: front + mark + back == a + mark + b ==> |a| >= |front|
  }

  lemma MarkAt<T>(s: seq<T>, mark: seq<T>, a: seq<T>, b: seq<T>)
    ensures s == a + mark + b ==> OccursAt(s, mark, |a|)
  {
    if s == a + mark + b { assert s[|a|..|a| + |mark|] == mark; }
  }

  lemma CutAt<T>(s: seq<T>, mark: seq<T>, i: int)
    requires OccursAt(s, mark, i)
    ensures s == s[..i] + mark + s[i + |mark|..]
  {
    assert s[i..i + |mark|] == mark;
  }

  lemma ContainsIff<T(!new)>(whole: seq<T>, part: seq<T>)
    ensures Contains(whole, part) <==> Within(part, whole)
  {
    if i :| OccursAt(whole, part, i) { CutAt(whole, part, i); }
    if a: seq<T>, b: seq<T> :| whole == a + part + b { MarkAt(whole, part, a, b); }
  }

  /** The first occurrence found is the one with none before it. */
  lemma FindIff<T(!new)>(front: seq<T>, mark: seq<T>, back: seq<T>)
    ensures Find(front + mark + back, mark) == Some(|front|) <==> FirstMark(front, mark, back)
  {
    hide Find;
    var s := front + mark + back;
    MarkAt(s, mark, front, back);
    if FirstMark(front, mark, back) {
      forall j | OccursAt(s, mark, j) ensures j >= |front| {
        CutAt(s, mark, j);
        assert |s[..j]| == j;
      }
    }
    if Find(s, mark) == Some(|front|) {
      forall a: seq<T>, b: seq<T> | s == a + mark + b ensures |a| >= |front| { MarkAt(s, mark, a, b); }
    }
  }

  lemma FindNoneIff<T(!new)>(s: seq<T>, mark: seq<T>)
    ensures Find(s, mark) == None <==> !Within(mark, s)
  {
    hide Find;
    if Find(s, mark).Some? { CutAt(s, mark, Find(s, mark).value); }
    forall a: seq<T>, b: seq<T> ensures s == a + mark + b ==> OccursAt(s, mark, |a|) { MarkAt(s, mark, a, b); }
  }

  /** Equal but for the case of the letters A to Z. */
  ghost predicate Spells(a: string, b: string) {
    |a| == |b| && forall i :: 0 <= i < |a| ==> SameLetter(a[i], b[i])
  }

  ghost predicate SameLetter(c: char, d: char) {
    c == d || ('A' <= c <= 'Z' && d as int == c as int + 32) || ('A' <= d <= 'Z' && c as int == d as int + 32)
  }

  lemma LowerIff(a: string, b: string)
    ensures Lower(a) == Lower(b) <==> Spells(a, b)
  {
    var la, lb := Lower(a), Lower(b);
    if Spells(a, b) { assert la == lb; }
    if la == lb {
      forall i | 0 <= i < |a| ensures SameLetter(a[i], b[i]) {
        assert la[i] == lb[i];
      }
    }
  }
}
