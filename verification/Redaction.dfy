/** Masking known secrets in text on its way out. */
module Redaction {
  import opened Text

  const BULLET := '\U{2022}'
  const BULLETS := [BULLET, BULLET, BULLET, BULLET]
  const REDACTED := "redacted"
  const MASK := BULLETS + REDACTED + BULLETS

  /** `str::replace`: every occurrence, left to right, without overlap. */
  function Replace(s: string, pat: string, sub: string): string
    requires pat != ""
    decreases |s|
  {
    match Find(s, pat)
    case None => s
    case Some(i) => s[..i] + sub + Replace(s[i + |pat|..], pat, sub)
  }

  function ApplyOne(secret: string, text: string): string
    requires secret != ""
  {
    if Contains(text, secret) then Replace(text, secret, MASK) else text
  }

  ghost predicate NonEmpty(secrets: seq<string>) {
    forall i :: 0 <= i < |secrets| ==> secrets[i] != ""
  }

  function ApplyAll(secrets: seq<string>, text: string): string
    requires NonEmpty(secrets)
    decreases |secrets|
  {
    if secrets == [] then text else ApplyAll(secrets[1..], ApplyOne(secrets[0], text))
  }

  function Kept(given: seq<string>): (kept: seq<string>)
    ensures forall s :: s in kept <==> s in given && ByteLength(s) >= 4
    ensures NonEmpty(kept)
  {
    var kept := Filter((s: string) => ByteLength(s) >= 4, given);
    assert forall i :: 0 <= i < |kept| ==> kept[i] in kept;
    kept
  }

  class Redactor {
    const secrets: seq<string>

    ghost predicate Valid() {
      forall i :: 0 <= i < |secrets| ==> ByteLength(secrets[i]) >= 4
    }

    /** Trivially short values are not masked. */
    constructor (given: seq<string>)
      ensures Valid()
      ensures secrets == Kept(given)
    {
      var kept := Kept(given);
      secrets := kept;
      new;
      forall i | 0 <= i < |secrets| ensures ByteLength(secrets[i]) >= 4 {
        assert secrets[i] in kept;
      }
    }

    method Apply(text: string) returns (out: string)
      requires Valid()
      ensures NonEmpty(secrets) && out == ApplyAll(secrets, text)
    {
      LongIsNonEmpty(secrets);
      out := text;
      var i := 0;
      assert secrets[0..] == secrets;
      while i < |secrets|
        invariant 0 <= i <= |secrets|
        invariant NonEmpty(secrets[i..])
        invariant ApplyAll(secrets, text) == ApplyAll(secrets[i..], out)
      {
        assert secrets[i..][1..] == secrets[i + 1..];
        if Contains(out, secrets[i]) {
          out := Replace(out, secrets[i], MASK);
        }
        i := i + 1;
      }
    }
  }

  lemma LongIsNonEmpty(secrets: seq<string>)
    requires forall i :: 0 <= i < |secrets| ==> ByteLength(secrets[i]) >= 4
    ensures NonEmpty(secrets)
  {
    forall i | 0 <= i < |secrets| ensures secrets[i] != "" { assert ByteLength(secrets[i]) >= 4; }
  }

  // ---------- nothing left ----------

  /** A secret that masking cannot rebuild: it has no bullet and is not part of the
      word inside the mask. */
  ghost predicate Maskable(s: string) {
    s != "" && BULLET !in s && !Contains(REDACTED, s)
  }

  lemma SliceOccurs(text: string, i: nat, j: nat, s: string, k: int)
    requires i <= j <= |text|
    ensures OccursAt(text[i..j], s, k) <==> 0 <= k && i + k + |s| <= j && OccursAt(text, s, i + k)
  {
    if 0 <= k && i + k + |s| <= j { SliceSlice(text, i, j, k, k + |s|); }
  }

  lemma SliceSlice(text: string, i: nat, j: nat, a: nat, b: nat)
    requires i <= j <= |text| && a <= b <= j - i
    ensures text[i..j][a..b] == text[i + a..i + b]
  {
    var part := text[i..j];
    assert forall x :: 0 <= x < |part| ==> part[x] == text[i + x];
    assert |part[a..b]| == |text[i + a..i + b]|;
    assert forall x :: 0 <= x < b - a ==> part[a..b][x] == part[a + x] == text[i + a..i + b][x];
  }

  lemma PartContains(text: string, i: nat, j: nat, s: string)
    requires i <= j <= |text|
    ensures Contains(text[i..j], s) ==> Contains(text, s)
  {
    if Contains(text[i..j], s) {
      var k :| OccursAt(text[i..j], s, k);
      SliceOccurs(text, i, j, s, k);
    }
  }

  /** Nothing precedes the first occurrence. */
  lemma BeforeFirst(text: string, s: string, i: nat)
    requires s != "" && Find(text, s) == Some(i)
    ensures !Contains(text[..i], s)
  {
    forall k ensures !OccursAt(text[..i], s, k) {
      SliceOccurs(text, 0, i, s, k);
      assert text[0..i] == text[..i];
    }
  }

  lemma AvoidsBullets(text: string, s: string, k: int, n: nat)
    requires OccursAt(text, s, k) && s != "" && BULLET !in s && n + 4 <= |text|
    requires text[n..n + 4] == BULLETS
    ensures k + |s| <= n || k >= n + 4
  {
    var j := if k < n then n else k;
    assert k <= j < k + |s| ==> text[j] == text[k..k + |s|][j - k] && s[j - k] in s;
    assert n <= j < n + 4 ==> text[j] == BULLETS[j - n];
  }

  lemma MaskedParts(a: string, b: string)
    ensures var text := a + MASK + b;
            var n := |a|;
            && |text| == n + 16 + |b|
            && text[0..n] == a && text[n + 16..|text|] == b
            && text[n..n + 4] == BULLETS && text[n + 4..n + 12] == REDACTED && text[n + 12..n + 16] == BULLETS
  {
    assert MASK[..4] == BULLETS && MASK[4..12] == REDACTED && MASK[12..] == BULLETS;
    var text := a + MASK + b;
    assert text[|a|..|a| + 16] == MASK;
    assert text[|a| + 4..|a| + 12] == MASK[4..12];
  }

  /** An occurrence that avoids the bullets lies on one side of the mask, or inside
      its word. */
  lemma AroundMask(a: string, b: string, s: string)
    requires s != "" && BULLET !in s
    ensures Contains(a + MASK + b, s) ==> Contains(a, s) || Contains(REDACTED, s) || Contains(b, s)
  {
    var text := a + MASK + b;
    if Contains(text, s) { AroundMaskAt(a, b, text, s, Find(text, s).value); }
  }

  lemma AroundMaskAt(a: string, b: string, text: string, s: string, k: nat)
    requires s != "" && BULLET !in s && text == a + MASK + b && OccursAt(text, s, k)
    ensures Contains(a, s) || Contains(REDACTED, s) || Contains(b, s)
  {
    hide Contains, OccursAt;
    var n := |a|;
    MaskedParts(a, b);
    AvoidsBullets(text, s, k, n);
    AvoidsBullets(text, s, k, n + 12);
    SliceOccurs(text, 0, n, s, k);
    SliceOccurs(text, n + 4, n + 12, s, k - n - 4);
    SliceOccurs(text, n + 16, |text|, s, k - n - 16);
    OccursInside(text, s, k);
  }

  lemma OccursInside(text: string, s: string, k: int)
    requires OccursAt(text, s, k)
    ensures 0 <= k && k + |s| <= |text|
  {
  }

  lemma ReplaceStep(text: string, secret: string, i: nat)
    requires secret != "" && Find(text, secret) == Some(i)
    ensures Replace(text, secret, MASK) == text[..i] + MASK + Replace(text[i + |secret|..], secret, MASK)
  {
  }

  /** Replacing one secret leaves no trace of it, and brings back no secret that was
      already gone. */
  lemma {:induction false} ReplaceLeavesNone(text: string, secret: string, s: string)
    requires secret != "" && Maskable(s)
    requires s == secret || !Contains(text, s)
    ensures !Contains(Replace(text, secret, MASK), s)
    decreases |text|
  {
    match Find(text, secret)
    case None =>
    case Some(i) =>
      hide Contains, Find, Replace;
      var before, after := text[..i], text[i + |secret|..];
      ReplaceStep(text, secret, i);
      BeforeFirst(text, secret, i);
      PartContains(text, 0, i, s);
      assert text[0..i] == before && text[i + |secret|..|text|] == after;
      PartContains(text, i + |secret|, |text|, s);
      ReplaceLeavesNone(after, secret, s);
      AroundMask(before, Replace(after, secret, MASK), s);
  }

  lemma {:induction false} AppliedLeavesNone(secrets: seq<string>, text: string, s: string)
    requires NonEmpty(secrets) && Maskable(s)
    requires s in secrets || !Contains(text, s)
    ensures !Contains(ApplyAll(secrets, text), s)
    decreases |secrets|
  {
    if secrets != [] {
      var next := ApplyOne(secrets[0], text);
      if s == secrets[0] || !Contains(text, s) {
        if Contains(text, secrets[0]) { ReplaceLeavesNone(text, secrets[0], s); }
        assert !Contains(next, s);
      } else {
        assert s in secrets[1..];
      }
      AppliedLeavesNone(secrets[1..], next, s);
    }
  }

  /** No maskable secret of at least four bytes survives, whatever the others are
      and whatever the order. */
  lemma RedactionLeavesNothing(given: seq<string>, text: string)
    ensures forall s :: s in given && ByteLength(s) >= 4 && Maskable(s) ==> !Contains(ApplyAll(Kept(given), text), s)
  {
    hide Contains, ApplyAll;
    forall s | s in given && ByteLength(s) >= 4 && Maskable(s) ensures !Contains(ApplyAll(Kept(given), text), s) {
      AppliedLeavesNone(Kept(given), text, s);
    }
  }

  /** Once something has been masked, the output holds the mask's own word. */
  lemma {:induction false} MaskStays(secrets: seq<string>, text: string)
    requires NonEmpty(secrets) && Contains(text, MASK)
    ensures Contains(ApplyAll(secrets, text), MASK)
    decreases |secrets|
  {
    if secrets != [] {
      MaskAppears(text, secrets[0]);
      MaskStays(secrets[1..], ApplyOne(secrets[0], text));
    }
  }

  lemma MaskAppears(text: string, secret: string)
    requires secret != "" && (Contains(text, secret) || Contains(text, MASK))
    ensures Contains(ApplyOne(secret, text), MASK)
  {
    if Contains(text, secret) {
      var i := Find(text, secret).value;
      var out := Replace(text, secret, MASK);
      assert out[i..i + |MASK|] == MASK;
      assert OccursAt(out, MASK, i);
    }
  }

  lemma {:induction false} UntouchedOrMasked(secrets: seq<string>, text: string)
    requires NonEmpty(secrets)
    ensures (exists s :: s in secrets && Contains(text, s)) ==> Contains(ApplyAll(secrets, text), MASK)
    ensures (forall s :: s in secrets ==> !Contains(text, s)) ==> ApplyAll(secrets, text) == text
    decreases |secrets|
  {
    if secrets != [] {
      if Contains(text, secrets[0]) {
        MaskAppears(text, secrets[0]);
        MaskStays(secrets[1..], ApplyOne(secrets[0], text));
      } else {
        UntouchedOrMasked(secrets[1..], text);
      }
    }
  }

  lemma WordInMask(s: string, out: string)
    requires Contains(REDACTED, s) && Contains(out, MASK)
    ensures Contains(out, s)
  {
    MaskedParts("", "");
    assert "" + MASK + "" == MASK;
    PartContains(MASK, 4, 12, s);
    var i := Find(out, MASK).value;
    PartContains(out, i, i + |MASK|, s);
  }

  /** For secrets without a bullet, the output is free of all of them exactly when
      there was none to mask or none is part of the mask's word. */
  lemma RedactionCleanIff(secrets: seq<string>, text: string)
    requires NonEmpty(secrets) && forall s :: s in secrets ==> BULLET !in s
    ensures (forall s :: s in secrets ==> !Contains(ApplyAll(secrets, text), s))
            <==> || (forall s :: s in secrets ==> !Contains(text, s))
                 || (forall s :: s in secrets ==> !Contains(REDACTED, s))
  {
    hide Contains, ApplyAll;
    var out := ApplyAll(secrets, text);
    UntouchedOrMasked(secrets, text);
    if forall s :: s in secrets ==> !Contains(REDACTED, s) {
      forall s | s in secrets ensures !Contains(out, s) {
        var i :| 0 <= i < |secrets| && secrets[i] == s;
        AppliedLeavesNone(secrets, text, s);
      }
    } else if exists s :: s in secrets && Contains(text, s) {
      var w :| w in secrets && Contains(REDACTED, w);
      WordInMask(w, out);
    }
  }

  /** A secret that is the mask's own word is still there after masking. */
  lemma MaskShowsItsWord()
    ensures Contains(ApplyAll(["redacted"], "redacted"), "redacted")
  {
    hide ApplyAll, Contains;
    ContainsItself("redacted");
    assert NonEmpty(["redacted"]);
    assert forall s :: s in ["redacted"] ==> BULLET !in s;
    assert "redacted" in ["redacted"];
    RedactionCleanIff(["redacted"], "redacted");
  }

  lemma ContainsItself(s: string)
    ensures Contains(s, s)
  {
    assert s[0..|s|] == s;
    assert OccursAt(s, s, 0);
  }

  // ---------- headers ----------

  const CREDENTIAL_HEADERS := {
    "authorization", "proxy-authorization", "cookie", "set-cookie", "x-api-key", "api-key",
    "x-auth-token", "x-access-token", "x-csrf-token", "authentication"
  }

  predicate IsCredentialHeader(name: string) {
    Lower(Trim(name)) in CREDENTIAL_HEADERS
  }

  function HeaderForDisplay(name: string, value: string, secrets: seq<string>, show: bool): string
    requires NonEmpty(secrets)
  {
    if show then value
    else if IsCredentialHeader(name) then MASK
    else ApplyAll(secrets, value)
  }

  /** A header value shown without the opt-out holds no maskable secret, and the
      value of a credential header does not show through at all. */
  lemma HeaderShowsNothing(name: string, value: string, value': string, given: seq<string>, s: string)
    requires s in given && ByteLength(s) >= 4 && Maskable(s)
    ensures !Contains(HeaderForDisplay(name, value, Kept(given), false), s)
    ensures IsCredentialHeader(name) ==>
              HeaderForDisplay(name, value, Kept(given), false) == HeaderForDisplay(name, value', Kept(given), false)
  {
    RedactionLeavesNothing(given, value);
    MaskedParts("", "");
    assert "" + MASK + "" == MASK;
    AroundMask("", "", s);
  }
}
