/** What masking does to a text, occurrence by occurrence. */
module Masking {
  import opened Text
  import opened Marks
  import opened Redaction

  const SHOWN := "\U{2022}\U{2022}\U{2022}\U{2022}redacted\U{2022}\U{2022}\U{2022}\U{2022}"

  lemma MaskText()
    ensures MASK == SHOWN
  {
  }

  /** A text without a secret is kept, and in any other its first occurrence is masked
      and the same is done behind it. */
  lemma ReplaceParts(secret: string, front: string, back: string)
    requires secret != ""
    ensures FirstMark(front, secret, back) ==>
              Replace(front + secret + back, secret, MASK) == front + SHOWN + Replace(back, secret, MASK)
    ensures !Within(secret, front) ==> Replace(front, secret, MASK) == front
  {
    hide Find, MASK, SHOWN, FirstMark, Within;
    MaskText();
    FindIff(front, secret, back);
    FindNoneIff(front, secret);
    var s := front + secret + back;
    assert s[..|front|] == front && s[|front| + |secret|..] == back;
  }

  lemma OneMasked(secret: string, text: string)
    requires secret != ""
    ensures ApplyOne(secret, text) == Replace(text, secret, MASK)
  {
    hide Find, MASK;
  }

  /** Several secrets are masked one after another, in their order. */
  lemma {:induction false} MaskedInOrder(secrets: seq<string>, more: seq<string>, text: string)
    requires NonEmpty(secrets) && NonEmpty(more)
    ensures NonEmpty(secrets + more)
    ensures ApplyAll(secrets + more, text) == ApplyAll(more, ApplyAll(secrets, text))
    decreases |secrets|
  {
    hide ApplyOne;
    if secrets == [] {
      assert secrets + more == more;
    } else {
      assert (secrets + more)[1..] == secrets[1..] + more;
      MaskedInOrder(secrets[1..], more, ApplyOne(secrets[0], text));
    }
  }

  /** One secret in a text: kept where it does not stand, and masked where it does. */
  lemma OneSecretMasked(secret: string, front: string, back: string)
    requires secret != ""
    ensures NonEmpty([secret])
    ensures FirstMark(front, secret, back) ==>
              ApplyAll([secret], front + secret + back) == front + SHOWN + ApplyAll([secret], back)
    ensures !Within(secret, front) ==> ApplyAll([secret], front) == front
  {
    hide Replace, ApplyOne, SHOWN, MASK, FirstMark, Within;
    AlonePasses(secret, front + secret + back);
    AlonePasses(secret, front);
    AlonePasses(secret, back);
    ReplaceParts(secret, front, back);
  }

  lemma AlonePasses(secret: string, text: string)
    requires secret != ""
    ensures NonEmpty([secret]) && ApplyAll([secret], text) == Replace(text, secret, MASK)
  {
    hide Replace, ApplyOne;
    OneMasked(secret, text);
    assert [secret][1..] == [];
  }

  /** A secret counts if it has four bytes or more. */
  lemma KeptIff(given: seq<string>, s: string)
    ensures s in Kept(given) <==> s in given && ByteLength(s) >= 4
    ensures forall more: seq<string> :: Kept(given + more) == Kept(given) + Kept(more)
  {
    hide ByteLength;
    forall more: seq<string> ensures Kept(given + more) == Kept(given) + Kept(more) {
      FilterAppend((s: string) => ByteLength(s) >= 4, given, more);
    }
  }
}
