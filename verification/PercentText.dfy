/** Percent-encoding byte by byte, and the texts that cannot be decoded. */
module PercentText {
  import opened Text
  import opened Hexadecimal
  import opened Percent
  import Utf8

  // ---------- encoding ----------

  const DIGITS := "0123456789ABCDEF"

  /** The bytes that stand for themselves (section 2.3 of RFC 3986). */
  predicate Plain(b: byte) {
    0x41 <= b <= 0x5A || 0x61 <= b <= 0x7A || 0x30 <= b <= 0x39 || b in {0x2D, 0x2E, 0x5F, 0x7E}
  }

  /** One more byte is itself if it is plain, a plus sign if it is a space and that is asked
      for, and otherwise a percent sign with two digits. */
  lemma ByteEncoded(a: seq<byte>, b: byte, spaceAsPlus: bool)
    ensures EncodeBytes([], spaceAsPlus) == ""
    ensures EncodeBytes(a + [b], spaceAsPlus)
            == EncodeBytes(a, spaceAsPlus)
               + (if Plain(b) then [b as char]
                  else if b == 0x20 && spaceAsPlus then "+"
                  else ['%', DIGITS[b / 16], DIGITS[b % 16]])
  {
    hide EncodeBytes;
    EncodeBytesAppend(a, [b], spaceAsPlus);
    OneByte(b, spaceAsPlus);
    Digit(b / 16);
    Digit(b % 16);
  }

  lemma OneByte(b: byte, spaceAsPlus: bool)
    ensures EncodeBytes([], spaceAsPlus) == "" && EncodeBytes([b], spaceAsPlus) == EncodeByte(b, spaceAsPlus)
  {
    assert [b][1..] == [];
  }

  lemma Digit(n: nat)
    requires n < 16
    ensures HexDigit(n, true) == DIGITS[n]
  {
  }

  // ---------- decoding ----------

  /** A percent sign with two digits, in either case, is the byte they write. */
  lemma DigitsDecoded(x: nat, upper: bool, y: nat, upper': bool, rest: seq<byte>)
    requires x < 16 && y < 16 && (rest == [] || !Utf8.Continues(rest[0]))
    ensures DecodeBytes([0x25, HexDigit(x, upper) as int, HexDigit(y, upper') as int] + rest)
            == Then([16 * x + y], DecodeBytes(rest))
  {
    hide HexDigit, HexValue, DecodeOne;
    DigitIsAscii(x, upper);
    DigitIsAscii(y, upper');
    var h, l := HexDigit(x, upper) as int, HexDigit(y, upper') as int;
    ValueOfDigit(x, upper);
    ValueOfDigit(y, upper');
    assert Radix16(h, l) == Some(16 * x + y);
    TripleDecoded(h, l, 16 * x + y, rest);
  }

  lemma DigitIsAscii(n: nat, upper: bool)
    requires n < 16
    ensures HexDigit(n, upper) < '\U{80}' && HexDigit(n, upper) != '+'
  {
  }

  lemma TripleDecoded(h: byte, l: byte, b: byte, rest: seq<byte>)
    requires Radix16(h, l) == Some(b) && !Utf8.Continues(h) && (rest == [] || !Utf8.Continues(rest[0]))
    ensures DecodeBytes([0x25, h, l] + rest) == Then([b], DecodeBytes(rest))
  {
    hide Radix16;
    var bytes: seq<byte> := [0x25, h, l] + rest;
    assert bytes[3..] == rest;
  }

  /** As for numbers in general, a plus sign may stand for the first digit. */
  lemma PlusDecoded(y: nat, upper: bool, rest: seq<byte>)
    requires y < 16 && (rest == [] || !Utf8.Continues(rest[0]))
    ensures DecodeBytes([0x25, 0x2B, HexDigit(y, upper) as int] + rest) == Then([y], DecodeBytes(rest))
  {
    hide HexDigit, HexValue;
    DigitIsAscii(y, upper);
    ValueOfDigit(y, upper);
    assert Radix16(0x2B, HexDigit(y, upper) as int) == Some(y);
    TripleDecoded(0x2B, HexDigit(y, upper) as int, y, rest);
  }

  /** Any other byte is itself, but for a plus sign, which is a space; and so is a percent
      sign without two digits behind it. */
  lemma OtherDecoded(b: byte, rest: seq<byte>)
    requires b == 0x25 ==> |rest| < 2 || (Radix16(rest[0], rest[1]) == None && !CutsCharacter([b] + rest))
    ensures DecodeBytes([b] + rest) == Then([if b == 0x2B then 0x20 else b], DecodeBytes(rest))
  {
    assert ([b] + rest)[1..] == rest;
  }

  // ---------- which texts cannot be decoded ----------

  /** A percent sign with the first two bytes behind it inside a character. */
  predicate CutsAt(bytes: seq<byte>, i: nat)
    requires i < |bytes|
  {
    bytes[i] == 0x25 && i + 2 < |bytes| && CutsCharacter(bytes[i..])
  }

  lemma OneStep(bytes: seq<byte>)
    requires bytes != [] && DecodeOne(bytes).Some?
    ensures !CutsAt(bytes, 0)
    ensures forall i :: 0 < i < DecodeOne(bytes).value.0 ==> bytes[i] != 0x25
  {
    assert bytes[0..] == bytes;
  }

  lemma CutsLater(bytes: seq<byte>, n: nat, i: nat)
    requires n <= i < |bytes|
    ensures CutsAt(bytes, i) <==> CutsAt(bytes[n..], i - n)
  {
    assert bytes[n..][i - n..] == bytes[i..];
  }

  ghost predicate CutsSomewhere(bytes: seq<byte>) {
    exists i :: 0 <= i < |bytes| && CutsAt(bytes, i)
  }

  lemma CutsInParts(first: seq<byte>, rest: seq<byte>)
    requires first != [] && forall i :: 0 < i < |first| ==> first[i] != 0x25
    ensures CutsSomewhere(first + rest) <==> CutsAt(first + rest, 0) || CutsSomewhere(rest)
  {
    hide CutsAt;
    var bytes := first + rest;
    assert bytes[|first|..] == rest;
    NotPercent(bytes);
    if i :| 0 <= i < |bytes| && CutsAt(bytes, i) {
      if i >= |first| { CutsLater(bytes, |first|, i); }
    }
    if i :| 0 <= i < |rest| && CutsAt(rest, i) { CutsLater(bytes, |first|, |first| + i); }
  }

  /** Decoding reads every percent sign, so one that cuts a character is enough. */
  lemma {:induction false} BytesFailIff(bytes: seq<byte>)
    ensures DecodeBytes(bytes) == None <==> CutsSomewhere(bytes)
    decreases |bytes|
  {
    hide DecodeOne, CutsAt, CutsSomewhere;
    if bytes == [] {
      NothingCut();
    } else if DecodeOne(bytes).None? {
      FailsAtOnce(bytes);
      CutsFirst(bytes);
    } else {
      var n := DecodeOne(bytes).value.0;
      OneStep(bytes);
      assert bytes == bytes[..n] + bytes[n..];
      CutsInParts(bytes[..n], bytes[n..]);
      BytesFailIff(bytes[n..]);
    }
  }

  lemma CutsFirst(bytes: seq<byte>)
    requires bytes != [] && CutsAt(bytes, 0)
    ensures CutsSomewhere(bytes)
  {
  }

  lemma FailsAtOnce(bytes: seq<byte>)
    requires bytes != [] && DecodeOne(bytes).None?
    ensures CutsAt(bytes, 0)
  {
    assert bytes[0..] == bytes;
  }

  lemma NotPercent(bytes: seq<byte>)
    ensures forall i :: 0 <= i < |bytes| && CutsAt(bytes, i) ==> bytes[i] == 0x25
  {
  }

  // ---------- the same in characters ----------

  /** A `%`, and behind it a character of three bytes or more, or one of one byte and then
      one of two or more. */
  predicate Unreadable(s: string, i: nat)
    requires i < |s|
  {
    && s[i] == '%'
    && (|| (i + 1 < |s| && Utf8Size(s[i + 1]) >= 3)
        || (i + 2 < |s| && Utf8Size(s[i + 1]) == 1 && Utf8Size(s[i + 2]) >= 2))
  }

  lemma CharBytes(c: char)
    ensures var bytes := Utf8.EncodeChar(c);
            && (bytes[0] == 0x25 <==> c == '%') && !Utf8.Continues(bytes[0])
            && forall i :: 0 < i < |bytes| ==> Utf8.Continues(bytes[i]) && bytes[i] != 0x25
  {
  }

  lemma FirstCuts(s: string)
    requires s != "" && s[0] == '%'
    ensures var bytes := Utf8.Encode(s);
            && |bytes| > 0 && Utf8.EncodeChar(s[0]) == [0x25]
            && (CutsAt(bytes, 0) <==> Unreadable(s, 0))
  {
    hide Utf8.EncodeChar;
    assert Utf8.EncodeChar(s[0]) == [0x25] by { OnePercent(); }
    var bytes := Utf8.Encode(s);
    assert bytes[0..] == bytes;
    if |s| > 1 {
      CharBytes(s[1]);
      assert Utf8.Encode(s[1..]) == Utf8.EncodeChar(s[1]) + Utf8.Encode(s[1..][1..]);
      assert s[1..][1..] == s[2..];
      if |s| > 2 {
        CharBytes(s[2]);
        assert Utf8.Encode(s[2..]) == Utf8.EncodeChar(s[2]) + Utf8.Encode(s[2..][1..]);
        assert s[2..][1..] == s[3..];
        if |s| > 3 {
          CharBytes(s[3]);
          assert Utf8.Encode(s[3..]) == Utf8.EncodeChar(s[3]) + Utf8.Encode(s[3..][1..]);
        }
      }
    }
  }

  lemma OnePercent()
    ensures Utf8.EncodeChar('%') == [0x25]
  {
  }

  ghost predicate UnreadableSomewhere(s: string) {
    exists j :: 0 <= j < |s| && Unreadable(s, j)
  }

  lemma UnreadableInParts(s: string)
    requires s != ""
    ensures UnreadableSomewhere(s) <==> Unreadable(s, 0) || UnreadableSomewhere(s[1..])
  {
    hide Unreadable;
    if j :| 0 <= j < |s| && Unreadable(s, j) {
      if j > 0 { UnreadableLater(s, j); }
    }
    if j :| 0 <= j < |s[1..]| && Unreadable(s[1..], j) { UnreadableLater(s, j + 1); }
  }

  lemma {:induction false} CutsIff(s: string)
    ensures CutsSomewhere(Utf8.Encode(s)) <==> UnreadableSomewhere(s)
    decreases |s|
  {
    hide CutsAt, Unreadable, Utf8.EncodeChar, CutsSomewhere, UnreadableSomewhere;
    if s == "" {
      NothingCut();
    } else {
      CharBytes(s[0]);
      CutsInParts(Utf8.EncodeChar(s[0]), Utf8.Encode(s[1..]));
      UnreadableInParts(s);
      OnlyPercent(s);
      NotPercent(Utf8.Encode(s));
      if s[0] == '%' { FirstCuts(s); }
      CutsIff(s[1..]);
    }
  }

  lemma NothingCut()
    ensures !CutsSomewhere([]) && !UnreadableSomewhere("")
  {
  }

  lemma OnlyPercent(s: string)
    requires s != ""
    ensures Unreadable(s, 0) ==> s[0] == '%'
  {
  }

  lemma UnreadableLater(s: string, j: nat)
    requires 0 < j < |s|
    ensures Unreadable(s, j) <==> Unreadable(s[1..], j - 1)
  {
  }

  /** A text cannot be decoded if and only if some `%` in it stands in front of a character
      of three bytes or more, or of one byte and then one of several. */
  lemma DecodeFailsIff(s: string)
    ensures Decoded(s) == None <==> exists j :: 0 <= j < |s| && Unreadable(s, j)
  {
    hide Utf8.Encode, Utf8.Decode, DecodeBytes, CutsSomewhere, Unreadable;
    BytesFailIff(Utf8.Encode(s));
    CutsIff(s);
  }

  /** Such as `%` and a euro sign. */
  lemma EuroFails()
    ensures Decoded("100%\U{20AC}") == None
  {
    hide Decoded;
    var s := "100%\U{20AC}";
    DecodeFailsIff(s);
    assert Unreadable(s, 3);
  }
}
