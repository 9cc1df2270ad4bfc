/** UTF-8: how a string is stored, and how bytes are read back as one. */
module Utf8 {
  import opened Text

  // ---------- storing ----------

  function EncodeChar(c: char): (bytes: seq<byte>)
    ensures |bytes| == Utf8Size(c)
  {
    var n := c as int;
    if n < 0x80 then [n]
    else if n < 0x800 then [0xC0 + n / 64, 0x80 + n % 64]
    else if n < 0x1_0000 then [0xE0 + n / 4096, 0x80 + n / 64 % 64, 0x80 + n % 64]
    else [0xF0 + n / 262144, 0x80 + n / 4096 % 64, 0x80 + n / 64 % 64, 0x80 + n % 64]
  }

  /** `as_bytes`. */
  function Encode(s: string): seq<byte> {
    if s == "" then [] else EncodeChar(s[0]) + Encode(s[1..])
  }

  lemma {:induction false} EncodeAppend(a: string, b: string)
    ensures Encode(a + b) == Encode(a) + Encode(b)
  {
    if a == "" {
      assert a + b == b;
    } else {
      hide EncodeChar;
      assert (a + b)[1..] == a[1..] + b;
      EncodeAppend(a[1..], b);
    }
  }

  predicate Ascii(s: string) {
    forall c :: c in s ==> c < '\U{80}'
  }

  /** ASCII text is its own bytes. */
  lemma {:induction false} EncodeAscii(s: string)
    requires Ascii(s)
    ensures |Encode(s)| == |s| && forall i :: 0 <= i < |s| ==> Encode(s)[i] == s[i] as int
  {
    if s != "" {
      assert forall c :: c in s[1..] ==> c in s;
      assert s[0] in s;
      EncodeAscii(s[1..]);
    }
  }

  // ---------- reading ----------

  predicate Continues(b: byte) {
    0x80 <= b < 0xC0
  }

  /** How many bytes a character takes that starts with `b`; 0 if none does. */
  function Width(b: byte): nat {
    if b < 0x80 then 1
    else if 0xC2 <= b < 0xE0 then 2
    else if 0xE0 <= b < 0xF0 then 3
    else if 0xF0 <= b < 0xF5 then 4
    else 0
  }

  /** The second byte rules out overlong forms, surrogates and what is past U+10FFFF. */
  predicate SecondFits(first: byte, second: byte) {
    && Continues(second)
    && (first == 0xE0 ==> 0xA0 <= second) && (first == 0xED ==> second < 0xA0)
    && (first == 0xF0 ==> 0x90 <= second) && (first == 0xF4 ==> second < 0x90)
  }

  /** How many bytes in front could begin a character. */
  function Good(bytes: seq<byte>): nat
    requires bytes != []
  {
    var w := Width(bytes[0]);
    if w < 2 then w
    else if |bytes| < 2 || !SecondFits(bytes[0], bytes[1]) then 1
    else if w == 2 || |bytes| < 3 || !Continues(bytes[2]) then 2
    else if w == 3 || |bytes| < 4 || !Continues(bytes[3]) then 3
    else 4
  }

  function Scalar(bytes: seq<byte>): (c: char)
    requires bytes != [] && Good(bytes) == Width(bytes[0]) > 0
  {
    var first: int := bytes[0];
    var w := Width(bytes[0]);
    if w == 1 then first as char
    else
      var second: int := bytes[1];
      if w == 2 then ((first - 0xC0) * 64 + second - 0x80) as char
      else
        var third: int := bytes[2];
        if w == 3 then ((first - 0xE0) * 4096 + (second - 0x80) * 64 + third - 0x80) as char
        else
          var fourth: int := bytes[3];
          ((first - 0xF0) * 262144 + (second - 0x80) * 4096 + (third - 0x80) * 64 + fourth - 0x80) as char
  }

  /** `from_utf8_lossy`: the replacement character for what begins no character. */
  function Decode(bytes: seq<byte>): string
    decreases |bytes|
  {
    if bytes == [] then ""
    else
      var good := Good(bytes);
      if good == Width(bytes[0]) > 0 then [Scalar(bytes)] + Decode(bytes[good..])
      else ['\U{FFFD}'] + Decode(bytes[if good == 0 then 1 else good..])
  }

  /** A byte that begins no character is replaced alone. */
  lemma LoneByte(b: byte, rest: seq<byte>)
    requires 0x80 <= b <= 0xC1 || 0xF5 <= b
    ensures Decode([b] + rest) == ['\U{FFFD}'] + Decode(rest)
  {
    assert ([b] + rest)[1..] == rest;
  }

  /** A character broken off is replaced as far as it goes: at the end of the bytes, or
      before the byte that does not go on. */
  lemma BrokenOff(good: seq<byte>, rest: seq<byte>)
    requires good != [] && |good| < Width(good[0])
    requires |good| > 1 ==> SecondFits(good[0], good[1])
    requires |good| > 2 ==> Continues(good[2])
    requires rest == [] || !(if |good| == 1 then SecondFits(good[0], rest[0]) else Continues(rest[0]))
    ensures Decode(good + rest) == ['\U{FFFD}'] + Decode(rest)
  {
    var bytes := good + rest;
    assert Good(bytes) == |good|;
    assert bytes[|good|..] == rest;
  }

  /** Which bytes begin a character of how many, and which may come second (table 3-7 of
      the Unicode Standard). */
  lemma WellFormed(b: byte, second: byte)
    ensures Width(b) == if b <= 0x7F then 1 else if 0xC2 <= b <= 0xDF then 2 else if 0xE0 <= b <= 0xEF then 3
                        else if 0xF0 <= b <= 0xF4 then 4 else 0
    ensures SecondFits(b, second)
            <==> if b == 0xE0 then 0xA0 <= second <= 0xBF
                 else if b == 0xED then 0x80 <= second <= 0x9F
                 else if b == 0xF0 then 0x90 <= second <= 0xBF
                 else if b == 0xF4 then 0x80 <= second <= 0x8F
                 else 0x80 <= second <= 0xBF
  {
  }

  lemma LeadFits(n: int)
    requires 0 <= n < 0xD800 || 0xE000 <= n < 0x11_0000
    ensures 0x80 <= n < 0x800 ==> Width(0xC0 + n / 64) == 2 && SecondFits(0xC0 + n / 64, 0x80 + n % 64)
    ensures 0x800 <= n < 0x1_0000 ==>
              Width(0xE0 + n / 4096) == 3 && SecondFits(0xE0 + n / 4096, 0x80 + n / 64 % 64)
    ensures 0x1_0000 <= n ==>
              Width(0xF0 + n / 262144) == 4 && SecondFits(0xF0 + n / 262144, 0x80 + n / 4096 % 64)
  {
  }

  lemma DivTwice(n: nat)
    ensures n / 4096 == n / 64 / 64 && n / 262144 == n / 64 / 64 / 64 && n / 4096 / 64 == n / 262144
  {
  }

  lemma DigitsMakeUp(n: nat)
    ensures n == n / 64 * 64 + n % 64
    ensures n == n / 4096 * 4096 + n / 64 % 64 * 64 + n % 64
    ensures n == n / 262144 * 262144 + n / 4096 % 64 * 4096 + n / 64 % 64 * 64 + n % 64
  {
    DivTwice(n);
    var q := n / 64;
    var q' := q / 64;
    assert n == q * 64 + n % 64 && q == q' * 64 + q % 64 && q' == q' / 64 * 64 + q' % 64;
  }

  lemma DecodeChar(c: char, rest: seq<byte>)
    ensures var bytes := EncodeChar(c) + rest;
            Good(bytes) == Width(bytes[0]) == Utf8Size(c) && Scalar(bytes) == c
  {
    hide Width, SecondFits;
    var n, bytes := c as int, EncodeChar(c) + rest;
    LeadFits(n);
    DigitsMakeUp(n);
    if n < 0x80 {
      WidthOfAscii(bytes[0]);
    } else if n < 0x800 {
      assert bytes[0] == 0xC0 + n / 64 && bytes[1] == 0x80 + n % 64;
    } else if n < 0x1_0000 {
      assert bytes[0] == 0xE0 + n / 4096 && bytes[1] == 0x80 + n / 64 % 64 && bytes[2] == 0x80 + n % 64;
    } else {
      assert bytes[0] == 0xF0 + n / 262144 && bytes[1] == 0x80 + n / 4096 % 64;
      assert bytes[2] == 0x80 + n / 64 % 64 && bytes[3] == 0x80 + n % 64;
    }
  }

  lemma WidthOfAscii(b: byte)
    ensures b < 0x80 ==> Width(b) == 1
  {
  }

  /** Every string reads back as itself. */
  lemma {:induction false} DecodeOfEncode(s: string)
    ensures Decode(Encode(s)) == s
  {
    if s != "" {
      hide EncodeChar, Good, Scalar, Width;
      var rest := Encode(s[1..]);
      DecodeChar(s[0], rest);
      DecodeOfEncode(s[1..]);
      assert (EncodeChar(s[0]) + rest)[Utf8Size(s[0])..] == rest;
      assert s == [s[0]] + s[1..];
    }
  }
}
