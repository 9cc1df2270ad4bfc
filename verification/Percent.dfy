/** Percent-encoding (section 2.1 of RFC 3986), forms, and the authorization URL. */
module Percent {
  import opened Text
  import opened Hexadecimal
  import Utf8

  // ---------- encoding ----------

  predicate IsUnreserved(c: char) {
    'A' <= c <= 'Z' || 'a' <= c <= 'z' || '0' <= c <= '9' || c == '-' || c == '_' || c == '.' || c == '~'
  }

  /** One byte encoded. Bodies write a space as `+`; the authorization URL does not. */
  function EncodeByte(b: byte, spaceAsPlus: bool): string {
    if b < 0x80 && IsUnreserved(b as char) then [b as char]
    else if b == 0x20 && spaceAsPlus then "+"
    else ['%', HexDigit(b / 16, true), HexDigit(b % 16, true)]
  }

  function EncodeBytes(bytes: seq<byte>, spaceAsPlus: bool): string {
    if bytes == [] then "" else EncodeByte(bytes[0], spaceAsPlus) + EncodeBytes(bytes[1..], spaceAsPlus)
  }

  function Encoded(s: string, spaceAsPlus: bool): string {
    EncodeBytes(Utf8.Encode(s), spaceAsPlus)
  }

  lemma {:induction false} EncodeBytesAppend(a: seq<byte>, b: seq<byte>, spaceAsPlus: bool)
    ensures EncodeBytes(a + b, spaceAsPlus) == EncodeBytes(a, spaceAsPlus) + EncodeBytes(b, spaceAsPlus)
  {
    hide EncodeByte;
    if a == [] {
      assert a + b == b;
    } else {
      assert (a + b)[1..] == a[1..] + b;
      EncodeBytesAppend(a[1..], b, spaceAsPlus);
    }
  }

  lemma EncodeBytesSnoc(bytes: seq<byte>, i: nat, spaceAsPlus: bool)
    requires i < |bytes|
    ensures EncodeBytes(bytes[..i + 1], spaceAsPlus) == EncodeBytes(bytes[..i], spaceAsPlus) + EncodeByte(bytes[i], spaceAsPlus)
  {
    hide EncodeByte;
    assert bytes[..i + 1] == bytes[..i] + [bytes[i]];
    EncodeBytesAppend(bytes[..i], [bytes[i]], spaceAsPlus);
    assert EncodeBytes([bytes[i]], spaceAsPlus) == EncodeByte(bytes[i], spaceAsPlus) + "";
  }

  method Urlencode(input: string, spaceAsPlus: bool) returns (out: string)
    ensures out == Encoded(input, spaceAsPlus)
  {
    var bytes := Utf8.Encode(input);
    out := "";
    for i := 0 to |bytes|
      invariant out == EncodeBytes(bytes[..i], spaceAsPlus)
    {
      EncodeBytesSnoc(bytes, i, spaceAsPlus);
      var b := bytes[i];
      if b < 0x80 && IsUnreserved(b as char) {
        out := out + [b as char];
      } else if b == 0x20 && spaceAsPlus {
        out := out + "+";
      } else {
        out := out + ['%', HexDigit(b / 16, true), HexDigit(b % 16, true)];
      }
    }
    assert bytes[..|bytes|] == bytes;
  }

  // ---------- decoding ----------

  /** `u8::from_str_radix(_, 16)` on two bytes: a leading `+` is allowed. */
  function Radix16(high: byte, low: byte): (r: Option<byte>) {
    match HexValue(low)
    case None => None
    case Some(l) =>
      if high == 0x2B then Some(l)
      else match HexValue(high)
        case None => None
        case Some(h) =>
          assert h < 16 && l < 16;
          Some(h * 16 + l)
  }

  function Then(head: seq<byte>, tail: Option<seq<byte>>): Option<seq<byte>> {
    if tail.None? then None else Some(head + tail.value)
  }

  /** The two bytes after a `%` are not whole characters: taking them as text fails. */
  predicate CutsCharacter(bytes: seq<byte>)
    requires |bytes| > 2
  {
    Utf8.Continues(bytes[1]) || (|bytes| > 3 && Utf8.Continues(bytes[3]))
  }

  /** Read from the front: how many bytes are taken and the byte they stand for;
      `None` when text is cut inside a character. */
  function DecodeOne(bytes: seq<byte>): (r: Option<(nat, byte)>)
    requires bytes != []
    ensures r.Some? ==> 0 < r.value.0 <= |bytes|
  {
    if bytes[0] == 0x25 && |bytes| > 2 then
      if CutsCharacter(bytes) then None
      else match Radix16(bytes[1], bytes[2])
        case Some(b) => Some((3, b))
        case None => Some((1, bytes[0]))
    else if bytes[0] == 0x2B then Some((1, 0x20))
    else Some((1, bytes[0]))
  }

  function DecodeBytes(bytes: seq<byte>): Option<seq<byte>>
    decreases |bytes|
  {
    if bytes == [] then Some([])
    else match DecodeOne(bytes)
      case None => None
      case Some((n, b)) => Then([b], DecodeBytes(bytes[n..]))
  }

  /** `None` when decoding fails altogether. */
  function Decoded(s: string): Option<string> {
    match DecodeBytes(Utf8.Encode(s))
    case None => None
    case Some(bytes) => Some(Utf8.Decode(bytes))
  }

  method PercentDecode(input: string) returns (result: Option<string>)
    ensures result == Decoded(input)
  {
    hide Utf8.Encode, Utf8.Decode;
    var bytes := Utf8.Encode(input);
    var out: seq<byte> := [];
    var i := 0;
    assert bytes[0..] == bytes;
    ThenNothing(DecodeBytes(bytes));
    while i < |bytes|
      invariant 0 <= i <= |bytes|
      invariant DecodeBytes(bytes) == Then(out, DecodeBytes(bytes[i..]))
    {
      var rest := bytes[i..];
      DecodeStep(out, rest);
      if bytes[i] == 0x25 && i + 2 < |bytes| {
        if CutsCharacter(rest) {
          return None;
        }
        match Radix16(bytes[i + 1], bytes[i + 2]) {
          case Some(b) =>
            out := out + [b];
            i := i + 3;
            assert rest[3..] == bytes[i..];
          case None =>
            out := out + [bytes[i]];
            i := i + 1;
            assert rest[1..] == bytes[i..];
        }
      } else if bytes[i] == 0x2B {
        out := out + [0x20];
        i := i + 1;
        assert rest[1..] == bytes[i..];
      } else {
        out := out + [bytes[i]];
        i := i + 1;
        assert rest[1..] == bytes[i..];
      }
    }
    assert out + [] == out;
    result := Some(Utf8.Decode(out));
  }

  lemma ThenNothing(tail: Option<seq<byte>>)
    ensures Then([], tail) == tail
  {
    if tail.Some? { assert [] + tail.value == tail.value; }
  }

  lemma DecodeStep(out: seq<byte>, rest: seq<byte>)
    requires rest != []
    ensures Then(out, DecodeBytes(rest))
            == if DecodeOne(rest).None? then None
               else Then(out + [DecodeOne(rest).value.1], DecodeBytes(rest[DecodeOne(rest).value.0..]))
  {
    hide DecodeOne;
    if DecodeOne(rest).Some? {
      var (n, b) := DecodeOne(rest).value;
      var tail := DecodeBytes(rest[n..]);
      if tail.Some? { assert out + ([b] + tail.value) == out + [b] + tail.value; }
    }
  }

  // ---------- the two are inverse ----------

  lemma HexOfDigits(b: byte)
    ensures Radix16(HexDigit(b / 16, true) as int, HexDigit(b % 16, true) as int) == Some(b)
  {
    ValueOfDigit(b / 16, true);
    ValueOfDigit(b % 16, true);
  }

  lemma EncodedByteIsPlain(b: byte, spaceAsPlus: bool)
    ensures forall c :: c in EncodeByte(b, spaceAsPlus) ==> IsUnreserved(c) || c == '%' || c == '+'
  {
  }

  /** What is encoded has no character that separates. */
  lemma {:induction false} EncodedIsPlain(bytes: seq<byte>, spaceAsPlus: bool)
    ensures forall c :: c in EncodeBytes(bytes, spaceAsPlus) ==> IsUnreserved(c) || c == '%' || c == '+'
  {
    if bytes != [] {
      hide EncodeByte, IsUnreserved;
      EncodedByteIsPlain(bytes[0], spaceAsPlus);
      EncodedIsPlain(bytes[1..], spaceAsPlus);
    }
  }

  lemma PlainIsAscii(s: string)
    requires forall c :: c in s ==> IsUnreserved(c) || c == '%' || c == '+'
    ensures Utf8.Ascii(s)
  {
  }

  lemma StoredByte(b: byte, spaceAsPlus: bool)
    ensures Utf8.Encode(EncodeByte(b, spaceAsPlus))
            == if b < 0x80 && IsUnreserved(b as char) then [b]
               else if b == 0x20 && spaceAsPlus then [0x2B]
               else [0x25, HexDigit(b / 16, true) as int, HexDigit(b % 16, true) as int]
  {
    hide Utf8.Encode, IsUnreserved;
    EncodedByteIsPlain(b, spaceAsPlus);
    PlainIsAscii(EncodeByte(b, spaceAsPlus));
    Utf8.EncodeAscii(EncodeByte(b, spaceAsPlus));
  }

  lemma DecodeEncodedByte(b: byte, spaceAsPlus: bool, rest: seq<byte>)
    requires rest == [] || rest[0] < 0x80
    ensures DecodeBytes(Utf8.Encode(EncodeByte(b, spaceAsPlus)) + rest) == Then([b], DecodeBytes(rest))
  {
    hide Utf8.Encode, Radix16, HexDigit;
    StoredByte(b, spaceAsPlus);
    HexOfDigits(b);
    HexIsAscii(b / 16);
    var stored := Utf8.Encode(EncodeByte(b, spaceAsPlus));
    assert (stored + rest)[|stored|..] == rest;
    if |stored| == 3 { assert |stored + rest| > 3 ==> (stored + rest)[3] == rest[0]; }
  }

  lemma HexIsAscii(n: nat)
    requires n < 16
    ensures HexDigit(n, true) < '\U{80}'
  {
  }

  lemma {:induction false} DecodeOfEncodeBytes(bytes: seq<byte>, spaceAsPlus: bool)
    ensures DecodeBytes(Utf8.Encode(EncodeBytes(bytes, spaceAsPlus))) == Some(bytes)
  {
    hide Utf8.Encode, DecodeBytes, EncodeByte, IsUnreserved;
    if bytes == [] {
      EmptyDecodes();
    } else {
      var tail := EncodeBytes(bytes[1..], spaceAsPlus);
      DecodeOfEncodeBytes(bytes[1..], spaceAsPlus);
      EncodedIsPlain(bytes[1..], spaceAsPlus);
      PlainIsAscii(tail);
      Utf8.EncodeAscii(tail);
      assert tail != "" ==> tail[0] in tail;
      DecodeEncodedByte(bytes[0], spaceAsPlus, Utf8.Encode(tail));
      Utf8.EncodeAppend(EncodeByte(bytes[0], spaceAsPlus), tail);
      assert [bytes[0]] + bytes[1..] == bytes;
    }
  }

  lemma EmptyDecodes()
    ensures DecodeBytes(Utf8.Encode("")) == Some([])
  {
  }

  /** Decoding what was encoded gives back every string, either way a space is
      written. */
  lemma DecodedOfEncoded(s: string, spaceAsPlus: bool)
    ensures Decoded(Encoded(s, spaceAsPlus)) == Some(s)
  {
    hide Utf8.Encode, Utf8.Decode, DecodeBytes, EncodeBytes;
    DecodeOfEncodeBytes(Utf8.Encode(s), spaceAsPlus);
    Utf8.DecodeOfEncode(s);
  }
}
