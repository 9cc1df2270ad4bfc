/** Numbers in base sixteen. */
module Hexadecimal {
  import opened Text

  /** One digit, its letters in upper or in lower case. */
  function HexDigit(n: nat, upper: bool): char
    requires n < 16
  {
    if n < 10 then ('0' as int + n) as char
    else if upper then ('A' as int + n - 10) as char
    else ('a' as int + n - 10) as char
  }

  /** The value of a character's code, in either case. */
  function HexValue(code: int): (r: Option<nat>)
    ensures r.Some? ==> r.value < 16
  {
    if 0x30 <= code <= 0x39 then Some(code - 0x30)
    else if 0x41 <= code <= 0x46 then Some(code - 0x41 + 10)
    else if 0x61 <= code <= 0x66 then Some(code - 0x61 + 10)
    else None
  }

  lemma ValueOfDigit(n: nat, upper: bool)
    requires n < 16
    ensures HexValue(HexDigit(n, upper) as int) == Some(n)
  {
  }

  /** `{:x}`. */
  function Hex(n: nat): string {
    if n < 16 then [HexDigit(n, false)] else Hex(n / 16) + [HexDigit(n % 16, false)]
  }

  /** `{:04x}` of what `Hex` prints. */
  function PadTo4(s: string): string
    decreases 4 - |s|
  {
    if |s| >= 4 then s else PadTo4("0" + s)
  }

  function DigitOr0(c: char): nat {
    match HexValue(c as int) case None => 0 case Some(n) => n
  }

  function Number(s: string): nat {
    if s == "" then 0 else Number(s[..|s| - 1]) * 16 + DigitOr0(s[|s| - 1])
  }

  lemma {:induction false} NumberOfHex(n: nat)
    ensures Number(Hex(n)) == n
  {
    hide HexDigit, HexValue;
    if n < 16 {
      ValueOfDigit(n, false);
      assert [HexDigit(n, false)][..0] == "";
    } else {
      ValueOfDigit(n % 16, false);
      NumberOfHex(n / 16);
      assert (Hex(n / 16) + [HexDigit(n % 16, false)])[..|Hex(n / 16)|] == Hex(n / 16);
    }
  }

  lemma {:induction false} LeadingZero(s: string)
    ensures Number("0" + s) == Number(s)
    decreases |s|
  {
    if s == "" {
      assert "0"[..0] == "";
      assert "0" + s == "0";
    } else {
      LeadingZero(s[..|s| - 1]);
      assert ("0" + s)[..|s|] == "0" + s[..|s| - 1];
    }
  }

  lemma {:induction false} NumberOfPadded(s: string)
    ensures Number(PadTo4(s)) == Number(s)
    decreases 4 - |s|
  {
    if |s| < 4 {
      NumberOfPadded("0" + s);
      LeadingZero(s);
    }
  }
}
