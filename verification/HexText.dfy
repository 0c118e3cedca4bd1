/** The text form of LoRa fields: fixed-width hexadecimal, printed in upper case and parsed in either case. */
module HexText {
  import opened Wrappers

  const U64: nat := 0x1_0000_0000_0000_0000

  datatype ParseError = LengthMismatch(found: nat, expected: nat) | ParseInt

  function Digit(d: nat): char
    requires d < 16
  {
    if d < 10 then '0' + d as char else 'A' + (d - 10) as char
  }

  function DigitValue(c: char): Option<nat> {
    if '0' <= c <= '9' then Some((c - '0') as nat)
    else if 'A' <= c <= 'F' then Some((c - 'A') as nat + 10)
    else if 'a' <= c <= 'f' then Some((c - 'a') as nat + 10)
    else None
  }

  function Hex(v: nat): (s: string)
    ensures s != ""
  {
    if v < 16 then [Digit(v)] else Hex(v / 16) + [Digit(v % 16)]
  }

  function Zeros(n: nat): string {
    seq(n, _ => '0')
  }

  /** `Display`: hexadecimal, padded with zeros on the left up to the width and never cut. */
  function Print(width: nat, v: nat): string {
    Zeros(if |Hex(v)| <= width then width - |Hex(v)| else 0) + Hex(v)
  }

  /** The digits of a number; `u64::from_str_radix` fails on the first bad digit or when 64 bits overflow. */
  function ParseDigits(s: string): Result<nat, ParseError> {
    if s == "" then Ok(0)
    else
      match (ParseDigits(s[..|s| - 1]), DigitValue(s[|s| - 1]))
      case (Ok(high), Some(low)) => if 16 * high + low < U64 then Ok(16 * high + low) else Err(ParseInt)
      case _ => Err(ParseInt)
  }

  /** `u64::from_str_radix`: at least one digit, after an optional plus sign. */
  function FromStrRadix(s: string): Result<nat, ParseError> {
    if s == "" || s == "+" || s == "-" then Err(ParseInt)
    else if s[0] == '+' then ParseDigits(s[1..])
    else ParseDigits(s)
  }

  /** `FromStr`: a star is zero, and anything else must have exactly the field's width. */
  function Parse(width: nat, s: string): Result<nat, ParseError> {
    if s == "*" then Ok(0)
    else if |s| != width then Err(LengthMismatch(|s|, width))
    else FromStrRadix(s)
  }

  function Pow16(n: nat): (r: nat)
    ensures 0 < r
  {
    if n == 0 then 1 else 16 * Pow16(n - 1)
  }

  lemma DigitRoundTrip(d: nat)
    requires d < 16
    ensures DigitValue(Digit(d)) == Some(d)
  {}

  lemma {:induction false} HexParses(v: nat)
    requires v < U64
    ensures ParseDigits(Hex(v)) == Ok(v)
  {
    DigitRoundTrip(v % 16);
    if 16 <= v {
      HexParses(v / 16);
      assert Hex(v)[..|Hex(v)| - 1] == Hex(v / 16);
    } else {
      assert Hex(v)[..0] == "";
    }
  }

  lemma {:induction false} ZerosParse(n: nat, s: string)
    ensures ParseDigits(Zeros(n) + s) == ParseDigits(s)
    decreases n + |s|
  {
    if s == "" {
      if n != 0 {
        ZerosParse(n - 1, "");
        assert (Zeros(n) + s)[..n - 1] == Zeros(n - 1) + "";
      }
    } else {
      ZerosParse(n, s[..|s| - 1]);
      assert (Zeros(n) + s)[..n + |s| - 1] == Zeros(n) + s[..|s| - 1];
    }
  }

  /** A number prints within n digits exactly when it is below 16^n. */
  lemma {:induction false} HexLength(v: nat, n: nat)
    requires 1 <= n
    ensures |Hex(v)| <= n <==> v < Pow16(n)
    decreases n
  {
    if n == 1 {
      assert Pow16(1) == 16;
    } else if 16 <= v {
      HexLength(v / 16, n - 1);
    } else {
      Pow16AtLeast(n);
    }
  }

  lemma {:induction false} Pow16AtLeast(n: nat)
    requires 1 <= n
    ensures 16 <= Pow16(n)
  {
    if 1 < n { Pow16AtLeast(n - 1); }
  }

  lemma HexHasNoSign(v: nat)
    ensures Hex(v)[0] != '+' && Hex(v)[0] != '-' && Hex(v)[0] != '*'
  {
    if 16 <= v { HexHasNoSign(v / 16); }
  }

  /** Every value that fits the width prints to exactly that width and parses back to itself. */
  lemma PrintParse(width: nat, v: nat)
    requires 1 <= width && v < U64 && v < Pow16(width)
    ensures |Print(width, v)| == width && Parse(width, Print(width, v)) == Ok(v)
  {
    HexLength(v, width);
    HexHasNoSign(v);
    HexParses(v);
    var pad := width - |Hex(v)|;
    ZerosParse(pad, Hex(v));
    var s := Print(width, v);
    assert s == Zeros(pad) + Hex(v);
    assert s[0] == if pad == 0 then Hex(v)[0] else '0';
    assert s[0] != '+' && s[0] != '-' && s[0] != '*';
  }

  /** Every larger value prints to text that the parser rejects. */
  lemma PrintTooWide(width: nat, v: nat)
    requires 1 <= width && Pow16(width) <= v
    ensures Print(width, v) == Hex(v) && Parse(width, Print(width, v)) == Err(LengthMismatch(|Hex(v)|, width))
  {
    HexLength(v, width);
    assert Print(width, v) == Hex(v);
  }
}
