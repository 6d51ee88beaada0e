/** Text renderings used by the registry: lowercase hexadecimal digits, the
    numerals that `format!` produces for a number (decimal for `{}`,
    lowercase hexadecimal for `{:x}`), and the byte-to-hex encoding that
    `hex::encode` produces.  Each encoder comes with its decoder and a
    round-trip lemma, which is what makes the derived storage keys injective. */
module Encoding {

  /** A byte, as Rust's `u8`. */
  type Byte = b: nat | b < 256

  /** True for the characters `0-9` and `a-f`. */
  predicate IsHexChar(c: char) {
    '0' <= c <= '9' || 'a' <= c <= 'f'
  }

  /** The lowercase digit for a value below sixteen. */
  function HexDigit(d: nat): (c: char)
    requires d < 16
    ensures IsHexChar(c)
    ensures DigitValue(c) == d
  {
    if d < 10 then (48 + d) as char else (87 + d) as char
  }

  /** The value of a lowercase hex digit (0 for any other character). */
  function DigitValue(c: char): (d: nat)
    ensures d < 16
  {
    if '0' <= c <= '9' then c as int - 48
    else if 'a' <= c <= 'f' then c as int - 87
    else 0
  }

  /** The numeral of `n` in `base`, most significant digit first, without
      leading zeros (zero is "0"): `format!("{}", n)` for base 10 and
      `format!("{:x}", n)` for base 16. */
  function Numeral(n: nat, base: nat): (s: string)
    requires 2 <= base <= 16
    ensures |s| > 0
    ensures forall i :: 0 <= i < |s| ==> IsHexChar(s[i])
    decreases n
  {
    if n < base then [HexDigit(n)]
    else Numeral(n / base, base) + [HexDigit(n % base)]
  }

  /** The number a numeral denotes (the inverse of `Numeral`). */
  function NumeralValue(s: string, base: nat): nat {
    if s == [] then 0
    else NumeralValue(s[..|s| - 1], base) * base + DigitValue(s[|s| - 1])
  }

  lemma {:induction false} NumeralRoundTrip(n: nat, base: nat)
    requires 2 <= base <= 16
    ensures NumeralValue(Numeral(n, base), base) == n
    decreases n
  {
    if n < base {
      NumeralValueSnoc([], HexDigit(n), base);
      assert Numeral(n, base) == [] + [HexDigit(n)];
    } else {
      var q, r := NumeralSplit(n, base);
      NumeralRoundTrip(q, base);
      NumeralValueSnoc(Numeral(q, base), HexDigit(r), base);
    }
  }

  /** A numeral of two or more digits is the numeral of the quotient
      followed by the digit of the remainder. */
  lemma NumeralSplit(n: nat, base: nat) returns (q: nat, r: nat)
    requires 2 <= base <= 16 && n >= base
    ensures q < n && r < base && q * base + r == n
    ensures Numeral(n, base) == Numeral(q, base) + [HexDigit(r)]
  {
    q, r := n / base, n % base;
  }

  /** Appending a digit multiplies the value by the base and adds the digit. */
  lemma NumeralValueSnoc(s: string, c: char, base: nat)
    ensures NumeralValue(s + [c], base) == NumeralValue(s, base) * base + DigitValue(c)
  {
    assert (s + [c])[..|s|] == s;
  }

  /** Two numbers have the same numeral only if they are equal. */
  lemma NumeralInjective(m: nat, n: nat, base: nat)
    requires 2 <= base <= 16
    ensures Numeral(m, base) == Numeral(n, base) ==> m == n
  {
    NumeralRoundTrip(m, base);
    NumeralRoundTrip(n, base);
  }

  /** `hex::encode`: two lowercase hex digits per byte, high nibble first. */
  function HexEncode(bytes: seq<Byte>): (s: string)
    ensures |s| == 2 * |bytes|
    ensures forall i :: 0 <= i < |s| ==> IsHexChar(s[i])
  {
    seq(2 * |bytes|, i requires 0 <= i < 2 * |bytes| =>
      if i % 2 == 0 then HexDigit(bytes[i / 2] / 16) else HexDigit(bytes[i / 2] % 16))
  }

  /** Reads a string of hex digit pairs back into bytes (a trailing odd
      digit is dropped). */
  function HexDecode(s: string): (bytes: seq<Byte>)
    ensures |bytes| == |s| / 2
  {
    seq(|s| / 2, i requires 0 <= i < |s| / 2 => DigitValue(s[2 * i]) * 16 + DigitValue(s[2 * i + 1]))
  }

  lemma HexRoundTrip(bytes: seq<Byte>)
    ensures HexDecode(HexEncode(bytes)) == bytes
  {
    var s := HexEncode(bytes);
    forall i | 0 <= i < |bytes| ensures HexDecode(s)[i] == bytes[i] {
      assert s[2 * i] == HexDigit(bytes[i] / 16);
      assert s[2 * i + 1] == HexDigit(bytes[i] % 16);
    }
  }
}
