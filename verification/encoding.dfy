/**
 * The text pieces of a block's hash string: decimal numerals (Rust's
 * `to_string` on unsigned integers), lowercase two-digit hex bytes (the
 * `{:02x}` format) and splitting at a separator, each with the decoder that
 * undoes it.
 */
module Encoding {
  import opened Ints
  import opened Optional

  const SEPARATOR: char := ':'

  predicate IsDigit(c: char)
  {
    '0' as int <= c as int <= '9' as int
  }

  function DigitChar(n: nat): (c: char)
    requires n < 10
    ensures IsDigit(c) && c as int - '0' as int == n
  {
    ('0' as int + n) as char
  }

  /** The decimal numeral of `n`, as `to_string` prints it. */
  function Decimal(n: nat): string
  {
    if n < 10 then [DigitChar(n)] else Decimal(n / 10) + [DigitChar(n % 10)]
  }

  /** The numeral is a non-empty string of digits with no leading zero. */
  lemma {:induction false} DecimalShape(n: nat)
    ensures |Decimal(n)| > 0
    ensures forall i | 0 <= i < |Decimal(n)| :: IsDigit(Decimal(n)[i])
    ensures Decimal(n)[0] == '0' <==> n == 0
    ensures SEPARATOR !in Decimal(n)
  {
    if n >= 10 {
      DecimalShape(n / 10);
    }
  }

  /** The value of a string of decimal digits, most significant first. */
  function DigitsValue(s: string): nat
    requires forall i | 0 <= i < |s| :: IsDigit(s[i])
  {
    if |s| == 0 then 0
    else
      assert IsDigit(s[|s| - 1]);
      DigitsValue(s[..|s| - 1]) * 10 + (s[|s| - 1] as int - '0' as int)
  }

  /** Reads a non-empty string of decimal digits; anything else is rejected. */
  function ParseDecimal(s: string): Option<nat>
  {
    if |s| > 0 && forall i | 0 <= i < |s| :: IsDigit(s[i]) then Some(DigitsValue(s)) else None
  }

  lemma {:induction false} DecimalRoundTrip(n: nat)
    ensures ParseDecimal(Decimal(n)) == Some(n)
  {
    var s := Decimal(n);
    DecimalShape(n);
    if n >= 10 {
      DecimalRoundTrip(n / 10);
      assert s[..|s| - 1] == Decimal(n / 10);
      assert DigitsValue(s) == (n / 10) * 10 + n % 10;
    }
  }

  /** A string of digits that does not start with 0 has a positive value. */
  lemma {:induction false} LeadingDigitPositive(s: string)
    requires |s| > 0 && s[0] != '0'
    requires forall i | 0 <= i < |s| :: IsDigit(s[i])
    ensures DigitsValue(s) > 0
  {
    if |s| > 1 {
      var init := s[..|s| - 1];
      assert init[0] == s[0];
      LeadingDigitPositive(init);
    }
  }

  /**
   * The converse of the round trip: a numeral without a leading zero that
   * the decoder accepts is exactly the `to_string` numeral of its value.
   */
  lemma {:induction false} ParseDecimalCanonical(s: string, n: nat)
    requires ParseDecimal(s) == Some(n)
    requires |s| == 1 || s[0] != '0'
    ensures Decimal(n) == s
  {
    assert IsDigit(s[|s| - 1]);
    var d := s[|s| - 1] as int - '0' as int;
    if |s| == 1 {
      assert DigitsValue(s[..0]) == 0;
      assert n == d;
      assert DigitChar(n) == s[0];
    } else {
      var init := s[..|s| - 1];
      assert init[0] == s[0];
      assert forall i | 0 <= i < |init| :: init[i] == s[i];
      var v := DigitsValue(init);
      assert ParseDecimal(init) == Some(v);
      ParseDecimalCanonical(init, v);
      LeadingDigitPositive(init);
      assert n == v * 10 + d;
      assert n / 10 == v && n % 10 == d;
      assert DigitChar(d) == s[|s| - 1];
      assert s == init + [s[|s| - 1]];
    }
  }

  /** Lowercase hexadecimal digit of a nibble. */
  function HexDigit(v: nat): char
    requires v < 16
  {
    if v < 10 then ('0' as int + v) as char else ('a' as int + (v - 10)) as char
  }

  /** The nibble a lowercase hexadecimal digit stands for. */
  function HexValue(c: char): (r: Option<nat>)
    ensures r.Some? ==> r.value < 16
  {
    if '0' <= c <= '9' then Some(c as int - '0' as int)
    else if 'a' <= c <= 'f' then Some(c as int - 'a' as int + 10)
    else None
  }

  lemma HexDigitValue(v: nat)
    requires v < 16
    ensures HexValue(HexDigit(v)) == Some(v)
    ensures HexDigit(v) != SEPARATOR
  {
  }

  /** Two hex digits per byte, high nibble first, each byte zero-padded to width two. */
  function Hex(bytes: seq<u8>): string
  {
    if |bytes| == 0 then []
    else [HexDigit(bytes[0] / 16), HexDigit(bytes[0] % 16)] + Hex(bytes[1..])
  }

  /** Two characters per byte, none of them a separator. */
  lemma {:induction false} HexShape(bytes: seq<u8>)
    ensures |Hex(bytes)| == 2 * |bytes|
    ensures SEPARATOR !in Hex(bytes)
  {
    if |bytes| > 0 {
      HexShape(bytes[1..]);
      HexDigitValue(bytes[0] / 16);
      HexDigitValue(bytes[0] % 16);
    }
  }

  /** Reads pairs of lowercase hex digits back into bytes. */
  function ParseHex(s: string): (r: Option<seq<u8>>)
    ensures r.Some? ==> 2 * |r.value| == |s|
  {
    if |s| == 0 then Some([])
    else if |s| == 1 then None
    else
      var high :- HexValue(s[0]);
      var low :- HexValue(s[1]);
      var rest :- ParseHex(s[2..]);
      Some([high * 16 + low] + rest)
  }

  lemma {:induction false} HexRoundTrip(bytes: seq<u8>)
    ensures ParseHex(Hex(bytes)) == Some(bytes)
  {
    if |bytes| > 0 {
      var s := Hex(bytes);
      HexShape(bytes[1..]);
      HexDigitValue(bytes[0] / 16);
      HexDigitValue(bytes[0] % 16);
      assert s[2..] == Hex(bytes[1..]);
      HexRoundTrip(bytes[1..]);
      assert bytes == [bytes[0] / 16 * 16 + bytes[0] % 16] + bytes[1..];
    }
  }

  /** Position of the first occurrence of `c` in `s`. */
  function FirstIndexOf(s: string, c: char): (r: Option<nat>)
    ensures r.Some? ==> r.value < |s| && s[r.value] == c && c !in s[..r.value]
    ensures r.None? ==> c !in s
  {
    if |s| == 0 then None
    else if s[0] == c then Some(0)
    else
      match FirstIndexOf(s[1..], c)
      case None => None
      case Some(i) => Some(i + 1)
  }

  /** Position of the last occurrence of `c` in `s`. */
  function LastIndexOf(s: string, c: char): (r: Option<nat>)
    ensures r.Some? ==> r.value < |s| && s[r.value] == c && c !in s[r.value + 1..]
    ensures r.None? ==> c !in s
  {
    if |s| == 0 then None
    else if s[|s| - 1] == c then Some(|s| - 1)
    else LastIndexOf(s[..|s| - 1], c)
  }

  /** `head` and `tail` with a separator between them. */
  function Joined(head: string, tail: string): string
  {
    head + [SEPARATOR] + tail
  }

  /** Splits at the first separator. */
  function SplitFirst(s: string): (r: Option<(string, string)>)
    ensures r.Some? ==> SEPARATOR !in r.value.0 && Joined(r.value.0, r.value.1) == s
    ensures r.None? ==> SEPARATOR !in s
  {
    var i :- FirstIndexOf(s, SEPARATOR);
    assert s == s[..i] + [SEPARATOR] + s[i + 1..];
    Some((s[..i], s[i + 1..]))
  }

  /** Splits at the last separator. */
  function SplitLast(s: string): (r: Option<(string, string)>)
    ensures r.Some? ==> SEPARATOR !in r.value.1 && Joined(r.value.0, r.value.1) == s
    ensures r.None? ==> SEPARATOR !in s
  {
    var i :- LastIndexOf(s, SEPARATOR);
    assert s == s[..i] + [SEPARATOR] + s[i + 1..];
    Some((s[..i], s[i + 1..]))
  }

  /** A separator-free head is recovered by splitting at the first separator. */
  lemma SplitFirstJoined(head: string, tail: string)
    requires SEPARATOR !in head
    ensures SplitFirst(Joined(head, tail)) == Some((head, tail))
  {
    var s := Joined(head, tail);
    assert s[|head|] == SEPARATOR;
    var i := FirstIndexOf(s, SEPARATOR).value;
    assert s[..|head|] == head;
    assert s[|head| + 1..] == tail;
  }

  /** A separator-free tail is recovered by splitting at the last separator. */
  lemma SplitLastJoined(head: string, tail: string)
    requires SEPARATOR !in tail
    ensures SplitLast(Joined(head, tail)) == Some((head, tail))
  {
    var s := Joined(head, tail);
    assert s[|head|] == SEPARATOR;
    var i := LastIndexOf(s, SEPARATOR).value;
    assert s[..|head|] == head;
    assert s[|head| + 1..] == tail;
  }
}
