/** The number formats of stream ids: std::to_string and strtoull. */
module Decimals {
  import opened Keys

  predicate IsDigit(c: char) {
    '0' <= c <= '9'
  }

  function DigitOf(c: char): nat
    requires IsDigit(c)
  {
    c as int - '0' as int
  }

  /** std::to_string of an unsigned number. */
  function ToString(n: nat): (s: Bytes)
    ensures s != []
  {
    if n < 10 then [('0' as int + n) as char] else ToString(n / 10) + ToString(n % 10)
  }

  predicate IsSpace(c: char) {
    c == ' ' || 9 <= c as int <= 13
  }

  function SkipSpaces(s: Bytes): Bytes {
    if s != [] && IsSpace(s[0]) then SkipSpaces(s[1..]) else s
  }

  /** The longest prefix of digits. */
  function Digits(s: Bytes): (d: Bytes)
    ensures forall i :: 0 <= i < |d| ==> IsDigit(d[i])
  {
    if s != [] && IsDigit(s[0]) then [s[0]] + Digits(s[1..]) else []
  }

  function Number(d: Bytes): nat
    requires forall i :: 0 <= i < |d| ==> IsDigit(d[i])
  {
    if d == [] then 0 else 10 * Number(d[..|d|-1]) + DigitOf(d[|d|-1])
  }

  /**
   strtoull(s, _, 10): spaces, a sign, digits; too large a number gives the maximum, a minus sign
   negates modulo 2^64.
   */
  function ToNumber(s: Bytes): u64 {
    var t := SkipSpaces(s);
    var signed := t != [] && (t[0] == '-' || t[0] == '+');
    var n := Number(Digits(if signed then t[1..] else t));
    if n >= U64_LIMIT then U64_LIMIT - 1
    else if signed && t[0] == '-' && n > 0 then U64_LIMIT - n
    else n
  }

  lemma {:induction false} ToStringDigits(n: nat)
    ensures forall i :: 0 <= i < |ToString(n)| ==> IsDigit(ToString(n)[i])
    ensures Number(ToString(n)) == n
  {
    if n >= 10 {
      var a, b := ToString(n / 10), ToString(n % 10);
      ToStringDigits(n / 10);
      ToStringDigits(n % 10);
      assert |b| == 1 && ToString(n)[..|ToString(n)|-1] == a;
    } else {
      assert ToString(n)[..0] == [];
    }
  }

  lemma {:induction false} DigitsOf(d: Bytes, rest: Bytes)
    requires (forall i :: 0 <= i < |d| ==> IsDigit(d[i])) && (rest != [] ==> !IsDigit(rest[0]))
    ensures Digits(d + rest) == d
  {
    if d != [] {
      assert (d + rest)[1..] == d[1..] + rest;
      DigitsOf(d[1..], rest);
    } else {
      assert d + rest == rest;
    }
  }

  lemma {:induction false} SpacesOf(spaces: Bytes, rest: Bytes)
    requires (forall c :: c in spaces ==> IsSpace(c)) && (rest != [] ==> !IsSpace(rest[0]))
    ensures SkipSpaces(spaces + rest) == rest
  {
    if spaces == [] {
      assert spaces + rest == rest;
    } else {
      assert (spaces + rest)[1..] == spaces[1..] + rest;
      SpacesOf(spaces[1..], rest);
    }
  }

  /** strtoull skips spaces and takes a sign; it saturates, negates modulo 2^64, and stops after the digits. */
  lemma {:induction false} Reads(spaces: Bytes, sign: Bytes, d: Bytes, rest: Bytes)
    requires (forall c :: c in spaces ==> IsSpace(c)) && (sign == [] || sign == "-" || sign == "+") && d != []
    requires (forall i :: 0 <= i < |d| ==> IsDigit(d[i])) && (rest != [] ==> !IsDigit(rest[0]))
    ensures var n := Number(d);
      ToNumber(spaces + (sign + d + rest)) ==
        if n >= U64_LIMIT then U64_LIMIT - 1 else if sign == "-" then (U64_LIMIT - n) % U64_LIMIT else n
  {
    var t := sign + d + rest;
    assert t[0] == if sign == [] then d[0] else sign[0];
    SpacesOf(spaces, t);
    DigitsOf(d, rest);
    if sign != [] {
      assert t[1..] == d + rest;
    } else {
      assert t == d + rest;
    }
  }

  function Clamped(n: nat): u64 {
    if n < U64_LIMIT then n else U64_LIMIT - 1
  }

  lemma {:induction false} ReadsDigits(d: Bytes, rest: Bytes)
    requires d != [] && (forall i :: 0 <= i < |d| ==> IsDigit(d[i])) && (rest != [] ==> !IsDigit(rest[0]))
    ensures ToNumber(d + rest) == Clamped(Number(d))
  {
    Reads([], [], d, rest);
    hide ToNumber, Number;
    assert [] + ([] + d + rest) == d + rest;
  }

  /** Numerals are decimal, and those that are written have no zero in front. */
  lemma {:induction false} Decimal(d: Bytes, c: byte, n: nat)
    requires (forall i :: 0 <= i < |d| ==> IsDigit(d[i])) && IsDigit(c)
    ensures Number([]) == 0 && Number(d + [c]) == 10 * Number(d) + (c as int - 48)
    ensures n > 0 ==> ToString(n)[0] != '0'
    decreases n
  {
    assert (d + [c])[..|d|] == d;
    if n >= 10 { Decimal(d, c, n / 10); }
  }

  /** strtoull reads back what to_string wrote, whatever follows the digits. */
  lemma {:induction false} RoundTrip(n: u64, rest: Bytes)
    requires rest != [] ==> !IsDigit(rest[0])
    ensures ToNumber(ToString(n) + rest) == n
  {
    var d := ToString(n);
    ToStringDigits(n);
    DigitsOf(d, rest);
    assert (d + rest)[0] == d[0] && IsDigit(d[0]);
  }
}
