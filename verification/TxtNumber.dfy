/**
  Integers in the text dump: `%lld`/`%llu` on the way out, `strtoll`/`strtoull` with base 0
  on the way in, where a leading 0 means octal and 0x means hexadecimal.
 */
module TxtNumber {
  import opened Bytes
  import opened TxtHex

  const MINUS: byte := 45
  const PLUS: byte := 43
  const ZERO: byte := 48

  const TWO63: int := 0x8000_0000_0000_0000
  const TWO64: int := 0x1_0000_0000_0000_0000

  predicate IsInt64(z: int) { -TWO63 <= z < TWO63 }
  predicate IsUint64(z: int) { 0 <= z < TWO64 }

  /** `%llu` */
  function Decimal(n: nat): (s: seq<byte>)
    ensures s != []
  {
    if n < 10 then [48 + n] else Decimal(n / 10) + [48 + n % 10]
  }

  /** `%lld` */
  function SignedDecimal(z: int): (s: seq<byte>)
    ensures s != []
  {
    if z < 0 then [MINUS] + Decimal(-z) else Decimal(z)
  }

  /** The number of leading digits in the given base. */
  function Digits(s: seq<byte>, base: int): (d: nat)
    ensures d <= |s|
  {
    if s == [] || HexValue(s[0]) >= base || HexValue(s[0]) == 16 then 0 else 1 + Digits(s[1..], base)
  }

  /** The value of a digit string. */
  function Number(s: seq<byte>, base: nat): nat {
    if s == [] then 0 else Number(s[..|s| - 1], base) * base + HexValue(s[|s| - 1])
  }

  datatype Parsed = NoNumber | Parsed(neg: bool, magnitude: nat, used: nat)

  /** The digits after sign and white space: base from the prefix, then the longest run. */
  function ParseDigits(s: seq<byte>): (r: (nat, nat))
    ensures r.1 <= |s|
  {
    if |s| > 2 && s[0] == ZERO && (s[1] == 120 || s[1] == 88) && HexValue(s[2]) < 16 then
      var d := Digits(s[2..], 16);
      (Number(s[2..2 + d], 16), 2 + d)
    else
      var base := if s != [] && s[0] == ZERO then 8 else 10;
      var d := Digits(s, base);
      (Number(s[..d], base), d)
  }

  /** What `strtoll` and `strtoull` with base 0 read, before the range check. */
  function Parse(s: seq<byte>): (p: Parsed)
    ensures p.Parsed? ==> 0 < p.used <= |s|
  {
    var k := Lead(s);
    var signed := k < |s| && (s[k] == PLUS || s[k] == MINUS);
    var k' := if signed then k + 1 else k;
    var (v, d) := ParseDigits(s[k'..]);
    if d == 0 then NoNumber else Parsed(signed && s[k] == MINUS, v, k' + d)
  }

  datatype Conversion = BadNumber | Good(value: int, used: nat)

  /** `strtoll` followed by the checks of `Str2Value` */
  function ReadSigned(s: seq<byte>): (c: Conversion)
    ensures c.Good? ==> IsInt64(c.value) && 0 < c.used <= |s|
  {
    match Parse(s)
    case NoNumber => BadNumber
    case Parsed(neg, m, used) =>
      var z := if neg then 0 - m else m;
      if IsInt64(z) then Good(z, used) else BadNumber
  }

  /** `strtoull` followed by the checks of `Str2Value`; a minus sign negates modulo 2^64 */
  function ReadUnsigned(s: seq<byte>): (c: Conversion)
    ensures c.Good? ==> IsUint64(c.value) && 0 < c.used <= |s|
  {
    match Parse(s)
    case NoNumber => BadNumber
    case Parsed(neg, m, used) =>
      if m >= TWO64 then BadNumber else Good(if neg then (TWO64 - m) % TWO64 else m, used)
  }

  // ---------------------------------------------------------------- laws

  lemma {:induction false} DecimalDigits(n: nat)
    ensures forall c :: c in Decimal(n) ==> 48 <= c <= 57
    ensures n > 0 ==> Decimal(n)[0] != ZERO
    ensures n == 0 ==> Decimal(n) == [ZERO]
  {
    if n >= 10 {
      DecimalDigits(n / 10);
      assert Decimal(n)[0] == Decimal(n / 10)[0];
    }
  }

  lemma {:induction false} NumberDecimal(n: nat)
    ensures Number(Decimal(n), 10) == n
  {
    var s := Decimal(n);
    if n < 10 {
      assert Number(s[..0], 10) == 0;
    } else {
      NumberDecimal(n / 10);
      assert s[..|s| - 1] == Decimal(n / 10);
    }
  }

  lemma {:induction false} DigitsOfRun(s: seq<byte>, rest: seq<byte>, base: int)
    requires forall c :: c in s ==> 48 <= c <= 57 && c - 48 < base
    requires rest == [] || HexValue(rest[0]) == 16
    ensures Digits(s + rest, base) == |s|
  {
    if s == [] {
      assert s + rest == rest;
    } else {
      assert (s + rest)[1..] == s[1..] + rest && s[0] in s;
      assert forall c :: c in s[1..] ==> c in s;
      DigitsOfRun(s[1..], rest, base);
    }
  }

  /** Reading back a printed decimal, although base 0 could take it for octal. */
  lemma ParseDigitsDecimal(n: nat, rest: seq<byte>)
    requires rest == [] || (HexValue(rest[0]) == 16 && rest[0] != 120 && rest[0] != 88)
    ensures ParseDigits(Decimal(n) + rest) == (n, |Decimal(n)|)
  {
    hide Decimal, Digits, Number;
    var d := Decimal(n);
    DecimalDigits(n);
    NumberDecimal(n);
    assert (d + rest)[0] == d[0];
    assert (d + rest)[..|d|] == d;
    if n == 0 {
      DigitsOfRun(d, rest, 8);
      assert |rest| > 0 ==> (d + rest)[1] == rest[0];
      NumberOneDigit(ZERO, 8);
    } else {
      DigitsOfRun(d, rest, 10);
    }
  }

  lemma NumberOneDigit(c: byte, base: nat)
    ensures Number([c], base) == HexValue(c)
  {
    assert [c][..0] == [];
  }

  /** What is read back of a printed number, before the range check. */
  lemma ParsePrinted(z: int, rest: seq<byte>)
    requires rest == [] || rest[0] == TAB || rest[0] == NL || rest[0] == NUL
    ensures Parse(SignedDecimal(z) + rest) == Parsed(z < 0, if z < 0 then -z else z, |SignedDecimal(z)|)
  {
    hide Decimal, ParseDigits;
    var s := SignedDecimal(z) + rest;
    var m := if z < 0 then -z else z;
    ParseDigitsDecimal(m, rest);
    DecimalDigits(m);
    assert s[0] == if z < 0 then MINUS else Decimal(m)[0];
    assert Decimal(m)[0] in Decimal(m);
    assert Lead(s) == 0;
    if z < 0 {
      assert s[1..] == Decimal(m) + rest;
    } else {
      assert s[0..] == Decimal(m) + rest;
    }
  }

  lemma ReadSignedDecimal(z: int, rest: seq<byte>)
    requires IsInt64(z) && (rest == [] || rest[0] == TAB || rest[0] == NL || rest[0] == NUL)
    ensures ReadSigned(SignedDecimal(z) + rest) == Good(z, |SignedDecimal(z)|)
  {
    hide Parse, SignedDecimal;
    ParsePrinted(z, rest);
  }

  lemma ReadUnsignedDecimal(n: nat, rest: seq<byte>)
    requires IsUint64(n) && (rest == [] || rest[0] == TAB || rest[0] == NL || rest[0] == NUL)
    ensures ReadUnsigned(Decimal(n) + rest) == Good(n, |Decimal(n)|)
  {
    hide Parse, Decimal;
    ParsePrinted(n, rest);
  }

  /** A printed number is read back if it fits 64 bits and refused otherwise. */
  lemma RangeExactly(z: int, rest: seq<byte>)
    requires rest == [] || rest[0] == TAB || rest[0] == NL || rest[0] == NUL
    ensures ReadSigned(SignedDecimal(z) + rest) ==
      if -9223372036854775808 <= z <= 9223372036854775807 then Good(z, |SignedDecimal(z)|) else BadNumber
    ensures 0 <= z <= 18446744073709551615 ==> ReadUnsigned(SignedDecimal(z) + rest) == Good(z, |SignedDecimal(z)|)
    ensures z > 18446744073709551615 ==> ReadUnsigned(SignedDecimal(z) + rest) == BadNumber
  {
    hide Parse, SignedDecimal;
    ParsePrinted(z, rest);
  }

  /** `strtoull` takes a minus sign and negates modulo 2^64. */
  lemma UnsignedNegative(n: nat, rest: seq<byte>)
    requires 0 < n < TWO64 && (rest == [] || rest[0] == TAB || rest[0] == NL || rest[0] == NUL)
    ensures ReadUnsigned([45] + Decimal(n) + rest) == Good(18446744073709551616 - n, 1 + |Decimal(n)|)
  {
    hide Parse, Decimal;
    ParsePrinted(0 - n, rest);
  }

  // ---------------------------------------------------------------- the text itself

  /** Digits in their order, a minus sign in front of negative numbers only. */
  lemma DecimalTexts(n: nat, d: nat)
    requires d < 10
    ensures Decimal(d) == [48 + d] && (n > 0 ==> Decimal(10 * n + d) == Decimal(n) + [48 + d])
    ensures SignedDecimal(n) == Decimal(n) && (n > 0 ==> SignedDecimal(0 - n) == [45] + Decimal(n))
  {
    assert (10 * n + d) / 10 == n && (10 * n + d) % 10 == d;
  }

  /** The value of a digit string, one more digit at the end. */
  lemma NumberTexts(s: seq<byte>, base: nat, d: nat)
    requires d < 16
    ensures Number([], base) == 0
    ensures Number(s + [LOWER[d]], base) == Number(s + [UPPER[d]], base) == base * Number(s, base) + d
  {
    hide HexValue;
    DigitTable(d);
    assert (s + [LOWER[d]])[..|s|] == s && (s + [UPPER[d]])[..|s|] == s;
  }

  lemma {:induction false} DigitsAll(s: seq<byte>, rest: seq<byte>, base: int)
    requires 0 < base <= 16 && forall c :: c in s ==> HexValue(c) < base
    requires rest == [] || HexValue(rest[0]) >= base
    ensures Digits(s + rest, base) == |s|
  {
    hide HexValue;
    if s == [] {
      assert s + rest == rest;
    } else {
      assert (s + rest)[1..] == s[1..] + rest && s[0] in s;
      assert forall c :: c in s[1..] ==> c in s;
      DigitsAll(s[1..], rest, base);
    }
  }

  /** What cannot go on an octal number, nor make it hexadecimal. */
  predicate EndsOctal(rest: seq<byte>) {
    rest == [] || (HexValue(rest[0]) >= 8 && rest[0] != 120 && rest[0] != 88)
  }

  /** All bytes are digits in the base, and what follows is none. */
  predicate DigitsThen(s: seq<byte>, base: int, rest: seq<byte>) {
    s != [] && (forall c :: c in s ==> HexValue(c) < base) && (rest == [] || HexValue(rest[0]) >= base)
  }

  /** Behind 0x the digits are hexadecimal, behind any other 0 octal, and decimal otherwise. */
  lemma BasePrefixes(s: seq<byte>, rest: seq<byte>, x: byte)
    requires x == 120 || x == 88
    ensures DigitsThen(s, 16, rest) ==> ParseDigits([48, x] + s + rest) == (Number(s, 16), 2 + |s|)
    ensures DigitsThen(s, 8, rest) && s[0] == 48 && EndsOctal(rest) ==> ParseDigits(s + rest) == (Number(s, 8), |s|)
    ensures DigitsThen(s, 10, rest) && s[0] != 48 ==> ParseDigits(s + rest) == (Number(s, 10), |s|)
  {
    hide HexValue, ParseDigits, Number;
    if DigitsThen(s, 16, rest) {
      var all := [48, x] + (s + rest);
      assert [48, x] + s + rest == all && all[2..] == s + rest;
      HexFront(all, s, rest);
    }
    if DigitsThen(s, 8, rest) && EndsOctal(rest) {
      OctalFront(s, rest);
    }
    if DigitsThen(s, 10, rest) {
      DecimalFront(s, rest);
    }
  }

  lemma HexFront(all: seq<byte>, s: seq<byte>, rest: seq<byte>)
    requires |all| > 2 && all[0] == 48 && (all[1] == 120 || all[1] == 88) && all[2..] == s + rest
    requires DigitsThen(s, 16, rest)
    ensures ParseDigits(all) == (Number(s, 16), 2 + |s|)
  {
    hide Number, Digits, HexValue, ParseDigits;
    var tail := s + rest;
    DigitsAll(s, rest, 16);
    assert all[2] == all[2..][0] && tail[0] == s[0] && s[0] in s;
    HexTail(all);
    assert tail[..|s|] == s;
  }

  lemma HexTail(all: seq<byte>)
    requires |all| > 2 && all[0] == 48 && (all[1] == 120 || all[1] == 88) && HexValue(all[2]) < 16
    ensures var d := Digits(all[2..], 16); ParseDigits(all) == (Number(all[2..][..d], 16), 2 + d)
  {
    hide Number, Digits, HexValue;
    var d := Digits(all[2..], 16);
    assert all[2..2 + d] == all[2..][..d];
  }

  lemma OctalFront(s: seq<byte>, rest: seq<byte>)
    requires DigitsThen(s, 8, rest) && EndsOctal(rest)
    ensures s[0] == 48 ==> ParseDigits(s + rest) == (Number(s, 8), |s|)
  {
    hide Number, Digits;
    DigitsAll(s, rest, 8);
    assert (s + rest)[..|s|] == s && (s + rest)[0] == s[0];
    assert |s| > 1 ==> s[1] in s && (s + rest)[1] == s[1];
    assert |s| == 1 && rest != [] ==> (s + rest)[1] == rest[0];
  }

  lemma DecimalFront(s: seq<byte>, rest: seq<byte>)
    requires DigitsThen(s, 10, rest)
    ensures s[0] != 48 ==> ParseDigits(s + rest) == (Number(s, 10), |s|)
  {
    hide Number, Digits, HexValue;
    DigitsAll(s, rest, 10);
    assert (s + rest)[..|s|] == s && (s + rest)[0] == s[0];
  }

  /** White space in front is skipped. */
  lemma SpaceSkipped(c: byte, s: seq<byte>)
    requires c in {9, 10, 11, 12, 13, 32}
    ensures Parse([c] + s) ==
      match Parse(s)
      case NoNumber => NoNumber
      case Parsed(neg, m, used) => Parsed(neg, m, used + 1)
  {
    hide ParseDigits, Lead;
    var u, k := [c] + s, Lead(s);
    LeadSpace(c, s);
    assert k < |s| ==> u[1 + k] == s[k];
    assert u[1 + k..] == s[k..] && (k < |s| ==> u[2 + k..] == s[k + 1..]);
  }

  lemma LeadSpace(c: byte, s: seq<byte>)
    requires c in {9, 10, 11, 12, 13, 32}
    ensures Lead([c] + s) == 1 + Lead(s)
  {
    assert ([c] + s)[1..] == s;
  }

  /** A sign in front of the digits is taken, and none makes a number positive. */
  lemma SignTaken(s: seq<byte>)
    requires s != [] && 48 <= s[0] <= 57 && ParseDigits(s).1 > 0
    ensures Parse(s) == Parsed(false, ParseDigits(s).0, ParseDigits(s).1)
    ensures Parse([43] + s) == Parsed(false, ParseDigits(s).0, 1 + ParseDigits(s).1)
    ensures Parse([45] + s) == Parsed(true, ParseDigits(s).0, 1 + ParseDigits(s).1)
  {
    hide ParseDigits;
    assert Lead(s) == 0 && s[0..] == s;
    assert Lead([43] + s) == 0 && ([43] + s)[1..] == s;
    assert Lead([45] + s) == 0 && ([45] + s)[1..] == s;
  }

  lemma DecimalClean(z: int)
    ensures forall c :: c in SignedDecimal(z) ==> 45 <= c <= 57
  {
    DecimalDigits(if z < 0 then -z else z);
  }

  // ---------------------------------------------------------------- numbers stop before NUL

  lemma {:induction false} DigitsBeforeNul(s: seq<byte>, base: int, nul: nat)
    requires nul < |s| && s[nul] == NUL && base <= 16
    ensures Digits(s, base) <= nul
  {
    if nul > 0 && Digits(s, base) > 0 {
      DigitsBeforeNul(s[1..], base, nul - 1);
    }
  }

  /** A conversion never reads past the terminating NUL. */
  lemma ParseBeforeNul(s: seq<byte>, nul: nat)
    requires nul < |s| && s[nul] == NUL
    ensures Parse(s).Parsed? ==> Parse(s).used <= nul
  {
    ScanBeforeNul(s, nul);
    var k := Lead(s);
    var k' := if k < |s| && (s[k] == PLUS || s[k] == MINUS) then k + 1 else k;
    var r := s[k'..];
    assert r[nul - k'] == NUL;
    if |r| > 2 && r[0] == ZERO && (r[1] == 120 || r[1] == 88) && HexValue(r[2]) < 16 {
      assert HexValue(NUL) == 16 && r[2] != NUL;
      assert nul - k' != 0 && nul - k' != 1 && nul - k' != 2;
      assert r[2..][nul - k' - 2] == NUL;
      DigitsBeforeNul(r[2..], 16, nul - k' - 2);
    } else {
      DigitsBeforeNul(r, 8, nul - k');
      DigitsBeforeNul(r, 10, nul - k');
    }
  }
}
