/** Decimal numerals as the C library reads them (`sscanf("%ld")`, `atoi`), without overflow. */
module Numerals {
  import opened Texts

  type Digit = d: nat | d < 10

  predicate IsSpace(c: char) { c == ' ' || '\t' <= c <= '\r' }
  predicate IsDigit(c: char) { '0' <= c <= '9' }

  function DigitChar(d: Digit): (c: char)
    ensures c as int == 0x30 + d && IsDigit(c)
  {
    "0123456789"[d]
  }

  function SkipSpace(a: Text): Text {
    if a != [] && IsSpace(a[0]) then SkipSpace(a[1..]) else a
  }

  /** The value of the digits at the front of a, continued from acc. */
  function LeadingDigits(a: Text, acc: nat): nat {
    if a != [] && IsDigit(a[0]) then LeadingDigits(a[1..], 10 * acc + (a[0] as int - '0' as int)) else acc
  }

  /** Spaces, an optional sign, at least one digit; whatever follows is ignored. */
  function ParseLong(a: Text): Option<int> {
    var b := SkipSpace(a);
    var signed := b != [] && (b[0] == '-' || b[0] == '+');
    var digits := if signed then b[1..] else b;
    if digits == [] || !IsDigit(digits[0]) then None
    else
      var value: int := LeadingDigits(digits, 0);
      Some(if signed && b[0] == '-' then -value else value)
  }

  // ----- Printing -----

  function Decimal(n: nat): (r: Text)
    ensures |r| >= 1 && forall c <- r :: IsDigit(c)
  {
    if n < 10 then [DigitChar(n)] else Decimal(n / 10) + [DigitChar(n % 10)]
  }

  lemma {:induction false} LeadingDigitsAppend(a: Text, d: Digit, acc: nat)
    requires forall c <- a :: IsDigit(c)
    ensures LeadingDigits(a + [DigitChar(d)], acc) == 10 * LeadingDigits(a, acc) + d
    decreases |a|
  {
    var t := a + [DigitChar(d)];
    if a == [] {
      assert t[1..] == [];
    } else {
      assert t[1..] == a[1..] + [DigitChar(d)] && t[0] == a[0] && a[0] in a;
      LeadingDigitsAppend(a[1..], d, 10 * acc + (a[0] as int - '0' as int));
    }
  }

  lemma {:induction false} DecimalValue(n: nat)
    ensures LeadingDigits(Decimal(n), 0) == n
  {
    if n < 10 {
      LeadingDigitsAppend([], n, 0);
      assert [] + [DigitChar(n)] == Decimal(n);
    } else {
      DecimalValue(n / 10);
      LeadingDigitsAppend(Decimal(n / 10), n % 10, 0);
    }
  }

  /** Reading undoes printing. */
  lemma ParseDecimal(n: nat)
    ensures ParseLong(Decimal(n)) == Some(n)
  {
    DecimalValue(n);
    assert Decimal(n)[0] in Decimal(n);
  }

  // ----- Reading in general -----

  /** The characters 9 to 13 and 32. */
  predicate Blank(sp: Text) {
    forall i :: 0 <= i < |sp| ==> sp[i] as int == 32 || 9 <= sp[i] as int <= 13
  }

  /** Does not go on with a character from `0` to `9`. */
  predicate EndsNumber(rest: Text) {
    rest == [] || rest[0] as int < 0x30 || rest[0] as int > 0x39
  }

  lemma {:induction false} SkipsBlanks(sp: Text, t: Text)
    requires Blank(sp) && (t == [] || !IsSpace(t[0]))
    ensures SkipSpace(sp + t) == t
    decreases |sp|
  {
    if sp == [] {
      assert sp + t == t;
    } else {
      assert (sp + t)[1..] == sp[1..] + t;
      SkipsBlanks(sp[1..], t);
    }
  }

  lemma {:induction false} DigitsStopAt(digits: Text, rest: Text, acc: nat)
    requires (forall c <- digits :: IsDigit(c)) && EndsNumber(rest)
    ensures LeadingDigits(digits + rest, acc) == LeadingDigits(digits, acc)
    decreases |digits|
  {
    if digits == [] {
      assert digits + rest == rest;
    } else {
      assert (digits + rest)[1..] == digits[1..] + rest && digits[0] in digits;
      DigitsStopAt(digits[1..], rest, 10 * acc + (digits[0] as int - '0' as int));
    }
  }

  predicate Sign(s: Text) { s == [] || s == "+" || s == "-" }

  function Signed(sign: Text, n: nat): int {
    var v: int := n;
    if sign == "-" then -v else v
  }

  /** Blanks, a sign or none, a printed number, and anything that does not go on with a digit: that
      number is read. */
  lemma ParseSigned(sp: Text, sign: Text, n: nat, rest: Text)
    requires Blank(sp) && Sign(sign) && EndsNumber(rest)
    ensures ParseLong(sp + sign + Decimal(n) + rest) == Some(Signed(sign, n))
  {
    hide LeadingDigits, SkipSpace, Decimal;
    var digits, tail := Decimal(n) + rest, sign + (Decimal(n) + rest);
    assert IsDigit(Decimal(n)[0]) && digits[0] == Decimal(n)[0];
    assert sp + sign + Decimal(n) + rest == sp + tail;
    SkipsBlanks(sp, tail);
    assert sign != [] ==> tail[1..] == digits;
    assert sign == [] ==> tail == digits;
    DigitsStopAt(Decimal(n), rest, 0);
    DecimalValue(n);
  }

  /** Without a digit there, nothing is read. */
  lemma ParseNothing(sp: Text, sign: Text, rest: Text)
    requires Blank(sp) && Sign(sign) && EndsNumber(rest)
    requires sign == [] && rest != [] ==> !Blank(rest[..1]) && rest[0] != '+' && rest[0] != '-'
    ensures ParseLong(sp + sign + rest) == None
  {
    hide LeadingDigits, SkipSpace;
    assert sp + sign + rest == sp + (sign + rest);
    SkipsBlanks(sp, sign + rest);
    assert sign != [] ==> (sign + rest)[1..] == rest;
    assert sign == [] ==> sign + rest == rest;
  }
}
