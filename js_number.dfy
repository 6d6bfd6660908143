/** The global `parseInt` (section 19.2.5 of ECMA-262) called without a radix, and the decimal
    rendering of an integral Number (Number::toString, section 6.1.6.1.20 of ECMA-262) that a
    template literal uses. A `None` result stands for NaN. */
module JsNumber {
  import opened Wrappers

  /** WhiteSpace (section 12.2 of ECMA-262): TAB, VT, FF, ZWNBSP and every Space_Separator (Zs). */
  predicate IsWhiteSpace(c: char) {
    var k := c as int;
    k == 0x09 || k == 0x0B || k == 0x0C || k == 0xFEFF ||
    k == 0x20 || k == 0xA0 || k == 0x1680 || (0x2000 <= k <= 0x200A) ||
    k == 0x202F || k == 0x205F || k == 0x3000
  }

  /** LineTerminator (section 12.3 of ECMA-262): LF, CR, LS and PS. */
  predicate IsLineTerminator(c: char) {
    var k := c as int;
    k == 0x0A || k == 0x0D || k == 0x2028 || k == 0x2029
  }

  /** The characters that TrimString strips. */
  predicate IsStrWhiteSpaceChar(c: char) {
    IsWhiteSpace(c) || IsLineTerminator(c)
  }

  /** TrimString(s, start): drops the longest all-whitespace prefix. */
  function TrimStart(s: string): (r: string)
    ensures |r| <= |s| && r == s[|s| - |r|..]
    ensures forall i :: 0 <= i < |s| - |r| ==> IsStrWhiteSpaceChar(s[i])
    ensures r == [] || !IsStrWhiteSpaceChar(r[0])
  {
    if s != [] && IsStrWhiteSpaceChar(s[0]) then
      var r := TrimStart(s[1..]);
      assert forall i :: 1 <= i < |s| - |r| ==> s[i] == s[1..][i - 1];
      r
    else s
  }

  /** The value of `c` as a digit in radix up to 36, or 36 when `c` is no such digit. */
  function DigitValue(c: char): (d: nat)
    ensures d <= 36
    ensures d < 10 <==> '0' <= c <= '9'
  {
    if '0' <= c <= '9' then c as int - '0' as int
    else if 'a' <= c <= 'z' then c as int - 'a' as int + 10
    else if 'A' <= c <= 'Z' then c as int - 'A' as int + 10
    else 36
  }

  /** Length of the longest prefix of `s` made of radix-`radix` digits. */
  function DigitRun(s: string, radix: nat): (n: nat)
    ensures n <= |s|
    ensures forall i :: 0 <= i < n ==> DigitValue(s[i]) < radix
    ensures n == |s| || DigitValue(s[n]) >= radix
  {
    if s == [] || DigitValue(s[0]) >= radix then 0 else 1 + DigitRun(s[1..], radix)
  }

  /** The mathematical value of a digit string in the given radix, most significant digit first. */
  function ValueOf(digits: string, radix: nat): nat {
    if digits == [] then 0
    else ValueOf(digits[..|digits| - 1], radix) * radix + DigitValue(digits[|digits| - 1])
  }

  /** A digit prefix read in the given radix, or NaN when there is none (steps 11 to 14). */
  function ParseDigits(z: string, radix: nat): Option<nat> {
    var end := DigitRun(z, radix);
    if end == 0 then None else Some(ValueOf(z[..end], radix))
  }

  /** Step 10: the numeral starts with `0x` or `0X`. */
  predicate HasHexPrefix(u: string) {
    |u| >= 2 && u[0] == '0' && (u[1] == 'x' || u[1] == 'X')
  }

  /** Steps 10 to 14: a leading `0x` or `0X` switches to radix 16 and is skipped. */
  function ParseUnsigned(u: string): Option<nat> {
    var hex := HasHexPrefix(u);
    ParseDigits(if hex then u[2..] else u, if hex then 16 else 10)
  }

  /** Steps 3 to 16 on a string without leading whitespace: an optional sign, then the digits. */
  function ParseSigned(t: string): Option<int> {
    var sign := if t != [] && t[0] == '-' then -1 else 1;
    var u := if t != [] && (t[0] == '+' || t[0] == '-') then t[1..] else t;
    match ParseUnsigned(u)
    case None => None
    case Some(v) => Some(sign * v)
  }

  /** `parseInt(s)`: skip leading whitespace, take an optional sign, switch to radix 16 after
      `0x`/`0X`, and read the longest digit prefix; no digit at all gives NaN. */
  function ParseInt(s: string): Option<int> {
    ParseSigned(TrimStart(s))
  }

  /** The decimal digits of `n`, without leading zeros. */
  function Decimal(n: nat): (s: string)
    ensures |s| >= 1
    ensures forall i :: 0 <= i < |s| ==> '0' <= s[i] <= '9'
    ensures n > 0 ==> s[0] != '0'
  {
    if n < 10 then [('0' as int + n) as char]
    else Decimal(n / 10) + [('0' as int + n % 10) as char]
  }

  /** The string a template literal gives for an integral Number. */
  function NumberToString(n: int): string {
    (if n < 0 then "-" else "") + Decimal(if n < 0 then -n else n)
  }

  lemma {:induction false} ValueOfDecimal(n: nat)
    ensures ValueOf(Decimal(n), 10) == n
  {
    var s := Decimal(n);
    if n < 10 {
      assert s[..0] == [];
    } else {
      assert s[..|s| - 1] == Decimal(n / 10);
      ValueOfDecimal(n / 10);
    }
  }

  /** A string with no leading whitespace is left alone by TrimStart. */
  lemma TrimStartNoLeadingSpace(s: string)
    requires s == [] || !IsStrWhiteSpaceChar(s[0])
    ensures TrimStart(s) == s
  {
  }

  lemma {:induction false} TrimStartAfterWhitespace(w: string, s: string)
    requires forall i :: 0 <= i < |w| ==> IsStrWhiteSpaceChar(w[i])
    ensures TrimStart(w + s) == TrimStart(s)
  {
    if w == [] {
      assert w + s == s;
    } else {
      assert (w + s)[0] == w[0];
      assert (w + s)[1..] == w[1..] + s;
      TrimStartAfterWhitespace(w[1..], s);
    }
  }

  /** Leading whitespace never changes what `parseInt` reads. */
  lemma ParseIntSkipsWhitespace(w: string, s: string)
    requires forall i :: 0 <= i < |w| ==> IsStrWhiteSpaceChar(w[i])
    ensures ParseInt(w + s) == ParseInt(s)
  {
    TrimStartAfterWhitespace(w, s);
  }

  /** The digit run of a decimal numeral followed by a non-digit is exactly the numeral. */
  lemma ParseDigitsOfDecimal(n: nat, rest: string)
    requires rest == [] || DigitValue(rest[0]) >= 10
    ensures ParseDigits(Decimal(n) + rest, 10) == Some(n)
  {
    var d := Decimal(n);
    var s := d + rest;
    assert forall i :: 0 <= i < |d| ==> s[i] == d[i] && DigitValue(d[i]) < 10;
    assert |d| < |s| ==> s[|d|] == rest[0];
    assert DigitRun(s, 10) == |d|;
    assert s[..|d|] == d;
    ValueOfDecimal(n);
  }

  lemma ParseUnsignedOfDecimal(n: nat, rest: string)
    requires rest == [] || DigitValue(rest[0]) >= 10
    requires n == 0 ==> rest == [] || (rest[0] != 'x' && rest[0] != 'X')
    ensures ParseUnsigned(Decimal(n) + rest) == Some(n)
  {
    NoHexPrefixInDecimal(n, rest);
    ParseDigitsOfDecimal(n, rest);
  }

  lemma NoHexPrefixInDecimal(n: nat, rest: string)
    requires n == 0 ==> rest == [] || (rest[0] != 'x' && rest[0] != 'X')
    ensures !HasHexPrefix(Decimal(n) + rest)
  {
    var d := Decimal(n);
    var u := d + rest;
    assert u[0] == d[0];
    if |u| >= 2 && u[0] == '0' {
      assert n == 0 && |d| == 1;
      assert u[1] == rest[0];
    }
  }

  /** Round trip: `parseInt` reads back any integer rendered in decimal, even when other text
      follows, provided that text does not start with a digit (nor, after a bare `0`, with the
      `x` of a hexadecimal prefix). */
  lemma ParseIntNumberToString(n: int, rest: string)
    requires rest == [] || DigitValue(rest[0]) >= 10
    requires n == 0 ==> rest == [] || (rest[0] != 'x' && rest[0] != 'X')
    ensures ParseInt(NumberToString(n) + rest) == Some(n)
  {
    if n < 0 {
      ParseIntNegativeNumber(n, rest);
    } else {
      assert NumberToString(n) == Decimal(n);
      ParseIntDecimal(n, rest);
    }
  }

  lemma ParseIntNegativeNumber(n: int, rest: string)
    requires n < 0
    requires rest == [] || DigitValue(rest[0]) >= 10
    ensures ParseInt(NumberToString(n) + rest) == Some(n)
  {
    var m: nat := -n;
    var s := NumberToString(n) + rest;
    var u := Decimal(m) + rest;
    SplitMinus(n, rest);
    assert s[0] == '-' && s[1..] == u;
    ParseUnsignedOfDecimal(m, rest);
    assert ParseUnsigned(u) == Some(m);
    ParseIntMinus(s, u, m);
    assert ParseInt(s) == Some(-(m as int));
  }

  lemma SplitMinus(n: int, rest: string)
    requires n < 0
    ensures (NumberToString(n) + rest)[0] == '-'
    ensures (NumberToString(n) + rest)[1..] == Decimal(-n) + rest
  {
    assert NumberToString(n) + rest == "-" + (Decimal(-n) + rest);
  }

  /** A leading minus sign negates the number after it. */
  lemma ParseIntMinus(s: string, u: string, m: nat)
    requires s != [] && s[0] == '-' && s[1..] == u
    requires ParseUnsigned(u) == Some(m)
    ensures ParseInt(s) == Some(-(m as int))
  {
    ParseIntNoLeadingSpace(s);
    ParseSignedMinus(s, m);
  }

  lemma ParseIntDecimal(m: nat, rest: string)
    requires rest == [] || DigitValue(rest[0]) >= 10
    requires m == 0 ==> rest == [] || (rest[0] != 'x' && rest[0] != 'X')
    ensures ParseInt(Decimal(m) + rest) == Some(m)
  {
    ParseUnsignedOfDecimal(m, rest);
    DecimalThenStartsWithDigit(m, rest);
    ParseIntPlain(Decimal(m) + rest, m);
  }

  lemma DecimalThenStartsWithDigit(m: nat, rest: string)
    ensures Decimal(m) + rest != [] && '0' <= (Decimal(m) + rest)[0] <= '9'
  {
    assert (Decimal(m) + rest)[0] == Decimal(m)[0];
  }

  /** Without a sign the number is read as it stands. */
  lemma ParseIntPlain(u: string, m: nat)
    requires u != [] && '0' <= u[0] <= '9'
    requires ParseUnsigned(u) == Some(m)
    ensures ParseInt(u) == Some(m)
  {
    ParseIntNoLeadingSpace(u);
    ParseSignedPlain(u, m);
  }

  lemma ParseIntNoLeadingSpace(s: string)
    requires s != [] && !IsStrWhiteSpaceChar(s[0])
    ensures ParseInt(s) == ParseSigned(s)
  {
    TrimStartNoLeadingSpace(s);
  }

  /** A leading minus sign negates the number after it. */
  lemma ParseSignedMinus(s: string, m: nat)
    requires s != [] && s[0] == '-'
    requires ParseUnsigned(s[1..]) == Some(m)
    ensures ParseSigned(s) == Some(-(m as int))
  {
  }

  lemma ParseSignedPlain(u: string, m: nat)
    requires u != [] && '0' <= u[0] <= '9'
    requires ParseUnsigned(u) == Some(m)
    ensures ParseSigned(u) == Some(m as int)
  {
  }

  /** A string starting with a letter has no number in it. */
  lemma ParseIntLetter(c: char, rest: string)
    requires 'a' <= c <= 'z'
    ensures ParseInt([c] + rest) == None
  {
    var s := [c] + rest;
    assert s[0] == c;
    TrimStartNoLeadingSpace(s);
    ParseIntNoDigitIsNaN(s);
  }

  /** A single decimal digit reads as its value. */
  lemma ParseIntDigit(c: char)
    requires '0' <= c <= '9'
    ensures ParseInt([c]) == Some(DigitValue(c))
  {
    var d := DigitValue(c);
    assert Decimal(d) == [c];
    ParseIntDecimal(d, []);
    assert Decimal(d) + [] == [c];
  }

  /** `0x` followed by one hexadecimal digit reads as that digit's value in radix 16. */
  lemma ParseIntHexDigit(c: char)
    requires DigitValue(c) < 16
    ensures ParseInt(['0', 'x', c]) == Some(DigitValue(c))
  {
    ParseUnsignedHexDigit(c);
    ParseIntPlain(['0', 'x', c], DigitValue(c));
  }

  lemma ParseUnsignedHexDigit(c: char)
    requires DigitValue(c) < 16
    ensures ParseUnsigned(['0', 'x', c]) == Some(DigitValue(c))
  {
    var u := ['0', 'x', c];
    assert HasHexPrefix(u);
    assert u[2..] == [c];
    ParseDigitsSingle(c, 16);
  }

  lemma ParseDigitsSingle(c: char, radix: nat)
    requires DigitValue(c) < radix
    ensures ParseDigits([c], radix) == Some(DigitValue(c))
  {
    assert [c][1..] == [];
    assert DigitRun([c], radix) == 1;
    assert [c][..1] == [c] && [c][..0] == [];
    assert ValueOf([], radix) == 0;
    assert ValueOf([c], radix) == ValueOf([], radix) * radix + DigitValue(c);
  }

  /** With no digit after the leading whitespace and the optional sign, `parseInt` gives NaN. */
  lemma ParseIntNoDigitIsNaN(s: string)
    requires var t := TrimStart(s);
             var u := if t != [] && (t[0] == '+' || t[0] == '-') then t[1..] else t;
             u == [] || DigitValue(u[0]) >= 10
    ensures ParseInt(s) == None
  {
  }
}
