/** The few JavaScript string semantics the aggregation layer depends on:
    `String(n)` for integers, lodash `_.toInteger` on a decimal string, string
    comparison with `<` (used by lodash `sortBy` on strings and by the default
    `Array.prototype.sort`), and the "array index" test that decides the
    enumeration order of an object's keys. */
module JsText {

  predicate IsDigit(c: char)
  {
    '0' <= c <= '9'
  }

  predicate AllDigits(s: string)
  {
    forall i :: 0 <= i < |s| ==> IsDigit(s[i])
  }

  function DigitChar(d: int): (c: char)
    requires 0 <= d < 10
    ensures IsDigit(c)
  {
    (('0' as int) + d) as char
  }

  function DigitValue(c: char): (d: int)
    requires IsDigit(c)
    ensures 0 <= d < 10
  {
    c as int - '0' as int
  }

  /** `String(n)` for a non-negative integer: its shortest decimal rendering. */
  function NatToString(n: nat): (s: string)
    ensures |s| >= 1 && AllDigits(s)
    ensures |s| == 1 || s[0] != '0'
    ensures n < 10 <==> |s| == 1
  {
    if n < 10 then [DigitChar(n)] else NatToString(n / 10) + [DigitChar(n % 10)]
  }

  /** `String(n)` for any integer. */
  function IntToString(n: int): (s: string)
    ensures |s| >= 1
  {
    if n < 0 then "-" + NatToString(-n) else NatToString(n)
  }

  /** The value of a string of decimal digits, most significant first. */
  function DigitsValue(s: string): nat
    requires AllDigits(s)
  {
    if s == [] then 0 else DigitsValue(s[..|s| - 1]) * 10 + DigitValue(s[|s| - 1])
  }

  lemma {:induction false} NatToStringValue(n: nat)
    ensures DigitsValue(NatToString(n)) == n
  {
    if n >= 10 {
      var s := NatToString(n);
      NatToStringValue(n / 10);
      assert s[..|s| - 1] == NatToString(n / 10);
    }
  }

  /** Different integers render as different strings. */
  lemma IntToStringInjective(a: int, b: int)
    requires IntToString(a) == IntToString(b)
    ensures a == b
  {
    IntToStringSign(a);
    IntToStringSign(b);
    if a < 0 {
      assert NatToString(-a) == IntToString(a)[1..] == NatToString(-b);
      NatToStringInjective(-a, -b);
    } else {
      NatToStringInjective(a, b);
    }
  }

  /** A rendering starts with '-' exactly when the integer is negative. */
  lemma IntToStringSign(n: int)
    ensures IntToString(n)[0] == '-' <==> n < 0
    ensures n < 0 ==> IntToString(n)[1..] == NatToString(-n)
    ensures n >= 0 ==> IntToString(n) == NatToString(n)
  {
    if n >= 0 {
      assert IsDigit(NatToString(n)[0]);
    }
  }

  lemma NatToStringInjective(a: nat, b: nat)
    requires NatToString(a) == NatToString(b)
    ensures a == b
  {
    NatToStringValue(a);
    NatToStringValue(b);
  }

  /** Position of the first `c` in `s`, or `|s|` when there is none. */
  function FirstOf(s: string, c: char): (i: nat)
    ensures i <= |s|
    ensures forall k :: 0 <= k < i ==> s[k] != c
    ensures i < |s| ==> s[i] == c
  {
    if s == [] || s[0] == c then 0 else 1 + FirstOf(s[1..], c)
  }

  /** In `a + [c] + b` with no `c` in `a`, the first `c` is the one after `a`. */
  lemma {:induction false} FirstOfJoin(a: string, c: char, b: string)
    requires forall i :: 0 <= i < |a| ==> a[i] != c
    ensures FirstOf(a + [c] + b, c) == |a|
  {
    if a != [] {
      assert (a + [c] + b)[1..] == a[1..] + [c] + b;
      FirstOfJoin(a[1..], c, b);
    }
  }

  /** lodash `_.toInteger` applied to a string. The string is read as a decimal
      literal: an optional sign, digits, and optionally a '.' and more digits,
      with at least one digit in all; the fraction is dropped (truncation toward
      zero). Any other string converts to NaN, which `_.toInteger` maps to 0. */
  function ToInteger(s: string): int
  {
    if |s| > 0 && s[0] == '-' then -(UnsignedDecimal(s[1..]) as int)
    else if |s| > 0 && s[0] == '+' then UnsignedDecimal(s[1..])
    else UnsignedDecimal(s)
  }

  /** The integer part of an unsigned decimal literal, or 0 (NaN) for anything else. */
  function UnsignedDecimal(body: string): nat
  {
    var dot := FirstOf(body, '.');
    var whole := body[..dot];
    var fraction := if dot < |body| then body[dot + 1..] else "";
    if (whole != "" || fraction != "") && AllDigits(whole) && AllDigits(fraction) then DigitsValue(whole)
    else 0
  }

  lemma NoDotInDigits(s: string)
    requires AllDigits(s)
    ensures FirstOf(s, '.') == |s|
  {
  }

  /** Reading back what `String(n)` wrote gives `n`: `_.toInteger(String(n)) === n`. */
  lemma ToIntegerOfString(n: int)
    ensures ToInteger(IntToString(n)) == n
  {
    var s := IntToString(n);
    if n < 0 {
      var digits := NatToString(-n);
      assert s[1..] == digits;
      NoDotInDigits(digits);
      assert digits[..|digits|] == digits;
      NatToStringValue(-n);
    } else {
      NoDotInDigits(s);
      assert s[..|s|] == s;
      NatToStringValue(n);
    }
  }

  /** A decimal fraction is dropped: `_.toInteger(String(n) + "." + f)` is `n`
      for any digits `f`, so the conversion truncates toward zero. */
  lemma ToIntegerTruncates(n: int, fraction: string)
    requires AllDigits(fraction)
    ensures ToInteger(IntToString(n) + "." + fraction) == n
  {
    var k: nat := if n < 0 then -n else n;
    var digits := NatToString(k);
    NatToStringValue(k);
    if n < 0 {
      SignedDecimalValue(digits, fraction);
      NegativeRendering(n, fraction);
    } else {
      DecimalValue(digits, fraction);
    }
  }

  lemma NegativeRendering(n: int, fraction: string)
    requires n < 0
    ensures IntToString(n) + "." + fraction == "-" + (NatToString(-n) + "." + fraction)
  {
  }

  /** `_.toInteger` of `digits.fraction` is the value of the digits. */
  lemma DecimalValue(digits: string, fraction: string)
    requires |digits| >= 1 && AllDigits(digits) && AllDigits(fraction)
    ensures ToInteger(digits + "." + fraction) == DigitsValue(digits)
  {
    UnsignedDecimalOf(digits, fraction);
    assert (digits + "." + fraction)[0] == digits[0];
  }

  /** `_.toInteger` of `-digits.fraction` is minus the value of the digits. */
  lemma SignedDecimalValue(digits: string, fraction: string)
    requires |digits| >= 1 && AllDigits(digits) && AllDigits(fraction)
    ensures ToInteger("-" + (digits + "." + fraction)) == -(DigitsValue(digits) as int)
  {
    var t := digits + "." + fraction;
    UnsignedDecimalOf(digits, fraction);
    NegatedValue("-" + t, t);
  }

  /** A string that is '-' followed by `t` converts to minus what `t` reads as. */
  lemma NegatedValue(s: string, t: string)
    requires s == "-" + t
    ensures ToInteger(s) == -(UnsignedDecimal(t) as int)
  {
    assert s[1..] == t;
  }

  /** The value `_.toInteger` reads from `digits.fraction` is that of the digits. */
  lemma UnsignedDecimalOf(digits: string, fraction: string)
    requires |digits| >= 1 && AllDigits(digits) && AllDigits(fraction)
    ensures UnsignedDecimal(digits + "." + fraction) == DigitsValue(digits)
  {
    DecimalParts(digits, fraction);
  }

  /** The parts `_.toInteger` splits `digits.fraction` into. */
  lemma DecimalParts(digits: string, fraction: string)
    requires AllDigits(digits) && AllDigits(fraction)
    ensures FirstOf(digits + "." + fraction, '.') == |digits|
    ensures (digits + "." + fraction)[..|digits|] == digits
    ensures (digits + "." + fraction)[|digits| + 1..] == fraction
  {
    FirstOfJoin(digits, '.', fraction);
  }

  /** JavaScript's `a < b` on strings: lexicographic, a proper prefix first. */
  predicate LexLess(a: string, b: string)
  {
    if a == [] then b != []
    else if b == [] then false
    else if a[0] != b[0] then a[0] < b[0]
    else LexLess(a[1..], b[1..])
  }

  predicate LexLe(a: string, b: string)
  {
    a == b || LexLess(a, b)
  }

  lemma {:induction false} LexTotal(a: string, b: string)
    ensures LexLe(a, b) || LexLe(b, a)
  {
    if a != [] && b != [] && a[0] == b[0] {
      LexTotal(a[1..], b[1..]);
      if a[1..] == b[1..] {
        assert a == [a[0]] + a[1..] && b == [b[0]] + b[1..];
      }
    }
  }

  lemma {:induction false} LexLessTransitive(a: string, b: string, c: string)
    requires LexLess(a, b) && LexLess(b, c)
    ensures LexLess(a, c)
  {
    if a != [] && a[0] == b[0] && b[0] == c[0] {
      LexLessTransitive(a[1..], b[1..], c[1..]);
    }
  }

  lemma LexLeTransitive(a: string, b: string, c: string)
    requires LexLe(a, b) && LexLe(b, c)
    ensures LexLe(a, c)
  {
    if a != b && b != c {
      LexLessTransitive(a, b, c);
    }
  }

  lemma {:induction false} LexLessIrreflexive(a: string)
    ensures !LexLess(a, a)
  {
    if a != [] {
      LexLessIrreflexive(a[1..]);
    }
  }

  /** Appending one character to strings of equal length: the prefixes decide
      unless they are equal, and then the last characters do. */
  lemma {:induction false} LexLessSnoc(x: string, y: string, c: char, d: char)
    requires |x| == |y|
    ensures LexLess(x + [c], y + [d]) == (if x == y then c < d else LexLess(x, y))
  {
    if x == [] {
      assert x + [c] == [c] && y + [d] == [d];
      assert [c][1..] == [] && [d][1..] == [];
    } else {
      assert (x + [c])[0] == x[0] && (y + [d])[0] == y[0];
      assert (x + [c])[1..] == x[1..] + [c] && (y + [d])[1..] == y[1..] + [d];
      LexLessSnoc(x[1..], y[1..], c, d);
      if x[0] == y[0] && x[1..] == y[1..] {
        assert x == [x[0]] + x[1..] && y == [y[0]] + y[1..];
      }
    }
  }

  /** Renderings of the same length compare like the numbers they render:
      string order and numeric order agree on integers with equally many digits. */
  lemma {:induction false} LexLessSameLength(a: nat, b: nat)
    requires |NatToString(a)| == |NatToString(b)|
    ensures LexLess(NatToString(a), NatToString(b)) <==> a < b
  {
    var sa, sb := NatToString(a), NatToString(b);
    if a < 10 {
      assert sa[1..] == [] && sb[1..] == [];
    } else {
      LexLessSameLength(a / 10, b / 10);
      LexLessSnoc(NatToString(a / 10), NatToString(b / 10), DigitChar(a % 10), DigitChar(b % 10));
      if NatToString(a / 10) == NatToString(b / 10) {
        NatToStringValue(a / 10);
        NatToStringValue(b / 10);
      } else {
        assert a / 10 != b / 10;
      }
    }
  }

  /** Four-digit numbers render as four characters. */
  lemma FourDigits(n: nat)
    requires 1000 <= n <= 9999
    ensures |NatToString(n)| == 4
  {
    assert NatToString(n) == NatToString(n / 10) + [DigitChar(n % 10)];
    assert NatToString(n / 10) == NatToString(n / 100) + [DigitChar((n / 10) % 10)];
    assert NatToString(n / 100) == NatToString(n / 1000) + [DigitChar((n / 100) % 10)];
  }

  /** The largest array index, 2^32 - 2. */
  const MaxArrayIndex: nat := 4294967294

  /** A property name that JavaScript treats as an array index: the canonical
      decimal rendering of an integer from 0 to 2^32 - 2. Objects enumerate such
      keys first, in ascending numeric order, and all other string keys after
      them, in the order they were first added. */
  predicate IsArrayIndex(s: string)
  {
    && |s| >= 1
    && AllDigits(s)
    && (s[0] != '0' || |s| == 1)
    && DigitsValue(s) <= MaxArrayIndex
  }

  /** Where a key sits in an object's enumeration order: array indices by their
      value, every other key after all of them. */
  function EnumerationRank(s: string): (r: nat)
    ensures r <= MaxArrayIndex <==> IsArrayIndex(s)
  {
    if IsArrayIndex(s) then DigitsValue(s) else MaxArrayIndex + 1
  }

  lemma NatToStringIsArrayIndex(n: nat)
    ensures IsArrayIndex(NatToString(n)) <==> n <= MaxArrayIndex
  {
    NatToStringValue(n);
  }

  /** Two array-index keys with the same value are the same key. */
  lemma {:induction false} ArrayIndexCanonical(s: string)
    requires IsArrayIndex(s)
    ensures NatToString(DigitsValue(s)) == s
    decreases |s|
  {
    var n := DigitsValue(s);
    var init := s[..|s| - 1];
    if |s| == 1 {
      assert s[..0] == [];
      assert DigitChar(DigitValue(s[0])) == s[0];
      assert s == [s[0]];
    } else {
      assert init[0] == s[0] && AllDigits(init);
      if DigitsValue(init) == 0 {
        ZeroDigits(init);
        assert false;
      }
      assert IsArrayIndex(init);
      ArrayIndexCanonical(init);
      assert n / 10 == DigitsValue(init) && n % 10 == DigitValue(s[|s| - 1]);
      assert s == init + [s[|s| - 1]];
    }
  }

  /** A digit string whose value is 0 consists of zeros only. */
  lemma {:induction false} ZeroDigits(s: string)
    requires AllDigits(s) && |s| >= 1 && DigitsValue(s) == 0
    ensures s[0] == '0'
  {
    if |s| > 1 {
      ZeroDigits(s[..|s| - 1]);
    }
  }
}
