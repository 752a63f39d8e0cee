/** What the printed decimal is worth: the stored value, cut to the display scale. */
module NumericValue {
  import opened Base
  import opened NumericText

  // ---------------------------------------------------------------- reading decimals

  predicate IsDigit(c: byte) { 48 <= c <= 57 }

  predicate Digits(s: seq<byte>) {
    forall i :: 0 <= i < |s| ==> IsDigit(s[i])
  }

  /** The number a run of digits denotes. */
  function Number(s: seq<byte>): nat
    requires Digits(s)
  {
    if s == [] then 0 else 10 * Number(s[..|s| - 1]) + (s[|s| - 1] as int - 48)
  }

  function LeadingDigits(s: seq<byte>): (r: seq<byte>)
    ensures r <= s && Digits(r) && (|r| < |s| ==> !IsDigit(s[|r|]))
    decreases |s|
  {
    if s == [] || !IsDigit(s[0]) then [] else [s[0]] + LeadingDigits(s[1..])
  }

  /** A decimal number: sign, digits without the point, count of digits behind the point. */
  datatype Decimal = Decimal(negative: bool, unscaled: nat, scale: nat)

  /** [-] digits [ . digits ] */
  function ReadDecimal(text: seq<byte>): Option<Decimal> {
    if text != [] && text[0] == 45 then ReadUnsigned(true, text[1..]) else ReadUnsigned(false, text)
  }

  function ReadUnsigned(neg: bool, s: seq<byte>): Option<Decimal> {
    var ip := LeadingDigits(s);
    var rest := s[|ip|..];
    if ip == [] then None
    else if rest == [] then Some(Decimal(neg, Number(ip), 0))
    else if rest[0] != 46 then None
    else
      var fp := LeadingDigits(rest[1..]);
      if fp == [] || |fp| < |rest| - 1 then None else Some(Decimal(neg, Number(ip + fp), |fp|))
  }

  // ---------------------------------------------------------------- the represented value

  function Pow10(n: nat): (r: nat)
    ensures r > 0
  {
    if n == 0 then 1 else 10 * Pow10(n - 1)
  }

  /** The first `m` base-10000 digits as one integer; zeros stand outside the stored ones. */
  ghost function Value(v: NumericVar, m: int): nat
    requires Valid(v)
    decreases if m < 0 then 0 else m
  {
    if m <= 0 then 0 else 10000 * Value(v, m - 1) + if m <= |v.digits| then v.digits[m - 1] else 0
  }

  /** `m` times ten to the `e`, cut to an integer. */
  ghost function Scaled(m: nat, e: int): nat {
    if e >= 0 then m * Pow10(e) else QuotientNatural(m, Pow10(-e)); m / Pow10(-e)
  }

  /** The stored digits as an integer, and the exponent of ten that makes it the value in units of the last
      printed decimal. */
  ghost function Coefficient(v: NumericVar): nat
    requires Valid(v)
  {
    Value(v, |v.digits|)
  }

  ghost function Exponent(v: NumericVar): int {
    4 * (v.weight + 1 - |v.digits|) + v.dscale
  }

  // ---------------------------------------------------------------- arithmetic of powers

  lemma {:induction false} Pow10Add(a: nat, b: nat)
    ensures Pow10(a + b) == Pow10(a) * Pow10(b)
    decreases a
  {
    if a == 0 {
    } else {
      Pow10Add(a - 1, b);
      assert Pow10(a + b) == 10 * (Pow10(a - 1) * Pow10(b)) == Pow10(a) * Pow10(b);
    }
  }

  lemma TenThousand()
    ensures Pow10(4) == 10000
  {
    assert Pow10(2) == 100;
  }

  lemma MulAdd(x: int, y: int, a: int)
    ensures (x + y) * a == x * a + y * a
  {
  }

  lemma MulAssoc(q: int, b: int, a: int)
    ensures (q * b) * a == q * (a * b)
  {
  }

  lemma Mono(a: nat, b: nat, d: nat)
    requires a <= b
    ensures a * d <= b * d
  {
  }

  lemma QuotientNatural(x: nat, d: nat)
    requires d > 0
    ensures x / d >= 0
  {
    var q := x / d;
    assert x == q * d + x % d;
    NegativeProduct(q, d);
  }

  lemma NegativeProduct(q: int, d: nat)
    ensures q < 0 ==> q * d + d <= 0
  {
    if q < 0 {
      Mono(1, -q, d);
      assert (-q) * d == -(q * d);
    }
  }

  lemma ProductPositive(a: nat, b: nat)
    requires a > 0 && b > 0
    ensures a * b > 0
  {
  }

  lemma Quotient(x: nat, d: nat) returns (q: nat, r: nat)
    requires d > 0
    ensures q == x / d && r < d && x == q * d + r
  {
    QuotientNatural(x, d);
    q, r := x / d, x % d;
  }

  /** Dividing twice is dividing by the product. */
  lemma DivDiv(x: nat, a: nat, b: nat)
    requires a > 0 && b > 0
    ensures a * b > 0 && x / a / b == x / (a * b)
  {
    ProductPositive(a, b);
    var y, r := Quotient(x, a);
    var q, s := Quotient(y, b);
    DivDivWith(x, a, b, q, s, r);
  }

  lemma DivDivWith(x: nat, a: nat, b: nat, q: nat, s: nat, r: nat)
    requires a * b > 0 && s < b && r < a && x == (q * b + s) * a + r
    ensures x / (a * b) == q
  {
    MulAdd(q * b, s, a);
    MulAssoc(q, b, a);
    MulAdd(s, 1, a);
    Mono(s + 1, b, a);
    ProductsFit(x, a * b, q, s * a + r);
  }

  lemma ProductsFit(x: nat, d: nat, q: nat, r: int)
    requires d > 0 && 0 <= r < d && x == q * d + r
    ensures x / d == q
  {
    DivUnique(x, d, q, r);
  }

  lemma DivProduct(x: nat, a: nat, b: nat)
    requires a > 0 && b > 0
    ensures x * (a * b) / b == x * a
  {
    assert x * (a * b) == (x * a) * b + 0;
    DivUnique(x * (a * b), b, x * a, 0);
  }

  // ---------------------------------------------------------------- digits appended to digits

  lemma {:induction false} NumberAppend(s: seq<byte>, c: byte)
    requires Digits(s) && IsDigit(c)
    ensures Digits(s + [c])
    ensures Number(s + [c]) == 10 * Number(s) + (c as int - 48)
  {
    assert (s + [c])[..|s|] == s;
  }

  lemma NumberFour(s: seq<byte>, n: nat)
    requires Digits(s) && n < 10000
    ensures Digits(s + Four(n))
    ensures Number(s + Four(n)) == 10000 * Number(s) + n
  {
    var a, b, c, d := n / 1000, n % 1000 / 100, n % 100 / 10, n % 10;
    NumberAppend(s, Ascii(a));
    NumberAppend(s + [Ascii(a)], Ascii(b));
    NumberAppend(s + [Ascii(a)] + [Ascii(b)], Ascii(c));
    NumberAppend(s + [Ascii(a)] + [Ascii(b)] + [Ascii(c)], Ascii(d));
    assert s + Four(n) == s + [Ascii(a)] + [Ascii(b)] + [Ascii(c)] + [Ascii(d)];
    FourSum(n);
  }

  lemma FourSum(n: nat)
    requires n < 10000
    ensures n == 1000 * (n / 1000) + 100 * (n % 1000 / 100) + 10 * (n % 100 / 10) + n % 10
  {
    ModOfMod(n, 1000, 100);
    ModOfMod(n, 100, 10);
    var x, y := n % 1000, n % 100;
    assert x == 100 * (x / 100) + x % 100;
    assert y == 10 * (y / 10) + y % 10;
  }

  lemma NoDigits()
    ensures Digits([]) && Number([]) == 0
  {
  }

  /** The value of a group without leading zeros. */
  lemma NumberGroup(a: nat, b: nat, c: nat, d: nat)
    requires a < 10 && b < 10 && c < 10 && d < 10
    ensures Digits(Group(a, b, c, d, false))
    ensures Number(Group(a, b, c, d, false)) == 1000 * a + 100 * b + 10 * c + d
  {
    hide Number, Digits;
    NoDigits();
    NumberAppend([], Ascii(d));
    if a > 0 {
      NumberAppend([], Ascii(a));
      NumberAppend([Ascii(a)], Ascii(b));
      NumberAppend([Ascii(a)] + [Ascii(b)], Ascii(c));
      NumberAppend([Ascii(a)] + [Ascii(b)] + [Ascii(c)], Ascii(d));
      assert [] + [Ascii(a)] == [Ascii(a)];
      assert Group(a, b, c, d, false) == [Ascii(a)] + [Ascii(b)] + [Ascii(c)] + [Ascii(d)];
    } else if b > 0 {
      NumberAppend([], Ascii(b));
      NumberAppend([Ascii(b)], Ascii(c));
      NumberAppend([Ascii(b)] + [Ascii(c)], Ascii(d));
      assert [] + [Ascii(b)] == [Ascii(b)];
      assert Group(a, b, c, d, false) == [Ascii(b)] + [Ascii(c)] + [Ascii(d)];
    } else if c > 0 {
      NumberAppend([], Ascii(c));
      NumberAppend([Ascii(c)], Ascii(d));
      assert [] + [Ascii(c)] == [Ascii(c)];
      assert Group(a, b, c, d, false) == [Ascii(c)] + [Ascii(d)];
    } else {
      assert [] + [Ascii(d)] == Group(a, b, c, d, false);
    }
  }

  lemma NumberTrimmed(n: nat)
    requires n < 10000
    ensures Digits(Trimmed(n))
    ensures Number(Trimmed(n)) == n
  {
    hide Number, Digits, Group;
    FourSum(n);
    NumberGroup(n / 1000, n % 1000 / 100, n % 100 / 10, n % 10);
  }

  /** Leaving out the last `t` digits divides by ten to the `t`. */
  lemma {:induction false} NumberCut(s: seq<byte>, t: nat)
    requires Digits(s) && t <= |s|
    ensures Digits(s[..|s| - t])
    ensures Number(s[..|s| - t]) == Number(s) / Pow10(t)
    decreases t
  {
    if t == 0 {
      assert s[..|s|] == s;
    } else {
      var init := s[..|s| - 1];
      NumberCut(init, t - 1);
      assert init[..|init| - (t - 1)] == s[..|s| - t];
      DivUnique(Number(s), 10, Number(init), s[|s| - 1] as int - 48);
      DivDiv(Number(s), 10, Pow10(t - 1));
    }
  }

  // ---------------------------------------------------------------- the printed digits

  lemma {:induction false} WholeValue(v: NumericVar, n: nat)
    requires Valid(v)
    ensures Digits(Whole(v, n))
    ensures Number(Whole(v, n)) == Value(v, n)
    decreases n
  {
    if n == 0 {
    } else if n == 1 {
      NumberTrimmed(Digit(v, 0));
    } else {
      WholeValue(v, n - 1);
      NumberFour(Whole(v, n - 1), Digit(v, n - 1));
    }
  }

  lemma IntegerValue(v: NumericVar)
    requires Valid(v)
    ensures Digits(IntegerPart(v)) && Number(IntegerPart(v)) == Value(v, v.weight + 1)
  {
    if v.weight >= 0 { WholeValue(v, v.weight + 1); }
  }

  lemma ValueStep(v: NumericVar, m: int)
    requires Valid(v)
    ensures Value(v, m) == 10000 * Value(v, m - 1) + Digit(v, m - 1)
  {
  }

  /** Integer part and `k` groups together are the first weight + 1 + k digits. */
  lemma {:induction false} GroupsValue(v: NumericVar, k: nat)
    requires Valid(v)
    ensures Digits(IntegerPart(v) + Groups(v, k))
    ensures Number(IntegerPart(v) + Groups(v, k)) == Value(v, v.weight + 1 + k)
    decreases k
  {
    hide Number, Digits, Four, Digit, Whole, Value;
    var ip := IntegerPart(v);
    if k == 0 {
      assert ip + Groups(v, 0) == ip;
      IntegerValue(v);
    } else {
      hide IntegerPart;
      GroupsValue(v, k - 1);
      ValueStep(v, v.weight + 1 + k);
      NumberFour(ip + Groups(v, k - 1), Digit(v, v.weight + k));
      assert ip + Groups(v, k) == ip + Groups(v, k - 1) + Four(Digit(v, v.weight + k));
    }
  }

  // ---------------------------------------------------------------- the cut value

  lemma {:induction false} ValueBeyond(v: NumericVar, m: nat)
    requires Valid(v) && m >= |v.digits|
    ensures Value(v, m) == Coefficient(v) * Pow10(4 * (m - |v.digits|))
    decreases m
  {
    if m > |v.digits| {
      ValueBeyond(v, m - 1);
      AddDigits(Coefficient(v), m - 1 - |v.digits|);
    } else {
      One();
    }
  }

  lemma {:induction false} ValueWithin(v: NumericVar, m: int, n: nat)
    requires Valid(v) && m <= n
    ensures Value(v, m) == Value(v, n) / Pow10(4 * (n - m))
    decreases n - m
  {
    hide Pow10, Value, Digit;
    if m == n {
      assert Pow10(0) == 1 by { One(); }
    } else if n > 0 {
      ValueWithin(v, m, n - 1);
      ValueStep(v, n);
      DropDigit(Value(v, n - 1), Digit(v, n - 1), n - 1 - m);
    } else {
      NoValue(v, m);
      NoValue(v, n);
      DivUnique(0, Pow10(4 * (n - m)), 0, 0);
    }
  }

  lemma NoValue(v: NumericVar, m: int)
    requires Valid(v) && m <= 0
    ensures Value(v, m) == 0
  {
  }

  lemma One()
    ensures Pow10(0) == 1
  {
  }

  /** Leaving out the last base-10000 digit. */
  lemma DropDigit(y: nat, d: nat, j: nat)
    requires d < 10000
    ensures (10000 * y + d) / Pow10(4 * (j + 1)) == y / Pow10(4 * j)
  {
    hide Pow10;
    DivUnique(10000 * y + d, 10000, y, d);
    DivDiv(10000 * y + d, 10000, Pow10(4 * j));
    Pow10Add(4, 4 * j);
    TenThousand();
  }

  lemma AddDigits(c: nat, j: nat)
    ensures 10000 * (c * Pow10(4 * j)) == c * Pow10(4 * (j + 1))
  {
    hide Pow10;
    Pow10Add(4, 4 * j);
    TenThousand();
    Swap(c, Pow10(4 * j));
  }

  lemma Swap(c: nat, p: nat)
    ensures 10000 * (c * p) == c * (10000 * p)
  {
  }

  /** Cutting `t` < 4 decimals off the first `m` digits cuts the value at that place. */
  lemma ValueCut(v: NumericVar, m: int, t: nat)
    requires Valid(v) && t < 4
    ensures Value(v, m) / Pow10(t) == Scaled(Coefficient(v), 4 * (m - |v.digits|) - t)
  {
    var nd, c := |v.digits|, Coefficient(v);
    if m > nd {
      var e := 4 * (m - nd);
      ValueBeyond(v, m);
      Pow10Add(e - t, t);
      DivProduct(c, Pow10(e - t), Pow10(t));
    } else {
      ValueWithin(v, m, nd);
      DivDiv(c, Pow10(4 * (nd - m)), Pow10(t));
      Pow10Add(4 * (nd - m), t);
      if m == nd && t == 0 { assert Pow10(0) == 1; }
    }
  }

  // ---------------------------------------------------------------- reading the printed text

  lemma {:induction false} LeadingDigitsOf(ip: seq<byte>, rest: seq<byte>)
    requires Digits(ip) && (rest == [] || !IsDigit(rest[0]))
    ensures LeadingDigits(ip + rest) == ip
    decreases |ip|
  {
    if ip == [] {
      assert ip + rest == rest;
    } else {
      assert (ip + rest)[1..] == ip[1..] + rest;
      LeadingDigitsOf(ip[1..], rest);
    }
  }

  lemma UnsignedReads(neg: bool, ip: seq<byte>, fp: seq<byte>)
    requires ip != [] && Digits(ip) && Digits(fp)
    ensures Digits(ip + fp)
    ensures ReadUnsigned(neg, ip + if fp == [] then [] else [POINT] + fp) == Some(Decimal(neg, Number(ip + fp), |fp|))
  {
    hide LeadingDigits, Number;
    var rest := if fp == [] then [] else [POINT] + fp;
    LeadingDigitsOf(ip, rest);
    assert (ip + rest)[|ip|..] == rest;
    if fp == [] {
      assert ip + fp == ip;
    } else {
      LeadingDigitsOf(fp, []);
      assert fp + [] == fp && rest[1..] == fp;
    }
  }

  lemma ReadsBack(neg: bool, ip: seq<byte>, fp: seq<byte>)
    requires ip != [] && Digits(ip + fp)
    ensures ReadDecimal((if neg then [DASH] else []) + ip + if fp == [] then [] else [POINT] + fp)
         == Some(Decimal(neg, Number(ip + fp), |fp|))
  {
    hide ReadUnsigned, Number;
    var rest := if fp == [] then [] else [POINT] + fp;
    assert Digits(ip) by { assert forall i :: 0 <= i < |ip| ==> ip[i] == (ip + fp)[i]; }
    assert Digits(fp) by { assert forall i :: 0 <= i < |fp| ==> fp[i] == (ip + fp)[|ip| + i]; }
    UnsignedReads(neg, ip, fp);
    if neg {
      assert [DASH] + ip + rest == [DASH] + (ip + rest) && ([DASH] + (ip + rest))[1..] == ip + rest;
    } else {
      assert [] + ip + rest == ip + rest && IsDigit((ip + rest)[0]);
    }
  }

  /** The printed text is a decimal with exactly `dscale` digits behind the point (none, and no point, for
      zero), and it denotes the stored value cut to that scale. */
  lemma PrintedValue(v: NumericVar)
    requires Valid(v)
    ensures ReadDecimal(Text(v)) == Some(Decimal(v.negative, Scaled(Coefficient(v), Exponent(v)), v.dscale))
  {
    hide IntegerPart, Groups, Value, Scaled, Pow10, ReadDecimal, Number, Digits;
    var k := GroupsNeeded(v.dscale);
    var ip, all := IntegerPart(v), Groups(v, k);
    var t := 4 * k - v.dscale;
    var fp := all[..v.dscale];
    GroupsValue(v, k);
    NumberCut(ip + all, t);
    assert (ip + all)[..|ip + all| - t] == ip + fp;
    ValueCut(v, v.weight + 1 + k, t);
    assert 4 * (v.weight + 1 + k - |v.digits|) - t == Exponent(v);
    ReadsBack(v.negative, ip, fp);
  }

  /** The decimal is the stored value, compared in units of the smaller of the two last places. */
  ghost predicate Worth(d: Decimal, v: NumericVar)
    requires Valid(v)
  {
    d.negative == v.negative
    && if Exponent(v) >= 0 then d.unscaled == Coefficient(v) * Pow10(Exponent(v))
       else d.unscaled * Pow10(-Exponent(v)) == Coefficient(v)
  }

  /** The printed decimal is the stored value itself exactly if no decimal digit beyond the scale is set. */
  lemma PrintedExactly(v: NumericVar)
    requires Valid(v)
    ensures var d := ReadDecimal(Text(v));
      d.Some? && (Worth(d.value, v) <==> Exponent(v) >= 0 || Coefficient(v) % Pow10(-Exponent(v)) == 0)
  {
    hide Coefficient, Exponent, ReadDecimal, Text, Pow10;
    PrintedValue(v);
    if Exponent(v) < 0 { CutExact(Coefficient(v), Exponent(v)); }
  }

  lemma CutExact(c: nat, e: int)
    requires e < 0
    ensures Scaled(c, e) * Pow10(-e) == c <==> c % Pow10(-e) == 0
  {
    var d := Pow10(-e);
    assert c == c / d * d + c % d;
  }

  /** No superfluous zero in front, if the first digit is not zero. */
  lemma {:induction false} NoLeadingZero(v: NumericVar, n: nat)
    requires Valid(v) && n > 0 && Digit(v, 0) > 0
    ensures Whole(v, n)[0] != 48
    decreases n
  {
    if n == 1 {
    } else {
      NoLeadingZero(v, n - 1);
      assert Whole(v, n)[0] == Whole(v, n - 1)[0];
    }
  }
}
