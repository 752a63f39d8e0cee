/** get_str_from_var (pg_integer.c): base-10000 digits to decimal text. */
module NumericText {
  import opened Base

  /** A numeric: the value is the sum of digits[d] * 10000^(weight - d), `dscale` decimals are shown. */
  datatype NumericVar = NumericVar(weight: int, negative: bool, dscale: nat, digits: seq<nat>)

  ghost predicate Valid(v: NumericVar) {
    forall d :: 0 <= d < |v.digits| ==> v.digits[d] < 10000
  }

  /** Digit `d`; zero outside the stored ones. */
  function Digit(v: NumericVar, d: int): (r: nat)
    requires Valid(v)
    ensures r < 10000
  {
    if 0 <= d < |v.digits| then v.digits[d] else 0
  }

  const DASH: byte := 45
  const POINT: byte := 46

  // ---------------------------------------------------------------- the text

  function Ascii(n: nat): byte
    requires n < 10
  {
    (48 + n) as byte
  }

  /** Four decimal digits; the zeros in front only if `all`, but the last digit always. */
  function Group(a: nat, b: nat, c: nat, d: nat, all: bool): seq<byte>
    requires a < 10 && b < 10 && c < 10 && d < 10
  {
    if all || a > 0 then [Ascii(a), Ascii(b), Ascii(c), Ascii(d)]
    else if b > 0 then [Ascii(b), Ascii(c), Ascii(d)]
    else if c > 0 then [Ascii(c), Ascii(d)]
    else [Ascii(d)]
  }

  function Four(n: nat): (r: seq<byte>)
    requires n < 10000
    ensures |r| == 4
  {
    Group(n / 1000, n % 1000 / 100, n % 100 / 10, n % 10, true)
  }

  /** Without leading zeros, but at least one digit. */
  function Trimmed(n: nat): (r: seq<byte>)
    requires n < 10000
    ensures 1 <= |r| <= 4
  {
    Group(n / 1000, n % 1000 / 100, n % 100 / 10, n % 10, false)
  }

  /** The first `n` digits as integer digits. */
  ghost function Whole(v: NumericVar, n: nat): (r: seq<byte>)
    requires Valid(v)
    ensures |r| <= 4 * n && (n > 0 ==> r != [])
  {
    if n == 0 then []
    else if n == 1 then Trimmed(Digit(v, 0))
    else Whole(v, n - 1) + Four(Digit(v, n - 1))
  }

  ghost function IntegerPart(v: NumericVar): (r: seq<byte>)
    requires Valid(v)
    ensures r != [] && |r| <= if v.weight < 0 then 1 else 4 * (v.weight + 1)
  {
    if v.weight < 0 then [48] else Whole(v, v.weight + 1)
  }

  /** The `k` groups of four digits behind the point. */
  ghost function Groups(v: NumericVar, k: nat): (r: seq<byte>)
    requires Valid(v)
    ensures |r| == 4 * k
  {
    if k == 0 then [] else Groups(v, k - 1) + Four(Digit(v, v.weight + k))
  }

  ghost function GroupsNeeded(dscale: nat): (k: nat)
    ensures dscale <= 4 * k < dscale + 4
  {
    (dscale + 3) / 4
  }

  ghost function Sign(v: NumericVar): seq<byte> {
    if v.negative then [DASH] else []
  }

  ghost function Text(v: NumericVar): seq<byte>
    requires Valid(v)
  {
    Sign(v) + IntegerPart(v)
    + if v.dscale == 0 then [] else [POINT] + Groups(v, GroupsNeeded(v.dscale))[..v.dscale]
  }

  // ---------------------------------------------------------------- the C loops

  /** Four digits of `dig` at `cp`, leading zeros left out unless `putit`. */
  method PutGroup(str: array<byte>, cp: nat, dig: nat, putit: bool) returns (cp': nat)
    requires dig < 10000 && cp + 4 <= str.Length
    modifies str
    ensures var out := if putit then Four(dig) else Trimmed(dig);
      cp' == cp + |out| && str[..cp'] == old(str[..cp]) + out
  {
    var a := dig / 1000;
    var rest := dig - a * 1000;
    var b := rest / 100;
    rest := rest - b * 100;
    var c := rest / 10;
    rest := rest - c * 10;
    ModOfMod(dig, 1000, 100);
    ModOfMod(dig, 100, 10);
    cp' := PutDigits(str, cp, a, b, c, rest, putit);
  }

  lemma ModOfMod(n: nat, a: nat, b: nat)
    requires (a == 1000 && b == 100) || (a == 100 && b == 10)
    ensures n % a % b == n % b
  {
    var q, x := n / a, n % a;
    var p, y := x / b, x % b;
    if a == 1000 {
      DivUnique(n, 100, 10 * q + p, y);
    } else {
      DivUnique(n, 10, 10 * q + p, y);
    }
  }

  /** The four digits, each written once a digit before it was. */
  method PutDigits(str: array<byte>, cp: nat, a: nat, b: nat, c: nat, d: nat, putit: bool) returns (cp': nat)
    requires a < 10 && b < 10 && c < 10 && d < 10 && cp + 4 <= str.Length
    modifies str
    ensures cp' == cp + |Group(a, b, c, d, putit)| && str[..cp'] == old(str[..cp]) + Group(a, b, c, d, putit)
  {
    var put := putit || a > 0;
    cp' := cp;
    if put { cp' := PutChar(str, cp', Ascii(a)); }
    put := put || b > 0;
    if put { cp' := PutChar(str, cp', Ascii(b)); }
    put := put || c > 0;
    if put { cp' := PutChar(str, cp', Ascii(c)); }
    cp' := PutChar(str, cp', Ascii(d));
  }

  method PutChar(str: array<byte>, cp: nat, c: byte) returns (cp': nat)
    requires cp < str.Length
    modifies str
    ensures cp' == cp + 1 && str[..cp'] == old(str[..cp]) + [c]
  {
    str[cp] := c;
    cp' := cp + 1;
  }

  /** get_str_from_var: `str[..len]` is the text, a zero follows; all writes stay inside the allocation. */
  method GetStrFromVar(v: NumericVar) returns (str: array<byte>, len: nat)
    requires Valid(v)
    ensures fresh(str) && len < str.Length == (if v.weight < 0 then 1 else 4 * (v.weight + 1)) + v.dscale + 6
    ensures str[..len] == Text(v) && str[len] == 0
  {
    hide Groups, IntegerPart, GroupsNeeded, Text;
    var i := (v.weight + 1) * 4;
    if i <= 0 {
      i := 1;
    }
    str := new byte[i + v.dscale + 4 + 2];
    var cp := 0;
    if v.negative {
      cp := PutChar(str, cp, DASH);
    }
    cp := PutInteger(v, str, cp);
    ghost var whole := str[..cp];
    assert whole == Sign(v) + IntegerPart(v);
    TextParts(v, whole);
    if v.dscale > 0 {
      cp := PutChar(str, cp, POINT);
      var endcp := cp + v.dscale;
      cp := PutFraction(v, str, cp);
      assert str[..endcp] == str[..cp][..endcp];
      cp := endcp;
    }
    str[cp] := 0;
    len := cp;
  }

  lemma TextParts(v: NumericVar, whole: seq<byte>)
    requires Valid(v) && whole == Sign(v) + IntegerPart(v)
    ensures v.dscale == 0 ==> Text(v) == whole
    ensures v.dscale > 0 ==>
      Text(v) == (whole + [POINT] + Groups(v, GroupsNeeded(v.dscale)))[..|whole| + 1 + v.dscale]
  {
    CutBehind(whole + [POINT], Groups(v, GroupsNeeded(v.dscale)), v.dscale);
  }

  lemma CutBehind(a: seq<byte>, b: seq<byte>, n: nat)
    requires n <= |b|
    ensures (a + b)[..|a| + n] == a + b[..n]
  {
  }

  /** All digits before the decimal point. */
  method PutInteger(v: NumericVar, str: array<byte>, start: nat) returns (cp: nat)
    requires Valid(v)
    requires start + (if v.weight < 0 then 1 else 4 * (v.weight + 1)) <= str.Length
    modifies str
    ensures cp == start + |IntegerPart(v)| && str[..cp] == old(str[..start]) + IntegerPart(v)
  {
    cp := start;
    if v.weight < 0 {
      str[cp] := 48;
      cp := cp + 1;
    } else {
      for d := 0 to v.weight + 1
        invariant cp == start + |Whole(v, d)| && str[..cp] == old(str[..start]) + Whole(v, d)
      {
        cp := PutGroup(str, cp, Digit(v, d), d > 0);
      }
    }
  }

  /** The digits behind the point, in whole groups. */
  method PutFraction(v: NumericVar, str: array<byte>, start: nat) returns (cp: nat)
    requires Valid(v) && start + v.dscale + 3 <= str.Length
    modifies str
    ensures cp == start + 4 * GroupsNeeded(v.dscale)
    ensures str[..cp] == old(str[..start]) + Groups(v, GroupsNeeded(v.dscale))
  {
    cp := start;
    var d, i := v.weight + 1, 0;
    ghost var k := 0;
    while i < v.dscale
      invariant i == 4 * k && d == v.weight + 1 + k && 0 <= k <= GroupsNeeded(v.dscale)
      invariant cp == start + i && str[..cp] == old(str[..start]) + Groups(v, k)
    {
      cp := PutGroup(str, cp, Digit(v, d), true);
      d, i, k := d + 1, i + 4, k + 1;
    }
  }
}
