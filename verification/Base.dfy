/** Bytes, little-endian words, and the two result types the other modules share. */
module Base {

  /** One unsigned char.  Masks and shifts of the C code appear below as `%` and `/` by powers of two. */
  newtype byte = x: int | 0 <= x < 256

  datatype Option<+T> = None | Some(value: T)

  /** How a call ends that can terminate the process: `Exit` stands for `exit(1)`. */
  datatype Outcome = Pass | Exit {
    predicate IsFailure() { Exit? }
    function PropagateFailure(): Outcome requires Exit? { Exit }
  }

  function Min(a: int, b: int): (r: int)
    ensures r <= a && r <= b && (r == a || r == b)
  {
    if a < b then a else b
  }

  /** A C string ends at its first zero byte. */
  function UntilZero(s: seq<byte>): (r: seq<byte>)
    ensures r <= s && 0 !in r && (r == s || s[|r|] == 0)
    decreases |s|
  {
    if s == [] || s[0] == 0 then [] else [s[0]] + UntilZero(s[1..])
  }

  /** The text of a C string is the part before the first zero. */
  lemma {:induction false} UntilZeroIs(s: seq<byte>, n: nat)
    requires n <= |s| && 0 !in s[..n] && (n == |s| || s[n] == 0)
    ensures UntilZero(s) == s[..n]
    decreases n
  {
    if n == 0 {
    } else {
      assert s[0] in s[..n];
      assert s[1..][..n - 1] == s[..n][1..];
      UntilZeroIs(s[1..], n - 1);
      assert s[..n] == [s[0]] + s[1..][..n - 1];
    }
  }

  lemma UntilZeroOnce(s: seq<byte>)
    ensures UntilZero(UntilZero(s)) == UntilZero(s)
  {
    var u := UntilZero(s);
    assert u[..|u|] == u;
    UntilZeroIs(u, |u|);
  }

  /** A run of zero bytes. */
  ghost function Zeros(n: nat): (r: seq<byte>)
    ensures |r| == n && forall i :: 0 <= i < n ==> r[i] == 0
  {
    if n == 0 then [] else [0] + Zeros(n - 1)
  }

  /** A slice of a slice. */
  lemma SubSlice(s: seq<byte>, base: nat, end: nat, i: nat, n: nat)
    requires base <= end <= |s| && i + n <= end - base
    ensures s[base..end][i..i + n] == s[base + i..base + i + n]
  {
    var t, u := s[base..end][i..i + n], s[base + i..base + i + n];
    forall k | 0 <= k < n ensures t[k] == u[k] {
      assert t[k] == s[base..end][i + k] == s[base + (i + k)];
    }
  }

  /** The 32-bit little-endian load at byte offset `at`. */
  function Load32(b: seq<byte>, at: nat): (r: nat)
    requires at + 4 <= |b|
    ensures r < 0x1_0000_0000
  {
    b[at] as int + 0x100 * (b[at + 1] as int) + 0x1_0000 * (b[at + 2] as int) + 0x100_0000 * (b[at + 3] as int)
  }

  /** The four bytes of a 32-bit little-endian store. */
  function Store32(x: nat): (r: seq<byte>)
    requires x < 0x1_0000_0000
    ensures |r| == 4
  {
    [(x % 0x100) as byte, (x / 0x100 % 0x100) as byte, (x / 0x1_0000 % 0x100) as byte, (x / 0x100_0000) as byte]
  }

  lemma LoadStored(x: nat, b: seq<byte>, at: nat)
    requires x < 0x1_0000_0000
    requires at + 4 <= |b| && b[at..at + 4] == Store32(x)
    ensures Load32(b, at) == x
  {
    var s := b[at..at + 4];
    assert s[0] == b[at] && s[1] == b[at + 1] && s[2] == b[at + 2] && s[3] == b[at + 3];
    FourDigits(x);
  }

  lemma FourDigits(x: nat)
    ensures x == x % 0x100 + 0x100 * (x / 0x100 % 0x100) + 0x1_0000 * (x / 0x1_0000 % 0x100)
                 + 0x100_0000 * (x / 0x100_0000)
  {
    ByteOfWord(x);
    HighByte(x);
  }

  lemma ByteOfWord(x: nat)
    ensures x / 0x1_0000 == x / 0x100 / 0x100
  {
  }

  lemma HighByte(x: nat)
    ensures x / 0x100_0000 == x / 0x1_0000 / 0x100
  {
  }

  /** Rounding up to a multiple. */
  lemma RoundsUp(x: int, d: int)
    requires d > 0
    ensures ((x + d - 1) / d * d) % d == 0 && x <= (x + d - 1) / d * d < x + d
  {
    var q := (x + d - 1) / d;
    assert q * d == d * q;
    DivUnique(q * d, d, q, 0);
  }

  lemma AtLeastOnce(d: nat, k: int)
    requires k > 0
    ensures d * k >= d
  {
  }

  /** Quotient and remainder are unique. */
  lemma DivUnique(x: int, d: int, q: int, r: int)
    requires 0 <= r < d && x == d * q + r
    ensures x / d == q && x % d == r
  {
    var p, s := x / d, x % d;
    assert d * (p - q) == r - s;
    if p < q {
      assert d * (q - p) == s - r;
      AtLeastOnce(d, q - p);
    } else if p > q {
      AtLeastOnce(d, p - q);
    }
  }
}
