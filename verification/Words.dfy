/**
 * Unsigned 64-bit words as naturals below 2^64. The bit operators of C are defined digit by digit
 * on the binary expansion; the lemmas turn the uses made of them here into arithmetic.
 */
module Words {

  const WORD_LIMIT: nat := 0x1_0000_0000_0000_0000

  type byte = x: int | 0 <= x < 256
  type uint64 = x: int | 0 <= x < WORD_LIMIT

  function Zeros(n: nat): (z: seq<byte>)
    ensures |z| == n && forall i :: 0 <= i < n ==> z[i] == 0
  {
    seq(n, _ => 0)
  }

  function Pow2(k: nat): (r: nat)
    ensures r > 0
  {
    if k == 0 then 1 else 2 * Pow2(k - 1)
  }

  function BitAnd(x: nat, y: nat): (r: nat) {
    if x == 0 || y == 0 then 0 else (if x % 2 == 1 && y % 2 == 1 then 1 else 0) + 2 * BitAnd(x / 2, y / 2)
  }

  function BitOr(x: nat, y: nat): (r: nat) {
    if x == 0 then y else if y == 0 then x
    else (if x % 2 == 1 || y % 2 == 1 then 1 else 0) + 2 * BitOr(x / 2, y / 2)
  }

  function ShiftLeft(x: uint64, k: nat): uint64 { (x * Pow2(k)) % WORD_LIMIT }

  function ShiftRight(x: nat, k: nat): (r: nat)
    ensures r <= x
  {
    if k == 0 then x else ShiftRight(x / 2, k - 1)
  }

  lemma {:induction false} ShiftRightDivides(x: nat, k: nat)
    ensures ShiftRight(x, k) == x / Pow2(k)
  {
    if k > 0 {
      ShiftRightDivides(x / 2, k - 1);
      DivTwice(x, Pow2(k - 1));
    }
  }

  lemma DivTwice(x: nat, p: nat)
    requires p > 0
    ensures x / (2 * p) == (x / 2) / p
  {
    var q, r := (x / 2) / p, (x / 2) % p;
    assert x / 2 == q * p + r;
    ModUnique(x, 2 * p, q, x % 2 + 2 * r);
  }

  /** Or-ing a number below 2^k onto a multiple of 2^k adds it. */
  lemma {:induction false} OrLow(x: nat, k: nat, y: nat)
    requires y < Pow2(k)
    ensures BitOr(x * Pow2(k), y) == x * Pow2(k) + y
  {
    if k > 0 {
      OrLow(x, k - 1, y / 2);
      OrEven(x * Pow2(k - 1), y);
      Double(x, Pow2(k - 1));
    }
  }

  lemma Double(x: nat, p: nat)
    ensures x * (2 * p) == 2 * (x * p)
  {
  }

  lemma OrEven(z: nat, y: nat)
    ensures BitOr(2 * z, y) == y % 2 + 2 * BitOr(z, y / 2)
  {
  }

  lemma {:induction false} OrSymmetric(x: nat, y: nat)
    ensures BitOr(x, y) == BitOr(y, x)
  {
    if x > 0 && y > 0 { OrSymmetric(x / 2, y / 2); }
  }

  /** And-ing with 2^k - 1 keeps the low k bits. */
  lemma {:induction false} AndLow(x: nat, k: nat)
    ensures BitAnd(x, Pow2(k) - 1) == x % Pow2(k)
  {
    if k > 0 {
      var p := Pow2(k - 1);
      assert (2 * p - 1) / 2 == p - 1;
      AndLow(x / 2, k - 1);
      ModTwice(x, p);
    }
  }

  lemma ModTwice(x: nat, p: nat)
    requires p > 0
    ensures x % (2 * p) == x % 2 + 2 * ((x / 2) % p)
  {
    var q, r := (x / 2) / p, (x / 2) % p;
    assert x / 2 == q * p + r;
    assert x == q * (2 * p) + (x % 2 + 2 * r);
    ModUnique(x, 2 * p, q, x % 2 + 2 * r);
  }

  lemma ModUnique(x: nat, d: nat, q: nat, r: nat)
    requires x == q * d + r && r < d
    ensures x / d == q && x % d == r
  {
    assert x / d * d + x % d == x;
    assert (x / d - q) * d == r - x % d;
    MulBig(x / d - q, d);
  }

  lemma MulBig(a: int, d: nat)
    ensures a >= 1 ==> a * d >= d
    ensures a <= -1 ==> a * d + d <= 0
  {
  }

  /** And-ing with a mask shifted by k bits looks at the bits above k. */
  lemma {:induction false} AndHigh(x: nat, m: nat, k: nat)
    ensures BitAnd(x, m * Pow2(k)) == BitAnd(ShiftRight(x, k), m) * Pow2(k)
  {
    if k > 0 {
      AndHigh(x / 2, m, k - 1);
      AndEven(x, m * Pow2(k - 1));
      Double(m, Pow2(k - 1));
      Double(BitAnd(ShiftRight(x, k), m), Pow2(k - 1));
    } else {
      TimesOne(m, BitAnd(x, m));
    }
  }

  lemma TimesOne(x: nat, y: nat)
    ensures x * Pow2(0) == x && y * Pow2(0) == y
  {
  }

  lemma AndEven(x: nat, z: nat)
    ensures BitAnd(x, 2 * z) == 2 * BitAnd(x / 2, z)
  {
  }

  /** The top bit of the low byte, and the same question for the bytes above. */
  lemma AndByteMask(x: nat, m: nat)
    ensures BitAnd(x, 128 + 256 * m) == (if x / 128 % 2 == 1 then 128 else 0) + 256 * BitAnd(x / 256, m)
  {
    AndHigh(x, 1 + 2 * m, 7);
    PowersOfTwo();
    ShiftRightDivides(x, 7);
    AndHalves(x / 128, 1 + 2 * m);
    assert x / 128 / 2 == x / 256;
  }

  lemma AndHalves(x: nat, y: nat)
    ensures BitAnd(x, y) == (if x % 2 == 1 && y % 2 == 1 then 1 else 0) + 2 * BitAnd(x / 2, y / 2)
  {
  }

  lemma {:induction false} Pow2Adds(j: nat, k: nat)
    ensures Pow2(j + k) == Pow2(j) * Pow2(k)
  {
    if j > 0 { Pow2Adds(j - 1, k); }
  }

  lemma PowersOfTwo()
    ensures Pow2(7) == 0x80 && Pow2(8) == 0x100 && Pow2(56) == 0x100_0000_0000_0000 && Pow2(57) == 0x200_0000_0000_0000
    ensures Pow2(62) == 0x4000_0000_0000_0000 && Pow2(63) == 0x8000_0000_0000_0000
  {
    assert Pow2(4) == 16;
    Pow2Adds(4, 3); Pow2Adds(4, 4); Pow2Adds(8, 8); Pow2Adds(16, 16); Pow2Adds(32, 16);
    Pow2Adds(48, 8); Pow2Adds(56, 7); Pow2Adds(56, 6); Pow2Adds(4, 2); Pow2Adds(56, 1);
  }

  lemma MulLess(x: nat, y: nat, z: nat)
    requires x < y && z > 0
    ensures x * z < y * z
  {
  }
}
