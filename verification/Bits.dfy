/** C's unsigned bit operators, written on naturals one binary digit at a time, and the
    arithmetic the lookup and range code relies on when it masks and shifts. */
module Bits {

  function Pow2(k: nat): (p: nat)
    ensures p >= 1
  {
    if k == 0 then 1 else 2 * Pow2(k - 1)
  }

  /** a >> k */
  function Shr(a: nat, k: nat): nat {
    if k == 0 then a else Shr(a / 2, k - 1)
  }

  /** Whether bit k of a is set (bit 0 is the least significant). */
  predicate Bit(a: nat, k: nat) {
    Shr(a, k) % 2 == 1
  }

  /** a & b */
  function And(a: nat, b: nat): nat {
    if a == 0 || b == 0 then 0
    else 2 * And(a / 2, b / 2) + (if a % 2 == 1 && b % 2 == 1 then 1 else 0)
  }

  /** a ^ b */
  function Xor(a: nat, b: nat): nat
    decreases a + b
  {
    if a == 0 then b else if b == 0 then a
    else 2 * Xor(a / 2, b / 2) + (if a % 2 != b % 2 then 1 else 0)
  }

  /** a << k in 32 and in 64 bits */
  function Shl32(a: nat, k: nat): nat {
    a * Pow2(k) % 0x1_0000_0000
  }

  function Shl64(a: nat, k: nat): nat {
    a * Pow2(k) % 0x1_0000_0000_0000_0000
  }

  /** ~a in 64 bits */
  function Not64(a: nat): nat {
    if a <= 0xFFFF_FFFF_FFFF_FFFF then 0xFFFF_FFFF_FFFF_FFFF - a else 0
  }

  lemma MulMono(a: int, b: int, m: nat)
    requires a <= b
    ensures a * m <= b * m
  {
  }

  lemma DivModUnique(a: int, m: nat, q: int, r: int)
    requires m > 0 && a == q * m + r && 0 <= r < m
    ensures a / m == q && a % m == r
  {
    var q' := a / m;
    if q < q' {
      MulMono(q + 1, q', m);
    } else if q' < q {
      MulMono(q' + 1, q, m);
    }
  }

  lemma {:induction false} Pow2Add(i: nat, j: nat)
    ensures Pow2(i + j) == Pow2(i) * Pow2(j)
  {
    if i > 0 { Pow2Add(i - 1, j); }
  }

  lemma {:induction false} Pow2Mono(i: nat, j: nat)
    requires i <= j
    ensures Pow2(i) <= Pow2(j)
  {
    if i < j { Pow2Mono(i, j - 1); }
  }

  /** Dividing and reducing by 2^k peels one binary digit at a time. */
  lemma DivModStep(a: nat, k: nat)
    requires k > 0
    ensures a / Pow2(k) == (a / 2) / Pow2(k - 1)
    ensures a % Pow2(k) == 2 * ((a / 2) % Pow2(k - 1)) + a % 2
  {
    var p := Pow2(k - 1);
    var q, r := (a / 2) / p, (a / 2) % p;
    assert a / 2 == q * p + r;
    assert a == 2 * (q * p + r) + a % 2 == q * (2 * p) + (2 * r + a % 2);
    DivModUnique(a, 2 * p, q, 2 * r + a % 2);
  }

  lemma {:induction false} ShrIsDiv(a: nat, k: nat)
    ensures Shr(a, k) == a / Pow2(k)
  {
    if k > 0 {
      ShrIsDiv(a / 2, k - 1);
      DivModStep(a, k);
    }
  }

  lemma {:induction false} ShrAdd(a: nat, i: nat, j: nat)
    ensures Shr(a, i + j) == Shr(Shr(a, i), j)
  {
    if i > 0 { ShrAdd(a / 2, i - 1, j); }
  }

  /** Addresses that agree above bit f agree on every bit from f on. */
  lemma SameTopBits(a: nat, b: nat, f: nat, k: nat)
    requires Shr(a, f) == Shr(b, f) && f <= k
    ensures Bit(a, k) == Bit(b, k)
  {
    ShrAdd(a, f, k - f);
    ShrAdd(b, f, k - f);
  }

  /** The range of numbers sharing a's bits from f up: it starts at a - a % 2^f. */
  lemma BlockBounds(a: nat, b: nat, f: nat)
    ensures Shr(a, f) == Shr(b, f) <==> a - a % Pow2(f) <= b < a - a % Pow2(f) + Pow2(f)
  {
    var p := Pow2(f);
    ShrIsDiv(a, f);
    ShrIsDiv(b, f);
    SameQuotient(a, b, p);
  }

  lemma SameQuotient(a: nat, b: nat, p: nat)
    requires p > 0
    ensures a / p == b / p <==> a - a % p <= b < a - a % p + p
  {
    var start := a / p * p;
    assert a - a % p == start;
    if a / p == b / p {
      assert b == b / p * p + b % p;
    }
    if start <= b < start + p {
      DivModUnique(b, p, a / p, b - start);
    }
  }

  /** The bits below m are those of the remainder modulo 2^m. */
  lemma {:induction false} LowBit(h: nat, b: nat, m: nat, k: nat)
    requires k < m
    ensures Bit(Pow2(m) * h + b, k) == Bit(b, k)
    decreases m
  {
    assert Pow2(m) * h == 2 * (Pow2(m - 1) * h);
    if k > 0 {
      LowBit(h, b / 2, m - 1, k - 1);
      assert (Pow2(m) * h + b) / 2 == Pow2(m - 1) * h + b / 2;
    }
  }

  lemma {:induction false} AndComm(a: nat, b: nat)
    ensures And(a, b) == And(b, a)
  {
    if a != 0 && b != 0 { AndComm(a / 2, b / 2); }
  }

  lemma AndOdd(a: nat, h: nat, r: nat)
    requires And(a / 2, h) == r
    ensures And(a, 2 * h + 1) == 2 * r + a % 2
  {
    assert (2 * h + 1) / 2 == h && (2 * h + 1) % 2 == 1;
  }

  /** Masking with k low ones is reduction modulo 2^k. */
  lemma {:induction false} AndLow(a: nat, k: nat)
    ensures And(a, Pow2(k) - 1) == a % Pow2(k)
  {
    if k == 0 {
      assert Pow2(k) == 1 && a % 1 == 0;
    } else {
      var p := Pow2(k - 1);
      assert Pow2(k) == 2 * p && Pow2(k) - 1 == 2 * (p - 1) + 1;
      hide *;
      AndLow(a / 2, k - 1);
      AndOdd(a, p - 1, a / 2 % p);
      DivModStep(a, k);
    }
  }

  lemma AndEven(a: nat, h: nat, r: nat)
    requires And(a / 2, h) == a / 2 - r
    ensures And(a, 2 * h) == a - (2 * r + a % 2)
  {
    assert 2 * h / 2 == h && 2 * h % 2 == 0;
  }

  lemma AndAll(a: nat, n: nat)
    requires a < Pow2(n)
    ensures And(a, Pow2(n) - 1) == a
  {
    AndLow(a, n);
    hide And, Pow2;
    DivModUnique(a, Pow2(n), 0, a);
  }

  /** Masking an n-bit number with ones above bit k clears its low k bits. */
  lemma {:induction false} AndHigh(a: nat, n: nat, k: nat)
    requires k <= n && a < Pow2(n)
    ensures Pow2(k) <= Pow2(n)
    ensures And(a, Pow2(n) - Pow2(k)) == a - a % Pow2(k)
  {
    Pow2Mono(k, n);
    if k == 0 {
      AndAll(a, n);
      assert Pow2(k) == 1 && a % 1 == 0;
    } else {
      var p, q := Pow2(k - 1), Pow2(n - 1);
      assert Pow2(n) == 2 * q && Pow2(k) == 2 * p;
      hide *;
      AndHigh(a / 2, n - 1, k - 1);
      AndEven(a, q - p, a / 2 % p);
      DivModStep(a, k);
    }
  }

  /** `a & (1 << k)` is non-zero exactly when bit k of a is set. */
  lemma {:induction false} AndBit(a: nat, k: nat)
    ensures And(a, Pow2(k)) != 0 <==> Bit(a, k)
  {
    if a == 0 {
      ShrIsDiv(0, k);
      DivModUnique(0, Pow2(k), 0, 0);
    } else if k == 0 {
    } else {
      AndBit(a / 2, k - 1);
      assert Pow2(k) / 2 == Pow2(k - 1) && Pow2(k) % 2 == 0;
    }
  }

  /** Flipping k bits with an all-ones mask is subtraction from it. */
  lemma {:induction false} XorOnes(a: nat, k: nat)
    requires a < Pow2(k)
    ensures Xor(a, Pow2(k) - 1) == Pow2(k) - 1 - a
  {
    if k > 0 && a != 0 {
      XorOnes(a / 2, k - 1);
      assert (Pow2(k) - 1) / 2 == Pow2(k - 1) - 1;
      assert (Pow2(k) - 1) % 2 == 1;
    }
  }

  lemma Pow2Constants()
    ensures Pow2(0) == 1 && Pow2(3) == 8 && Pow2(7) == 128 && Pow2(8) == 256
    ensures Pow2(16) == 0x1_0000 && Pow2(24) == 0x100_0000 && Pow2(32) == 0x1_0000_0000
  {
    assert Pow2(16) == 0x1_0000;
    Pow2Add(16, 16);
  }

  lemma Pow2Wide()
    ensures Pow2(31) == 0x8000_0000 && Pow2(64) == 0x1_0000_0000_0000_0000
  {
    Pow2Constants();
    Pow2Add(32, 32);
    Pow2Add(1, 31);
  }
}
