/** Swift's 64-bit `Int` arithmetic as used by hashing: two's-complement wrap-around,
    wrapping multiplication `&*` and bitwise exclusive or `^`. */
module Int64 {

  const Modulus: int := 0x1_0000_0000_0000_0000
  const Half: int := 0x8000_0000_0000_0000

  predicate IsInt64(n: int) {
    -Half <= n < Half
  }

  function Pow2(w: nat): (r: nat)
    ensures r > 0
  {
    if w == 0 then 1 else 2 * Pow2(w - 1)
  }

  /** The 64-bit pattern of `n`, read as an unsigned number. */
  function Unsigned(n: int): (u: nat)
    ensures u < Modulus
  {
    n % Modulus
  }

  /** The `Int` whose 64-bit pattern is `u`. */
  function Signed(u: nat): (n: int)
    requires u < Modulus
    ensures IsInt64(n) && Unsigned(n) == u
  {
    if u < Half then u else u - Modulus
  }

  /** `a &* b`: the product wrapped to 64 bits. */
  function WrappingMul(a: int, b: int): (r: int)
    ensures IsInt64(r)
    ensures Unsigned(r) == (a * b) % Modulus
    ensures IsInt64(a * b) ==> r == a * b
  {
    Signed((a * b) % Modulus)
  }

  /** Bitwise exclusive or of the low `width` bits of `a` and `b`. */
  function BitXor(a: nat, b: nat, width: nat): nat
    decreases width
  {
    if width == 0 then 0
    else (if a % 2 == b % 2 then 0 else 1) + 2 * BitXor(a / 2, b / 2, width - 1)
  }

  /** `a ^ b` on 64-bit integers. */
  function Xor(a: int, b: int): (r: int)
    ensures IsInt64(r)
    ensures Unsigned(r) == BitXor(Unsigned(a), Unsigned(b), 64)
  {
    Pow2Width();
    BitXorBound(Unsigned(a), Unsigned(b), 64);
    Signed(BitXor(Unsigned(a), Unsigned(b), 64))
  }

  lemma {:induction false} Pow2Add(a: nat, b: nat)
    ensures Pow2(a + b) == Pow2(a) * Pow2(b)
    decreases a
  {
    if a > 0 {
      Pow2Add(a - 1, b);
    }
  }

  lemma Pow2Width()
    ensures Pow2(64) == Modulus
  {
    assert Pow2(8) == 256;
    Pow2Add(8, 8);
    Pow2Add(16, 16);
    Pow2Add(32, 32);
  }

  lemma {:induction false} BitXorBound(a: nat, b: nat, width: nat)
    ensures BitXor(a, b, width) < Pow2(width)
    decreases width
  {
    if width > 0 {
      BitXorBound(a / 2, b / 2, width - 1);
    }
  }

  /** Exclusive or with a fixed value is one-to-one on `width`-bit numbers. */
  lemma {:induction false} BitXorCancel(a: nat, x: nat, y: nat, width: nat)
    requires x < Pow2(width) && y < Pow2(width)
    requires BitXor(a, x, width) == BitXor(a, y, width)
    ensures x == y
    decreases width
  {
    if width > 0 {
      var bitX := if a % 2 == x % 2 then 0 else 1;
      var bitY := if a % 2 == y % 2 then 0 else 1;
      assert bitX == bitY;
      BitXorCancel(a / 2, x / 2, y / 2, width - 1);
    }
  }

  /** Exclusive or with zero on the left leaves a `width`-bit number as it is. */
  lemma {:induction false} BitXorZero(x: nat, width: nat)
    requires x < Pow2(width)
    ensures BitXor(0, x, width) == x && BitXor(x, 0, width) == x
    decreases width
  {
    if width > 0 {
      BitXorZero(x / 2, width - 1);
    }
  }

  /** `h ^ x == h ^ y` only when `x` and `y` have the same 64-bit pattern. */
  lemma XorCancel(h: int, x: int, y: int)
    requires Xor(h, x) == Xor(h, y)
    ensures Unsigned(x) == Unsigned(y)
  {
    Pow2Width();
    BitXorBound(Unsigned(h), Unsigned(x), 64);
    BitXorBound(Unsigned(h), Unsigned(y), 64);
    assert BitXor(Unsigned(h), Unsigned(x), 64) == Unsigned(Xor(h, x));
    BitXorCancel(Unsigned(h), Unsigned(x), Unsigned(y), 64);
  }

  /** `0 ^ x == x` and `x ^ 0 == x` for every `Int`. */
  lemma XorZero(x: int)
    requires IsInt64(x)
    ensures Xor(0, x) == x && Xor(x, 0) == x
  {
    Pow2Width();
    var u := Unsigned(x);
    assert Unsigned(0) == 0;
    BitXorZero(u, 64);
    assert Xor(0, x) == Signed(u) && Xor(x, 0) == Signed(u);
    UnsignedInjective(Signed(u), x);
  }

  lemma {:induction false} BitXorSelf(a: nat, width: nat)
    ensures BitXor(a, a, width) == 0
    decreases width
  {
    if width > 0 {
      BitXorSelf(a / 2, width - 1);
    }
  }

  /** `x ^ x == 0`: every bit cancels, which no arithmetic combination such as `&+` does. */
  lemma XorSelf(x: int)
    ensures Xor(x, x) == 0
  {
    BitXorSelf(Unsigned(x), 64);
  }

  /** Exclusive or with the same value twice gives back a `width`-bit number. */
  lemma {:induction false} BitXorInvolution(a: nat, t: nat, width: nat)
    requires t < Pow2(width)
    ensures BitXor(a, BitXor(a, t, width), width) == t
    decreases width
  {
    if width > 0 {
      var x := BitXor(a, t, width);
      var rest := BitXor(a / 2, t / 2, width - 1);
      var bit := if a % 2 == t % 2 then 0 else 1;
      assert x == bit + 2 * rest;
      assert x % 2 == bit && x / 2 == rest;
      BitXorInvolution(a / 2, t / 2, width - 1);
    }
  }

  /** `h ^ (h ^ t) == t` for every `Int` `t`. */
  lemma XorInvolution(h: int, t: int)
    requires IsInt64(t)
    ensures Xor(h, Xor(h, t)) == t
  {
    Pow2Width();
    BitXorInvolution(Unsigned(h), Unsigned(t), 64);
    UnsignedInjective(Xor(h, Xor(h, t)), t);
  }

  /** Two 64-bit integers with the same bit pattern are the same integer. */
  lemma UnsignedInjective(a: int, b: int)
    requires IsInt64(a) && IsInt64(b)
    ensures Unsigned(a) == Unsigned(b) ==> a == b
  {
  }

  lemma {:induction false} ModAddMultiple(a: int, k: int)
    ensures (a + k * Modulus) % Modulus == a % Modulus
  {
    var q, r := a / Modulus, a % Modulus;
    assert a == q * Modulus + r;
    assert a + k * Modulus == (q + k) * Modulus + r;
  }

  lemma {:induction false} ModMulLeft(x: int, c: int)
    ensures ((x % Modulus) * c) % Modulus == (x * c) % Modulus
  {
    var q := x / Modulus;
    assert x == q * Modulus + x % Modulus;
    assert x * c == (x % Modulus) * c + (q * c) * Modulus;
    ModAddMultiple((x % Modulus) * c, q * c);
  }

  /** The multiplier of Swift's course hash. */
  const HashPrime: int := 16777619
  /** Its inverse modulo 2^64: `HashPrime * HashPrimeInverse == 1 + 8894049 * 2^64`. */
  const HashPrimeInverse: int := 9778875398352553115

  /** Wrapping multiplication by the (odd) hash multiplier loses no bits. */
  lemma WrappingMulByHashPrimeInjective(a: int, b: int)
    ensures WrappingMul(a, HashPrime) == WrappingMul(b, HashPrime) ==> Unsigned(a) == Unsigned(b)
  {
    if WrappingMul(a, HashPrime) == WrappingMul(b, HashPrime) {
      assert (a * HashPrime) % Modulus == (b * HashPrime) % Modulus;
      UndoHashPrime(a);
      UndoHashPrime(b);
    }
  }

  lemma UndoHashPrime(a: int)
    ensures (((a * HashPrime) % Modulus) * HashPrimeInverse) % Modulus == a % Modulus
  {
    ModMulLeft(a * HashPrime, HashPrimeInverse);
    assert HashPrime * HashPrimeInverse == 1 + 8894049 * Modulus;
    assert (a * HashPrime) * HashPrimeInverse == a + (a * 8894049) * Modulus;
    ModAddMultiple(a, a * 8894049);
  }

  /** Every `Int` is some `Int` times the hash multiplier, wrapped: multiply by its inverse. */
  lemma WrappingMulByHashPrimeSurjective(m: int)
    requires IsInt64(m)
    ensures exists n :: IsInt64(n) && WrappingMul(n, HashPrime) == m
  {
    var u := Unsigned(m);
    var n := Signed((u * HashPrimeInverse) % Modulus);
    ModMulLeft(n, HashPrime);
    ModMulLeft(u * HashPrimeInverse, HashPrime);
    assert HashPrime * HashPrimeInverse == 1 + 8894049 * Modulus;
    assert (u * HashPrimeInverse) * HashPrime == u + (u * 8894049) * Modulus;
    ModAddMultiple(u, u * 8894049);
    assert Unsigned(WrappingMul(n, HashPrime)) == u;
    UnsignedInjective(WrappingMul(n, HashPrime), m);
  }
}
