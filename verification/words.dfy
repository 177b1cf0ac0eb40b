/** Unsigned 64-bit words as integers in [0, 2^64), with the C++ operators on them:
    wrapping +, *, shifts, `| 1`, and bitwise exclusive or defined bit by bit. */
module Words {

  const Modulus: int := 0x1_0000_0000_0000_0000

  /** A u64 value. */
  type u64 = x: int | 0 <= x < Modulus

  // ---- Arithmetic helpers ----

  function Pow2(k: nat): (p: nat)
    ensures p >= 1
  {
    if k == 0 then 1 else 2 * Pow2(k - 1)
  }

  lemma {:induction false} Pow2Add(a: nat, b: nat)
    ensures Pow2(a + b) == Pow2(a) * Pow2(b)
    decreases a
  {
    if a > 0 {
      Pow2Add(a - 1, b);
    }
  }

  lemma Pow2Values()
    ensures Pow2(1) == 2
    ensures Pow2(8) == 0x100
    ensures Pow2(32) == 0x1_0000_0000
    ensures Pow2(63) == Modulus / 2
    ensures Pow2(64) == Modulus
  {
    assert Pow2(2) == 4;
    Pow2Add(2, 2);
    Pow2Add(4, 4);
    assert Pow2(8) == 0x100;
    Pow2Add(8, 8);
    Pow2Add(16, 16);
    assert Pow2(32) == 0x1_0000_0000;
    Pow2Add(32, 32);
    assert Pow2(64) == Modulus;
  }

  lemma DivMod2(x: int, q: int, r: int)
    requires x == 2 * q + r && 0 <= r < 2
    ensures x / 2 == q && x % 2 == r
  {
  }

  lemma MulDouble(x: int, p: int)
    ensures x * (2 * p) == 2 * (x * p)
  {
  }

  lemma MulAtLeast(m: int, d: int)
    requires m >= 0 && d >= 1
    ensures m * d >= m
  {
    assert m * d == m * (d - 1) + m;
  }

  /** Euclidean division is unique. */
  lemma DivModUnique(x: int, m: int, q: int, r: int)
    requires m > 0 && x == m * q + r && 0 <= r < m
    ensures x / m == q && x % m == r
  {
    var q', r' := x / m, x % m;
    assert x == m * q' + r';
    assert m * (q - q') == r' - r;
    if q > q' {
      MulAtLeast(m, q - q');
    } else if q < q' {
      assert m * (q' - q) == r - r';
      MulAtLeast(m, q' - q);
    }
  }

  // ---- Exclusive or on naturals ----

  /** The exclusive or of the lowest bits of a and b. */
  function LowXor(a: nat, b: nat): nat
  {
    if a % 2 == b % 2 then 0 else 1
  }

  /** Bitwise exclusive or of two naturals, least significant bit first. */
  function BitXor(a: nat, b: nat): nat
    decreases a + b
  {
    if a == 0 then b
    else if b == 0 then a
    else 2 * BitXor(a / 2, b / 2) + LowXor(a, b)
  }

  lemma BitXorSplitLeftZero(b: nat)
    ensures BitXor(0, b) == 2 * BitXor(0, b / 2) + LowXor(0, b)
  {
  }

  lemma BitXorSplitRightZero(a: nat)
    ensures BitXor(a, 0) == 2 * BitXor(a / 2, 0) + LowXor(a, 0)
  {
  }

  lemma BitXorSplitNonZero(a: nat, b: nat)
    requires a != 0 && b != 0
    ensures BitXor(a, b) == 2 * BitXor(a / 2, b / 2) + LowXor(a, b)
  {
  }

  /** Every exclusive or splits into its low bit and the exclusive or of the remaining bits. */
  lemma BitXorSplit(a: nat, b: nat)
    ensures BitXor(a, b) == 2 * BitXor(a / 2, b / 2) + LowXor(a, b)
    ensures BitXor(a, b) / 2 == BitXor(a / 2, b / 2)
    ensures BitXor(a, b) % 2 == LowXor(a, b)
  {
    if a == 0 {
      BitXorSplitLeftZero(b);
    } else if b == 0 {
      BitXorSplitRightZero(a);
    } else {
      BitXorSplitNonZero(a, b);
    }
    DivMod2(BitXor(a, b), BitXor(a / 2, b / 2), LowXor(a, b));
  }

  lemma {:induction false} BitXorBelow(a: nat, b: nat, k: nat)
    requires a < Pow2(k) && b < Pow2(k)
    ensures BitXor(a, b) < Pow2(k)
    decreases k
  {
    if k > 0 && a != 0 && b != 0 {
      BitXorBelow(a / 2, b / 2, k - 1);
    }
  }

  lemma {:induction false} BitXorCommutative(a: nat, b: nat)
    ensures BitXor(a, b) == BitXor(b, a)
    decreases a + b
  {
    if a != 0 && b != 0 {
      BitXorCommutative(a / 2, b / 2);
    }
  }

  lemma {:induction false} BitXorSelf(a: nat)
    ensures BitXor(a, a) == 0
    decreases a
  {
    if a != 0 {
      BitXorSelf(a / 2);
    }
  }

  lemma {:induction false} BitXorAssociative(a: nat, b: nat, c: nat)
    ensures BitXor(BitXor(a, b), c) == BitXor(a, BitXor(b, c))
    decreases a + b + c
  {
    if a + b + c != 0 {
      var ab := BitXor(a, b);
      var bc := BitXor(b, c);
      BitXorSplit(a, b);
      BitXorSplit(b, c);
      BitXorSplit(ab, c);
      BitXorSplit(a, bc);
      BitXorAssociative(a / 2, b / 2, c / 2);
    }
  }

  /** The number whose low k bits are those of l and whose remaining bits are h. */
  function Concat(h: nat, l: nat, k: nat): nat
  {
    if k == 0 then h else 2 * Concat(h, l / 2, k - 1) + l % 2
  }

  lemma {:induction false} ConcatValue(h: nat, l: nat, k: nat)
    requires l < Pow2(k)
    ensures Concat(h, l, k) == h * Pow2(k) + l
    decreases k
  {
    if k > 0 {
      ConcatValue(h, l / 2, k - 1);
      MulDouble(h, Pow2(k - 1));
    }
  }

  /** Exclusive or acts separately on the low k bits and the bits above. */
  lemma {:induction false} BitXorConcat(ah: nat, al: nat, bh: nat, bl: nat, k: nat)
    ensures BitXor(Concat(ah, al, k), Concat(bh, bl, k)) == Concat(BitXor(ah, bh), BitXor(al, bl), k)
    decreases k
  {
    if k > 0 {
      var a := Concat(ah, al, k);
      var b := Concat(bh, bl, k);
      DivMod2(a, Concat(ah, al / 2, k - 1), al % 2);
      DivMod2(b, Concat(bh, bl / 2, k - 1), bl % 2);
      BitXorSplit(a, b);
      BitXorSplit(al, bl);
      BitXorConcat(ah, al / 2, bh, bl / 2, k - 1);
    }
  }

  /** A value and its k-bit complement have no bit in common. */
  lemma {:induction false} BitXorComplement(a: nat, k: nat)
    requires a < Pow2(k)
    ensures BitXor(a, Pow2(k) - 1 - a) == Pow2(k) - 1
    decreases k
  {
    if k > 0 {
      var p' := Pow2(k - 1);
      var b := Pow2(k) - 1 - a;
      DivMod2(a, a / 2, a % 2);
      DivMod2(b, p' - 1 - a / 2, 1 - a % 2);
      BitXorSplit(a, b);
      BitXorComplement(a / 2, k - 1);
    }
  }

  // ---- The word operators ----

  /** a ^ b */
  function Xor(a: u64, b: u64): u64
  {
    Pow2Values();
    BitXorBelow(a, b, 64);
    BitXor(a, b)
  }

  /** a + b, wrapping */
  function Add(a: u64, b: u64): u64
  {
    (a + b) % Modulus
  }

  /** Wrapping addition subtracts 2^64 exactly when the sum overflows. */
  lemma AddValue(a: u64, b: u64)
    ensures a + b < Modulus ==> Add(a, b) == a + b
    ensures a + b >= Modulus ==> Add(a, b) == a + b - Modulus
  {
    if a + b < Modulus {
      DivModUnique(a + b, Modulus, 0, a + b);
    } else {
      DivModUnique(a + b, Modulus, 1, a + b - Modulus);
    }
  }

  /** a * b, wrapping */
  function Mul(a: u64, b: u64): u64
  {
    (a * b) % Modulus
  }

  lemma MulZero(b: u64)
    ensures Mul(0, b) == 0
  {
    assert 0 * b == 0;
  }

  /** a << s: the bits shifted past bit 63 are lost */
  function Shl(a: u64, s: nat): u64
  {
    (a * Pow2(s)) % Modulus
  }

  /** a >> s */
  function Shr(a: u64, s: nat): u64
  {
    ShrNat(a, s)
  }

  /** Halving s times: the logical right shift of a natural number. */
  function ShrNat(x: nat, s: nat): (r: nat)
    ensures r <= x
  {
    if s == 0 then x else ShrNat(x / 2, s - 1)
  }

  /** a | 1 */
  function OrOne(a: u64): u64
  {
    if a % 2 == 0 then a + 1 else a
  }

  /** The conversion (u64)v of a C++ integer: reduction modulo 2^64. */
  function FromInt(v: int): u64
  {
    v % Modulus
  }

  // ---- Laws of the word operators ----

  lemma XorCommutative(a: u64, b: u64)
    ensures Xor(a, b) == Xor(b, a)
  {
    BitXorCommutative(a, b);
  }

  lemma XorAssociative(a: u64, b: u64, c: u64)
    ensures Xor(Xor(a, b), c) == Xor(a, Xor(b, c))
  {
    BitXorAssociative(a, b, c);
  }

  lemma XorZero(a: u64)
    ensures Xor(a, 0) == a && Xor(0, a) == a
  {
  }

  lemma XorSelf(a: u64)
    ensures Xor(a, a) == 0
  {
    BitXorSelf(a);
  }

  /** Xoring the same word twice cancels. */
  lemma XorCancel(a: u64, b: u64)
    ensures Xor(Xor(a, b), b) == a
  {
    XorAssociative(a, b, b);
    XorSelf(b);
  }

  lemma XorInjective(a: u64, b: u64, c: u64)
    ensures Xor(a, c) == Xor(b, c) <==> a == b
  {
    XorCancel(a, c);
    XorCancel(b, c);
  }

  /** Two words are equal exactly when their xor is zero. */
  lemma XorZeroIff(a: u64, b: u64)
    ensures Xor(a, b) == 0 <==> a == b
  {
    XorSelf(b);
    XorInjective(a, b, b);
  }

  /** (a ^ c) ^ (b ^ c) == a ^ b */
  lemma XorCommonCancels(a: u64, b: u64, c: u64)
    ensures Xor(Xor(a, c), Xor(b, c)) == Xor(a, b)
  {
    XorAssociative(a, c, Xor(b, c));
    XorCommutative(b, c);
    XorAssociative(c, c, b);
    XorSelf(c);
  }

  /** (a ^ b) ^ (c ^ d) == (a ^ c) ^ (b ^ d) */
  lemma XorShuffle(a: u64, b: u64, c: u64, d: u64)
    ensures Xor(Xor(a, b), Xor(c, d)) == Xor(Xor(a, c), Xor(b, d))
  {
    XorAssociative(a, b, Xor(c, d));
    XorAssociative(b, c, d);
    XorCommutative(b, c);
    XorAssociative(c, b, d);
    XorAssociative(a, c, Xor(b, d));
  }

  /** Xor of a multiple of 2^k with a word below 2^k is plain addition. */
  lemma XorDisjoint(c: nat, b: u64, k: nat)
    requires c * Pow2(k) < Modulus && b < Pow2(k)
    ensures Xor(c * Pow2(k), b) == c * Pow2(k) + b
  {
    BitXorConcat(c, 0, 0, b, k);
    ConcatValue(c, 0, k);
    ConcatValue(0, b, k);
    ConcatValue(c, b, k);
    assert BitXor(c, 0) == c;
    assert BitXor(0, b) == b;
  }

  lemma XorComplement(a: u64)
    ensures Xor(a, Modulus - 1 - a) == Modulus - 1
  {
    Pow2Values();
    BitXorComplement(a, 64);
  }

  const Half: nat := 0x8000_0000_0000_0000

  /** Bit 63 of a word, and the 63 bits below it. */
  function TopBit(a: u64): nat
  {
    if a >= Half then 1 else 0
  }

  function LowBits(a: u64): nat
  {
    if a >= Half then a - Half else a
  }

  lemma ConcatHalf(h: nat, l: nat)
    requires h < 2 && l < Half
    ensures Concat(h, l, 63) == if h == 0 then l else Half + l
  {
    Pow2Values();
    ConcatValue(h, l, 63);
  }

  /** Shifting left by one keeps the low 63 bits, doubled. */
  lemma ShlOneLow(a: u64)
    ensures Shl(a, 1) == 2 * LowBits(a)
  {
    assert Pow2(1) == 2;
    if a >= Half {
      DivModUnique(a * 2, Modulus, 1, 2 * LowBits(a));
    } else {
      DivModUnique(a * 2, Modulus, 0, 2 * LowBits(a));
    }
  }

  /** Exclusive or acts separately on bit 63 and on the bits below it. */
  lemma XorSplitsAtTop(a: u64, b: u64)
    ensures TopBit(Xor(a, b)) == BitXor(TopBit(a), TopBit(b))
    ensures LowBits(Xor(a, b)) == BitXor(LowBits(a), LowBits(b))
  {
    var ah, al := TopBit(a), LowBits(a);
    var bh, bl := TopBit(b), LowBits(b);
    var x, y := BitXor(ah, bh), BitXor(al, bl);
    Pow2Values();
    BitXorBelow(ah, bh, 1);
    BitXorBelow(al, bl, 63);
    ConcatHalf(ah, al);
    ConcatHalf(bh, bl);
    ConcatHalf(x, y);
    assert Concat(ah, al, 63) == a;
    assert Concat(bh, bl, 63) == b;
    BitXorConcat(ah, al, bh, bl, 63);
    assert x < 2 && y < Half;
    assert Xor(a, b) == Concat(x, y, 63);
  }

  /** Shifting left by one distributes over exclusive or. */
  lemma ShlOneXor(a: u64, b: u64)
    ensures Shl(Xor(a, b), 1) == Xor(Shl(a, 1), Shl(b, 1))
  {
    var al, bl := LowBits(a), LowBits(b);
    XorSplitsAtTop(a, b);
    ShlOneLow(Xor(a, b));
    ShlOneLow(a);
    ShlOneLow(b);
    BitXorSplit(2 * al, 2 * bl);
    DivMod2(2 * al, al, 0);
    DivMod2(2 * bl, bl, 0);
  }


  /** Shifting left by one discards the top bit. */
  lemma ShlOneDropsTopBit(a: u64)
    requires a < Half
    ensures Shl(a + Half, 1) == Shl(a, 1)
  {
    ShlOneLow(a);
    ShlOneLow(a + Half);
  }

  lemma MulAssoc(x: int, y: int, z: int)
    ensures (x * y) * z == x * (y * z)
  {
  }

  lemma MulSubDistrib(x: int, y: int, z: int)
    ensures (x - y) * z == x * z - y * z
  {
  }

  lemma MulAddOne(x: int, y: int, z: int)
    ensures x * (y * z + 1) == y * (x * z) + x
  {
  }

  /** Multiplication by a constant c is undone by its inverse cInv modulo 2^64. */
  lemma MulInverse(a: u64, c: u64, cInv: u64)
    requires (c * cInv) % Modulus == 1
    ensures Mul(Mul(a, c), cInv) == a
  {
    var p := a * c;
    var q, r := p / Modulus, p % Modulus;
    assert p == Modulus * q + r;
    var t := c * cInv;
    var s := t / Modulus;
    assert t == Modulus * s + 1;
    MulAssoc(a, c, cInv);
    MulSubDistrib(p, Modulus * q, cInv);
    MulAssoc(Modulus, q, cInv);
    MulAddOne(a, Modulus, s);
    assert r * cInv == a + Modulus * (a * s - q * cInv);
    DivModUnique(r * cInv, Modulus, a * s - q * cInv, a);
  }

  // ---- Right shifts ----

  /** Dividing by 2^(k+1) is halving, then dividing by 2^k. */
  lemma DivPow2Step(x: nat, k: nat)
    ensures x / Pow2(k + 1) == (x / 2) / Pow2(k)
  {
    var p := Pow2(k);
    var q, r := (x / 2) / p, (x / 2) % p;
    assert x / 2 == p * q + r;
    MulDouble(q, p);
    assert x == (2 * p) * q + (2 * r + x % 2);
    DivModUnique(x, 2 * p, q, 2 * r + x % 2);
  }

  /** Repeated halving is division by a power of two. */
  lemma {:induction false} ShrNatIsDivision(x: nat, s: nat)
    ensures ShrNat(x, s) == x / Pow2(s)
    decreases s
  {
    if s > 0 {
      ShrNatIsDivision(x / 2, s - 1);
      DivPow2Step(x, s - 1);
    }
  }

  /** Shifting right distributes over exclusive or. */
  lemma {:induction false} BitXorShr(a: nat, b: nat, s: nat)
    ensures ShrNat(BitXor(a, b), s) == BitXor(ShrNat(a, s), ShrNat(b, s))
    decreases s
  {
    if s > 0 {
      BitXorSplit(a, b);
      BitXorShr(a / 2, b / 2, s - 1);
    }
  }

  /** Two right shifts add up. */
  lemma {:induction false} ShrShrNat(x: nat, s: nat, t: nat)
    ensures ShrNat(ShrNat(x, s), t) == ShrNat(x, s + t)
    decreases s
  {
    if s > 0 {
      ShrShrNat(x / 2, s - 1, t);
    }
  }

  /** Shifting a number below 2^k right by k or more leaves nothing. */
  lemma {:induction false} ShrNatAll(x: nat, k: nat, s: nat)
    requires x < Pow2(k) && s >= k
    ensures ShrNat(x, s) == 0
    decreases s
  {
    if s > 0 {
      if k > 0 {
        ShrNatAll(x / 2, k - 1, s - 1);
      } else {
        ShrNatAll(x / 2, 0, s - 1);
      }
    }
  }

  lemma ShrXor(a: u64, b: u64, s: nat)
    ensures Shr(Xor(a, b), s) == Xor(Shr(a, s), Shr(b, s))
  {
    BitXorShr(a, b, s);
  }

  lemma ShrShr(a: u64, s: nat, t: nat)
    ensures Shr(Shr(a, s), t) == Shr(a, s + t)
  {
    ShrShrNat(a, s, t);
  }

  /** A shift by 64 or more positions leaves nothing. */
  lemma ShrAll(a: u64, s: nat)
    requires s >= 64
    ensures Shr(a, s) == 0
  {
    Pow2Values();
    ShrNatAll(a, 64, s);
  }

  /** The xorshift step x ^ (x >> s) of SplitMix64. */
  function XorShift(x: u64, s: nat): u64
  {
    Xor(x, Shr(x, s))
  }

  /** Its inverse when 3s >= 64: y ^ (y >> s) ^ (y >> 2s). */
  function UnXorShift(y: u64, s: nat): u64
  {
    Xor(Xor(y, Shr(y, s)), Shr(y, 2 * s))
  }

  lemma XorShiftInverse(x: u64, s: nat)
    requires 3 * s >= 64
    ensures UnXorShift(XorShift(x, s), s) == x
  {
    var a, b, c := Shr(x, s), Shr(x, 2 * s), Shr(x, 3 * s);
    var y := XorShift(x, s);
    ShrXor(x, a, s);
    ShrShr(x, s, s);
    ShrXor(x, a, 2 * s);
    ShrShr(x, s, 2 * s);
    ShrAll(x, 3 * s);
    assert Shr(y, s) == Xor(a, b);
    assert Shr(y, 2 * s) == Xor(b, c);
    XorZero(b);
    // (x ^ a) ^ (a ^ b) == x ^ b, then (x ^ b) ^ b == x
    XorCommonCancels(x, b, a);
    XorCommutative(a, b);
    XorCancel(x, b);
  }

  /** a - b, wrapping */
  function Sub(a: u64, b: u64): u64
  {
    (a - b) % Modulus
  }

  lemma AddSub(a: u64, c: u64)
    ensures Sub(Add(a, c), c) == a
  {
    if a + c < Modulus {
      DivModUnique(a + c, Modulus, 0, a + c);
      DivModUnique(a, Modulus, 0, a);
    } else {
      DivModUnique(a + c, Modulus, 1, a + c - Modulus);
      DivModUnique(a - Modulus, Modulus, -1, a);
    }
  }
}
