/** Bit operations on words as numbers, and the arithmetic of asm/bitsperlong.h: fls64(), the
    __ffs() written on top of it, and the binary gcd(). */
module Words {
  import opened Bits

  function Pow2(n: nat): (p: nat)
    ensures p >= 1
  {
    if n == 0 then 1 else 2 * Pow2(n - 1)
  }

  const WIDTH: nat := 64

  predicate Word?(x: nat) { x < Pow2(WIDTH) }

  /** a | b */
  function Or(a: nat, b: nat): nat
    decreases a + b
  {
    if a == 0 then b else if b == 0 then a
    else (if a % 2 == 1 || b % 2 == 1 then 1 else 0) + 2 * Or(a / 2, b / 2)
  }

  /** a & b */
  function And(a: nat, b: nat): nat {
    if a == 0 || b == 0 then 0
    else (if a % 2 == 1 && b % 2 == 1 then 1 else 0) + 2 * And(a / 2, b / 2)
  }

  /** -a in a word of n bits. */
  function Neg(a: nat, n: nat): nat
    requires a < Pow2(n)
  {
    if a == 0 then 0 else Pow2(n) - a
  }

  /** The lowest set bit, as a number. */
  function LowBit(x: nat): (r: nat)
    requires x > 0
    ensures r > 0
  {
    if x % 2 == 1 then 1 else 2 * LowBit(x / 2)
  }

  lemma {:induction false} AndComplement(x: nat, n: nat)
    requires x < Pow2(n)
    ensures And(x, Pow2(n) - 1 - x) == 0
    decreases n
  {
    if x > 0 && Pow2(n) - 1 - x > 0 {
      AndComplement(x / 2, n - 1);
      assert (Pow2(n) - 1 - x) / 2 == Pow2(n - 1) - 1 - x / 2;
    }
  }

  /** r &= -r keeps the lowest set bit. */
  lemma {:induction false} AndNegIsLowBit(x: nat, n: nat)
    requires 0 < x < Pow2(n)
    ensures And(x, Neg(x, n)) == LowBit(x)
    decreases n
  {
    if x % 2 == 1 {
      assert (Pow2(n) - x) % 2 == 1 && (Pow2(n) - x) / 2 == Pow2(n - 1) - 1 - x / 2;
      AndComplement(x / 2, n - 1);
    } else {
      AndNegIsLowBit(x / 2, n - 1);
      assert (Pow2(n) - x) / 2 == Pow2(n - 1) - x / 2;
    }
  }

  /** k is a power of two. */
  predicate PowerOf2(k: nat) {
    k > 0 && (k == 1 || (k % 2 == 0 && PowerOf2(k / 2)))
  }

  lemma {:induction false} LowBitPower(x: nat)
    requires x > 0
    ensures PowerOf2(LowBit(x))
  {
    if x % 2 == 0 { LowBitPower(x / 2); }
  }

  lemma MulGap(a: nat, b: nat, p: nat)
    ensures a < b ==> (a + 1) * p <= b * p
  {
    if a < b { assert b * p == (a + 1) * p + (b - a - 1) * p; }
  }

  /** For a multiple of a power of two, testing that bit asks whether the multiple is odd. */
  lemma {:induction false} AndTestsBit(q: nat, r: nat)
    requires PowerOf2(r)
    ensures And(q * r, r) == 0 <==> q % 2 == 0
    decreases r
  {
    if r == 1 {
      assert And(q, 1) == (if q > 0 && q % 2 == 1 then 1 else 0) + 2 * And(q / 2, 0);
    } else {
      AndTestsBit(q, r / 2);
      assert q * r == 2 * (q * (r / 2));
    }
  }

  /** The lowest set bit of a | b divides both, and one of the quotients is odd. */
  lemma {:induction false} LowBitOr(a: nat, b: nat) returns (A: nat, B: nat)
    requires a > 0 && b > 0
    ensures Or(a, b) > 0
    ensures a == A * LowBit(Or(a, b)) && b == B * LowBit(Or(a, b)) && (A % 2 == 1 || B % 2 == 1)
    decreases a + b
  {
    if a % 2 == 0 && b % 2 == 0 {
      A, B := LowBitOr(a / 2, b / 2);
      var r := LowBit(Or(a / 2, b / 2));
      assert Or(a, b) == 2 * Or(a / 2, b / 2);
      LowBitDouble(Or(a / 2, b / 2));
      Double(a, A, r);
      Double(b, B, r);
    } else {
      A, B := a, b;
      assert Or(a, b) % 2 == 1;
    }
  }

  lemma LowBitDouble(x: nat)
    requires x > 0
    ensures LowBit(2 * x) == 2 * LowBit(x)
  {
  }

  lemma Double(x: nat, q: nat, r: nat)
    requires x % 2 == 0 && x / 2 == q * r
    ensures x == q * (2 * r)
  {
  }

  lemma {:induction false} OrWord(a: nat, b: nat, n: nat)
    requires a < Pow2(n) && b < Pow2(n)
    ensures Or(a, b) < Pow2(n)
    decreases n
  {
    if a > 0 && b > 0 { OrWord(a / 2, b / 2, n - 1); }
  }

  // ----- divisibility

  ghost predicate Divides(d: nat, x: nat) {
    exists k: nat :: k * d == x
  }

  ghost predicate Common(d: nat, a: nat, b: nat) { Divides(d, a) && Divides(d, b) }

  lemma DividesPlus(d: nat, x: nat, y: nat)
    requires Divides(d, x) && Divides(d, y)
    ensures Divides(d, x + y)
  {
    var j: nat :| j * d == x;
    var k: nat :| k * d == y;
    assert (j + k) * d == x + y;
  }

  lemma DividesMinus(d: nat, x: nat, y: nat)
    requires Divides(d, x) && Divides(d, y) && y <= x
    ensures Divides(d, x - y)
  {
    var j: nat :| j * d == x;
    var k: nat :| k * d == y;
    if d == 0 {
      assert 0 * d == x - y;
    } else {
      MulGap(j, k, d);
      assert (j - k) * d == x - y;
    }
  }

  lemma DividesTimes(d: nat, x: nat, c: nat)
    requires Divides(d, x)
    ensures Divides(d, c * x)
  {
    var j: nat :| j * d == x;
    assert (c * j) * d == c * x;
  }

  /** Halving a loses no common divisor when b is an odd multiple of r and a / 2 a multiple. */
  lemma HalveCommon(d: nat, a: nat, b: nat, r: nat, h: nat, q: nat)
    requires a == 2 * (h * r) && b == (2 * q + 1) * r
    ensures Common(d, a, b) <==> Common(d, h * r, b)
  {
    if Common(d, a, b) {
      DividesTimes(d, b, h);
      DividesTimes(d, a, q);
      assert h * b == q * a + h * r by {
        assert h * ((2 * q + 1) * r) == 2 * q * h * r + h * r;
        assert q * (2 * (h * r)) == 2 * q * h * r;
      }
      DividesMinus(d, h * b, q * a);
    }
    if Common(d, h * r, b) {
      DividesTimes(d, h * r, 2);
    }
  }

  lemma SubtractCommon(d: nat, a: nat, b: nat)
    requires b <= a
    ensures Common(d, a, b) <==> Common(d, a - b, b)
  {
    if Common(d, a, b) { DividesMinus(d, a, b); }
    if Common(d, a - b, b) { DividesPlus(d, a - b, b); }
  }

  /** g is the greatest common divisor: a common divisor that every other one divides. */
  ghost predicate IsGcd(g: nat, a: nat, b: nat) {
    Common(g, a, b) && forall d: nat :: Common(d, a, b) ==> Divides(d, g)
  }

  lemma DividesSelf(x: nat)
    ensures Divides(x, x) && Divides(x, 0)
  {
    assert 1 * x == x && 0 * x == 0;
  }

  // ----- the algorithms

  /** fls64: the number of the highest set bit, from 1; 0 for 0. */
  method Fls64(mask0: nat) returns (bit: nat)
    requires Word?(mask0)
    ensures bit == 0 <==> mask0 == 0
    ensures bit > 0 ==> Pow2(bit - 1) <= mask0 < Pow2(bit)
  {
    if mask0 == 0 { return 0; }
    var mask := mask0;
    bit := 1;
    while mask != 1
      invariant mask > 0 && bit >= 1
      invariant mask * Pow2(bit - 1) <= mask0 < (mask + 1) * Pow2(bit - 1)
      decreases mask
    {
      HalfStep(mask, Pow2(bit - 1), mask0);
      mask := mask / 2;
      bit := bit + 1;
    }
  }

  lemma HalfStep(m: nat, p: nat, x: nat)
    requires m * p <= x < (m + 1) * p
    ensures m / 2 * (2 * p) <= x < (m / 2 + 1) * (2 * p)
  {
    assert m == 2 * (m / 2) + m % 2;
    assert m / 2 * (2 * p) == 2 * (m / 2) * p <= m * p;
    assert (m / 2 + 1) * (2 * p) == (2 * (m / 2) + 2) * p >= (m + 1) * p;
  }

  /** __ffs as written, fls64(x) - 1: the highest set bit. */
  method Ffs(x: nat) returns (bit: nat)
    requires Word?(x) && x > 0
    ensures Pow2(bit) <= x < Pow2(bit + 1)
  {
    bit := Fls64(x);
    bit := bit - 1;
  }

  /** The number of a row of bits, bit 0 first. */
  function WordOf(bits: seq<bool>): nat {
    if bits == [] then 0 else (if bits[0] then 1 else 0) + 2 * WordOf(bits[1..])
  }

  /** So what radix_tree_find_next_bit gets from __ffs() on a non-zero word is its highest bit. */
  lemma {:induction false} HighestIsFls(bits: seq<bool>, h: nat)
    requires h < |bits| && bits[h] && forall o: nat :: h < o < |bits| ==> !bits[o]
    ensures Pow2(h) <= WordOf(bits) < Pow2(h + 1)
    ensures Highest(bits, 0) == h
  {
    if h == 0 {
      NoBits(bits[1..]);
    } else {
      assert forall o: nat :: o < |bits[1..]| ==> bits[1..][o] == bits[o + 1];
      HighestIsFls(bits[1..], h - 1);
    }
  }

  lemma {:induction false} NoBits(bits: seq<bool>)
    requires forall o: nat :: o < |bits| ==> !bits[o]
    ensures WordOf(bits) == 0
  {
    if bits != [] { NoBits(bits[1..]); }
  }

  /** Common divisors of the arguments and of the current pair are the same. */
  ghost predicate SameCommon(a0: nat, b0: nat, a: nat, b: nat) {
    forall d: nat :: Common(d, a0, b0) <==> Common(d, a, b)
  }

  /** while (!(x & r)) x >>= 1: x becomes an odd multiple of r; y is one already if x is not. X and Y
      are the multipliers. */
  method MakeOdd(x0: nat, y: nat, r: nat, ghost X0: nat, ghost Y: nat) returns (x: nat, ghost X: nat)
    requires PowerOf2(r) && x0 == X0 * r && y == Y * r && X0 > 0 && (X0 % 2 == 1 || Y % 2 == 1)
    ensures 0 < x <= x0 && x == X * r && X % 2 == 1
    ensures SameCommon(x0, y, x, y)
  {
    x, X := x0, X0;
    while And(x, r) == 0
      invariant 0 < x <= x0 && x == X * r && X > 0 && (X % 2 == 1 || Y % 2 == 1)
      invariant SameCommon(x0, y, x, y)
      decreases x
    {
      AndTestsBit(X, r);
      Halve(x, y, r, X, Y);
      x, X := x / 2, X / 2;
    }
    AndTestsBit(X, r);
  }

  lemma Halve(x: nat, y: nat, r: nat, X: nat, Y: nat)
    requires r > 0 && x == X * r && y == Y * r && X > 0 && X % 2 == 0 && Y % 2 == 1
    ensures 0 < x / 2 < x && x / 2 == X / 2 * r && X / 2 > 0
    ensures SameCommon(x, y, x / 2, y)
  {
    var h, q := X / 2, Y / 2;
    assert x == 2 * (h * r);
    forall d: nat
      ensures Common(d, x, y) <==> Common(d, x / 2, y)
    {
      HalveCommon(d, x, y, r, h, q);
    }
  }

  /** What a -= b; a >>= 1; leaves, from the multipliers. */
  lemma Difference(a: nat, b: nat, r: nat, A: nat, B: nat) returns (H: nat)
    requires r > 0 && a == A * r && b == B * r && b < a && A % 2 == 1 && B % 2 == 1
    ensures a - b == 2 * (H * r) && H > 0
  {
    MulGap(A, B, r);
    assert A > B by { if A == B { assert false; } }
    H := (A - B) / 2;
    assert A == 2 * H + B;
    assert (2 * H + B) * r == 2 * (H * r) + B * r;
  }

  /** One round of gcd() after its comparison: subtract, halve, add the smaller back if that left an
      odd multiple, halve. T is the multiplier before the last halving. */
  lemma Round(a: nat, b: nat, r: nat, A: nat, B: nat) returns (T: nat)
    requires PowerOf2(r) && a == A * r && b == B * r && 0 < b < a && A % 2 == 1 && B % 2 == 1
    ensures var h := (a - b) / 2;
      var t := if And(h, r) != 0 then h + b else h;
      && t <= a && t == T * r && T % 2 == 0 && T > 0
      && SameCommon(a, b, t, b)
  {
    var H := Difference(a, b, r, A, B);
    AndTestsBit(H, r);
    T := if H % 2 == 1 then H + B else H;
    RoundTo(a, b, r, H, B);
  }

  lemma RoundTo(a: nat, b: nat, r: nat, H: nat, B: nat)
    requires 0 < b < a && b == B * r && B % 2 == 1 && a - b == 2 * (H * r)
    ensures var h := (a - b) / 2;
      h == H * r && h + b == (H + B) * r && h + b <= a && SameCommon(a, b, h, b) && SameCommon(a, b, h + b, b)
  {
    var h := (a - b) / 2;
    Distribute(H, B, r);
    RoundCommon(a, b, h, H, h, r, B);
    RoundCommon(a, b, h, H, h + b, r, B);
  }

  lemma Distribute(x: nat, y: nat, r: nat)
    ensures (x + y) * r == x * r + y * r
  {
  }

  lemma RoundCommon(a: nat, b: nat, h: nat, H: nat, t: nat, r: nat, B: nat)
    requires 0 < b < a && b == B * r && B % 2 == 1
    requires a - b == 2 * h && h == H * r && (t == h || t == h + b)
    ensures SameCommon(a, b, t, b)
  {
    forall d: nat
      ensures Common(d, a, b) <==> Common(d, t, b)
    {
      SubtractCommon(d, a, b);
      HalveCommon(d, a - b, b, r, H, B / 2);
      if t == h + b { SubtractCommon(d, t, b); }
    }
  }

  /** gcd(r, b) is r when r divides b. */
  lemma StopAtR(a0: nat, b0: nat, r: nat, b: nat, B: nat)
    requires b == B * r && SameCommon(a0, b0, r, b)
    ensures IsGcd(r, a0, b0)
  {
    DividesSelf(r);
    assert Common(r, r, b);
  }

  lemma StopEqual(a0: nat, b0: nat, a: nat)
    requires SameCommon(a0, b0, a, a)
    ensures IsGcd(a, a0, b0)
  {
    DividesSelf(a);
    assert Common(a, a, a);
  }

  lemma StopZero(a: nat)
    ensures IsGcd(a, a, 0) && IsGcd(a, 0, a)
  {
    DividesSelf(a);
  }

  /** r &= -r on r = a | b: a power of two that divides both, one of them an odd number of times. */
  lemma Isolate(a: nat, b: nat, r: nat) returns (A: nat, B: nat)
    requires Word?(a) && Word?(b) && a > 0 && b > 0 && r == Or(a, b) && Word?(r)
    ensures var l := And(r, Neg(r, WIDTH));
      PowerOf2(l) && a == A * l && b == B * l && A > 0 && B > 0 && (A % 2 == 1 || B % 2 == 1)
  {
    A, B := LowBitOr(a, b);
    AndNegIsLowBit(r, WIDTH);
    LowBitPower(r);
  }

  /** gcd(): for all words, with zero as identity. The sum a + b after the subtraction and halving is
      at most the larger argument, so it does not overflow. */
  method Gcd(a0: nat, b0: nat) returns (g: nat)
    requires Word?(a0) && Word?(b0)
    ensures IsGcd(g, a0, b0) && Word?(g)
  {
    var a, b := a0, b0;
    var r := Or(a, b);
    OrWord(a, b, WIDTH);
    if a == 0 || b == 0 {
      StopZero(if a == 0 then b else a);
      return r;
    }
    ghost var A, B := Isolate(a, b, r);
    r := And(r, Neg(r, WIDTH));
    b, B := MakeOdd(b, a, r, B, A);
    if b == r {
      DividesSelf(r);
      assert A * r == a && IsGcd(r, b, a);
      g := r;
    } else {
      g := Rounds(a, b, r, A, B);
      GcdFlip(g, a, b);
    }
    GcdSame(g, b0, a0, b, a);
    GcdFlip(g, b0, a0);
  }

  lemma GcdFlip(g: nat, a: nat, b: nat)
    requires IsGcd(g, a, b)
    ensures IsGcd(g, b, a)
  {
    forall d: nat | Common(d, b, a) ensures Divides(d, g) { assert Common(d, a, b); }
  }

  lemma GcdSame(g: nat, a0: nat, b0: nat, a: nat, b: nat)
    requires SameCommon(a0, b0, a, b) && IsGcd(g, a, b)
    ensures IsGcd(g, a0, b0)
  {
    assert Common(g, a0, b0) <==> Common(g, a, b);
    forall d: nat | Common(d, a0, b0) ensures Divides(d, g) { assert Common(d, a, b); }
  }

  /** The for (;;) of gcd(), with b an odd multiple of r. Every round makes a smaller. */
  method Rounds(a0: nat, b0: nat, r: nat, ghost A0: nat, ghost B0: nat) returns (g: nat)
    requires Word?(a0) && Word?(b0) && a0 > 0 && b0 > 0 && PowerOf2(r)
    requires a0 == A0 * r && b0 == B0 * r && B0 % 2 == 1
    ensures IsGcd(g, a0, b0) && Word?(g)
  {
    var a, b := a0, b0;
    ghost var A, B := A0, B0;
    while true
      invariant a > 0 && b > 0 && a == A * r && b == B * r && B % 2 == 1
      invariant Word?(a) && Word?(b)
      invariant SameCommon(a0, b0, a, b)
      decreases a + b
    {
      var a', A' := MakeOdd(a, b, r, A, B);
      CommonTrans(a0, b0, a, b, a', b);
      a, A := a', A';
      if a == r {
        StopAtR(a0, b0, r, b, B);
        return r;
      }
      if a == b {
        StopEqual(a0, b0, a);
        return a;
      }
      if a < b {
        CommonFlip(a0, b0, a, b);
        a, b := b, a;
        A, B := B, A;
      }
      ghost var u := a;
      a, A := Reduce(a, b, r, A, B);
      CommonTrans(a0, b0, u, b, a, b);
    }
  }

  /** The tail of the loop of gcd(): a -= b; a >>= 1; if (a & r) a += b; a >>= 1. */
  method Reduce(a0: nat, b: nat, r: nat, ghost A: nat, ghost B: nat) returns (a: nat, ghost A': nat)
    requires PowerOf2(r) && Word?(a0) && 0 < b < a0
    requires a0 == A * r && b == B * r && A % 2 == 1 && B % 2 == 1
    ensures 0 < a < a0 && a == A' * r && SameCommon(a0, b, a, b)
  {
    ghost var T := Round(a0, b, r, A, B);
    a := a0 - b;
    a := a / 2;
    if And(a, r) != 0 {
      assert Word?(a + b);
      a := a + b;
    }
    Halve(a, b, r, T, B);
    CommonTrans(a0, b, a, b, a / 2, b);
    a, A' := a / 2, T / 2;
  }

  lemma CommonTrans(a0: nat, b0: nat, x: nat, y: nat, u: nat, v: nat)
    requires SameCommon(a0, b0, x, y) && SameCommon(x, y, u, v)
    ensures SameCommon(a0, b0, u, v)
  {
    assert forall d: nat :: (Common(d, a0, b0) <==> Common(d, x, y)) && (Common(d, x, y) <==> Common(d, u, v));
  }

  lemma CommonFlip(a0: nat, b0: nat, x: nat, y: nat)
    requires SameCommon(a0, b0, x, y)
    ensures SameCommon(a0, b0, y, x)
  {
    assert forall d: nat :: Common(d, y, x) <==> Common(d, x, y);
  }
}
