/** Arithmetic of tree positions.

    XA_CHUNK_SHIFT is 4 in this repository (CONFIG_BASE_SMALL is defined as 1 in
    linux/xarray.h), so every node has 16 slots and a 64-bit index has 16 digits. */
module Digits {
  const CHUNK: nat := 16
  const LEVELS: nat := 16
  const WORD: nat := 0x1_0000_0000_0000_0000
  const U32: nat := 0x1_0000_0000
  const INT_MAX: nat := 0x7FFF_FFFF

  /** 16 to the power l. */
  function Pow(l: nat): (p: nat)
    ensures p >= 1
  {
    if l == 0 then 1 else CHUNK * Pow(l - 1)
  }

  /** index >> (4 * l) */
  function Block(i: nat, l: nat): nat {
    if l == 0 then i else Block(i, l - 1) / CHUNK
  }

  /** The offset of index i in the node of level l above it: (index >> shift) & MASK. */
  function Digit(i: nat, l: nat): (o: nat)
    ensures o < CHUNK
  {
    Block(i, l) % CHUNK
  }

  lemma {:induction false} BlockBounds(i: nat, l: nat)
    ensures Block(i, l) * Pow(l) <= i < (Block(i, l) + 1) * Pow(l)
  {
    if l > 0 {
      BlockBounds(i, l - 1);
      DigitBounds(Block(i, l), Digit(i, l - 1), Pow(l - 1));
    }
  }

  /** Chunk d of block q, in units of p. */
  lemma DigitBounds(q: nat, d: nat, p: nat)
    requires d < CHUNK
    ensures q * (CHUNK * p) <= (q * CHUNK + d) * p
    ensures (q * CHUNK + d + 1) * p <= (q + 1) * (CHUNK * p)
  {
    MulMono(q * CHUNK, q * CHUNK + d, p);
    MulMono(q * CHUNK + d + 1, (q + 1) * CHUNK, p);
    MulAssoc(q, p);
    MulAssoc(q + 1, p);
  }

  lemma MulAssoc(q: nat, p: nat)
    ensures q * CHUNK * p == q * (CHUNK * p)
  {
  }

  lemma MulMono(a: nat, b: nat, p: nat)
    requires a <= b
    ensures a * p <= b * p
  {
  }

  /** Block l of i is the only multiple of Pow(l) whose block holds i. */
  lemma BlockUnique(i: nat, l: nat, q: nat)
    requires q * Pow(l) <= i < (q + 1) * Pow(l)
    ensures Block(i, l) == q
  {
    BlockBounds(i, l);
    var b := Block(i, l);
    if b < q {
      MulMono(b + 1, q, Pow(l));
    } else if q < b {
      MulMono(q + 1, b, Pow(l));
    }
  }

  /** i lies below 16^l exactly when nothing is left after l digits. */
  lemma BlockZero(i: nat, l: nat)
    ensures Block(i, l) == 0 <==> i < Pow(l)
  {
    BlockBounds(i, l);
    if i < Pow(l) {
      BlockUnique(i, l, 0);
    }
  }

  /** The first index of block q at level l. */
  lemma BlockStart(q: nat, l: nat)
    ensures Block(q * Pow(l), l) == q
  {
    assert (q + 1) * Pow(l) == q * Pow(l) + Pow(l);
    BlockUnique(q * Pow(l), l, q);
  }

  lemma {:induction false} BlockMono(i: nat, j: nat, l: nat)
    requires i <= j
    ensures Block(i, l) <= Block(j, l)
  {
    if l > 0 {
      BlockMono(i, j, l - 1);
    }
  }

  lemma {:induction false} PowMono(a: nat, b: nat)
    requires a <= b
    ensures Pow(a) <= Pow(b)
  {
    if a < b {
      PowMono(a, b - 1);
    }
  }

  lemma PowWord()
    ensures Pow(LEVELS) == WORD
  {
    assert Pow(1) == 16;
    assert Pow(4) == 0x1_0000 by { assert Pow(2) == 0x100; assert Pow(3) == 0x1000; }
    assert Pow(8) == 0x1_0000_0000 by {
      assert Pow(5) == 0x10_0000; assert Pow(6) == 0x100_0000; assert Pow(7) == 0x1000_0000;
    }
    assert Pow(12) == 0x1_0000_0000_0000 by {
      assert Pow(9) == 0x10_0000_0000; assert Pow(10) == 0x100_0000_0000; assert Pow(11) == 0x1000_0000_0000;
    }
    assert Pow(13) == 0x10_0000_0000_0000;
    assert Pow(14) == 0x100_0000_0000_0000;
    assert Pow(15) == 0x1000_0000_0000_0000;
  }

  /** Splitting a block number into the digit and the block above, and back. */
  lemma BlockSplit(i: nat, l: nat)
    ensures Block(i, l + 1) * CHUNK + Digit(i, l) == Block(i, l)
  {
  }

  /** Joining a block number and a digit. */
  lemma BlockJoin(q: nat, o: nat)
    requires o < CHUNK
    ensures Block(q * CHUNK + o, 1) == q && Digit(q * CHUNK + o, 0) == o
  {
    assert Block(q * CHUNK + o, 0) == q * CHUNK + o;
  }

  /** Where block q of level l starts, block q + k starts k blocks later. */
  lemma BlockBelow(i: nat, l: nat, q: nat)
    requires i < q * Pow(l)
    ensures Block(i, l) < q
  {
    BlockBounds(i, l);
    if Block(i, l) >= q { MulMono(q, Block(i, l), Pow(l)); }
  }

  lemma BlockAbove(i: nat, l: nat, q: nat)
    requires Block(i, l) < q
    ensures i < q * Pow(l)
  {
    BlockBounds(i, l);
    MulMono(Block(i, l) + 1, q, Pow(l));
  }

  lemma PowStep(q: nat, l: nat)
    ensures q * CHUNK * Pow(l) == q * Pow(l + 1)
  {
  }

  lemma {:induction false} PowSplit(a: nat, b: nat)
    requires a <= b
    ensures Pow(b - a) * Pow(a) == Pow(b)
    decreases b - a
  {
    if a < b {
      PowSplit(a, b - 1);
      assert Pow(b - a) * Pow(a) == CHUNK * (Pow(b - 1 - a) * Pow(a));
    }
  }

  lemma Distribute(a: nat, b: nat, p: nat)
    ensures (a + b) * p == a * p + b * p
  {
  }
}
