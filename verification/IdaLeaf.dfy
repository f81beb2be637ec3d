/** What an IDA keeps at an index of its XArray: one leaf of 1024 IDs, as NULL, as a value entry with
    the first 63 bits inline, or as a pointer to a bitmap. */
module IdaLeaf {
  import opened Wrappers
  import opened Digits
  import opened TreeState
  import opened TreeSteps
  import opened TreeCounts
  import opened TreeTags
  import opened TreeWalk
  import opened Words
  import opened XArrayCursor

  const LEAF: nat := 1024        // IDA_BITMAP_BITS
  const INLINE: nat := 63        // BITS_PER_XA_VALUE
  const LEAVES: nat := 0x20_0000 // leaves for IDs up to INT_MAX

  // ----- bits of a word

  function BitAt(v: nat, b: nat): bool {
    if b == 0 then v % 2 == 1 else BitAt(v / 2, b - 1)
  }

  lemma {:induction false} ZeroBits(b: nat)
    ensures !BitAt(0, b)
  {
    if b > 0 { ZeroBits(b - 1); }
  }

  /** v |= 1 << b */
  lemma {:induction false} OrBit(v: nat, b: nat, c: nat)
    ensures BitAt(Or(v, Pow2(b)), c) <==> BitAt(v, c) || c == b
    decreases b
  {
    if v == 0 {
      PowBit(b, c);
      ZeroBits(c);
    } else if b == 0 {
      assert Or(v, 1) == 1 + 2 * Or(v / 2, 0);
      if c > 0 { assert Or(v / 2, 0) == v / 2; }
    } else {
      assert Pow2(b) / 2 == Pow2(b - 1) && Pow2(b) % 2 == 0;
      assert Or(v, Pow2(b)) == v % 2 + 2 * Or(v / 2, Pow2(b - 1));
      if c > 0 { OrBit(v / 2, b - 1, c - 1); }
    }
  }

  lemma {:induction false} PowBit(b: nat, c: nat)
    ensures BitAt(Pow2(b), c) <==> c == b
  {
    if b == 0 {
      if c > 0 { ZeroBits(c - 1); }
    } else if c > 0 {
      PowBit(b - 1, c - 1);
    }
  }

  /** v & (1 << b) */
  lemma {:induction false} AndBit(v: nat, b: nat)
    ensures And(v, Pow2(b)) != 0 <==> BitAt(v, b)
  {
    if v == 0 {
      ZeroBits(b);
    } else if b > 0 {
      assert Pow2(b) / 2 == Pow2(b - 1) && Pow2(b) % 2 == 0;
      AndBit(v / 2, b - 1);
    } else {
      assert And(v, 1) == v % 2 + 2 * And(v / 2, 0);
    }
  }

  lemma {:induction false} AndBits(x: nat, y: nat, c: nat)
    ensures BitAt(And(x, y), c) <==> BitAt(x, c) && BitAt(y, c)
    ensures And(x, y) <= x
    decreases x
  {
    if x == 0 || y == 0 {
      ZeroBits(c);
    } else {
      AndBits(x / 2, y / 2, if c > 0 then c - 1 else 0);
    }
  }

  lemma {:induction false} Ones(n: nat, c: nat)
    ensures BitAt(Pow2(n) - 1, c) <==> c < n
  {
    if n == 0 {
      ZeroBits(c);
    } else {
      assert Pow2(n) - 1 == 1 + 2 * (Pow2(n - 1) - 1);
      if c > 0 { Ones(n - 1, c - 1); }
    }
  }

  /** ~(1 << b), in words of n bits. */
  lemma {:induction false} MaskBit(n: nat, b: nat, c: nat)
    requires b < n
    ensures Pow2(b) <= Pow2(n) - 1
    ensures BitAt(Pow2(n) - 1 - Pow2(b), c) <==> c < n && c != b
  {
    PowUp(b + 1, n);
    if b == 0 {
      assert Pow2(n) - 2 == 2 * (Pow2(n - 1) - 1);
      if c > 0 { Ones(n - 1, c - 1); }
    } else {
      assert Pow2(n) - 1 - Pow2(b) == 1 + 2 * (Pow2(n - 1) - 1 - Pow2(b - 1));
      if c > 0 { MaskBit(n - 1, b - 1, c - 1); }
    }
  }

  lemma {:induction false} HighBits(v: nat, n: nat, c: nat)
    requires v < Pow2(n) && BitAt(v, c)
    ensures c < n
  {
    if n == 0 {
      ZeroBits(c);
    } else if c > 0 {
      HighBits(v / 2, n - 1, c - 1);
    }
  }

  /** v & ~(1 << b), in words of n bits. */
  lemma AndNotBit(v: nat, b: nat, n: nat, c: nat)
    requires v < Pow2(n) && b < n
    ensures Pow2(b) <= Pow2(n) - 1
    ensures And(v, Pow2(n) - 1 - Pow2(b)) <= v
    ensures BitAt(And(v, Pow2(n) - 1 - Pow2(b)), c) <==> BitAt(v, c) && c != b
  {
    MaskBit(n, b, c);
    AndBits(v, Pow2(n) - 1 - Pow2(b), c);
    if BitAt(v, c) { HighBits(v, n, c); }
  }

  lemma {:induction false} PowUp(a: nat, b: nat)
    requires a <= b
    ensures Pow2(a) <= Pow2(b)
    decreases b
  {
    if a < b { PowUp(a, b - 1); }
  }

  /** A word that is not 0 has a bit. */
  lemma {:induction false} SomeBit(v: nat, n: nat) returns (b: nat)
    requires 0 < v < Pow2(n)
    ensures b < n && BitAt(v, b)
    decreases n
  {
    if v % 2 == 1 {
      b := 0;
    } else {
      b := SomeBit(v / 2, n - 1);
      b := b + 1;
    }
  }

  // ----- leaves

  type Bitmaps = map<nat, seq<bool>>

  function ClearBits(): (s: seq<bool>)
    ensures |s| == LEAF && forall b: nat :: b < LEAF ==> !s[b]
  {
    seq(LEAF, _ => false)
  }

  function ValueBits(v: nat): (s: seq<bool>)
    ensures |s| == LEAF && forall b: nat :: b < LEAF ==> s[b] == (b < INLINE && BitAt(v, b))
  {
    seq(LEAF, b requires 0 <= b => b < INLINE && BitAt(v, b))
  }

  /** The bits of the leaf whose entry is e. */
  ghost function LeafBits(e: Entry, maps: Bitmaps): (s: seq<bool>)
    ensures |s| == LEAF
  {
    match e
    case Value(v) => ValueBits(v)
    case Pointer(p) => if p in maps && |maps[p]| == LEAF then maps[p] else ClearBits()
    case _ => ClearBits()
  }

  ghost predicate Live(t: Tree, maps: Bitmaps, n: nat)
    requires Shape(t)
  {
    LeafBits(Get(t, n / LEAF), maps)[n % LEAF]
  }

  /** A kept leaf is never all clear, and it is marked free unless it is all set. */
  ghost predicate LeafInOrder(t: Tree, maps: Bitmaps, i: nat)
    requires Shape(t)
  {
    var e := Get(t, i);
    && (match e
        case Empty => true
        case Value(v) => 0 < v < Pow2(INLINE) && i < LEAVES
        case Pointer(p) => p in maps && |maps[p]| == LEAF && true in maps[p] && i < LEAVES
        case _ => false)
    && (TagAt(t, i, 0) <==> false in LeafBits(e, maps))
  }

  /** The tree is no taller than IDs up to INT_MAX need. */
  ghost predicate Low(t: Tree) { t.head.Inner? ==> t.head.ref.level <= 5 }

  ghost predicate IdaInv(t: Tree, maps: Bitmaps) {
    && Inv(t, false) && t.trackFree && Low(t)
    && (forall i: nat {:trigger LeafInOrder(t, maps, i)} :: LeafInOrder(t, maps, i))
    && (forall i: nat, j: nat {:trigger Get(t, i), Get(t, j)} :: Get(t, i).Pointer? && Get(t, i) == Get(t, j) ==> i == j)
  }

  ghost predicate Unused(t: Tree, p: nat)
    requires Shape(t)
  {
    forall i: nat {:trigger Get(t, i)} :: Get(t, i) != Pointer(p)
  }

  /** Leaf i, and nothing else, changes. */
  ghost predicate LeafChange(t: Tree, maps: Bitmaps, u: Tree, more: Bitmaps, i: nat)
    requires Shape(t) && Shape(u)
  {
    && Inv(u, false) && u.trackFree && Low(u)
    && (forall j: nat {:trigger Get(u, j)} :: j != i ==> Get(u, j) == Get(t, j))
    && (forall j: nat {:trigger TagAt(u, j, 0)} :: j != i ==> (TagAt(u, j, 0) <==> TagAt(t, j, 0)))
    && (forall j: nat, p: nat :: j != i && Get(t, j) == Pointer(p) && p in maps ==> p in more && more[p] == maps[p])
  }

  lemma OtherLeaf(t: Tree, maps: Bitmaps, u: Tree, more: Bitmaps, i: nat, j: nat)
    requires IdaInv(t, maps) && Shape(u) && LeafChange(t, maps, u, more, i) && j != i
    ensures LeafInOrder(u, more, j) && LeafBits(Get(u, j), more) == LeafBits(Get(t, j), maps) && Get(u, j) == Get(t, j)
  {
    assert LeafInOrder(t, maps, j) && Get(u, j) == Get(t, j) && (TagAt(u, j, 0) <==> TagAt(t, j, 0));
  }

  /** So a change of one leaf that leaves it in order leaves the IDA in order. */
  lemma LeafChanged(t: Tree, maps: Bitmaps, u: Tree, more: Bitmaps, i: nat)
    requires IdaInv(t, maps) && Shape(u) && LeafChange(t, maps, u, more, i) && LeafInOrder(u, more, i)
    requires forall j: nat {:trigger Get(t, j)} :: j != i && Get(u, i).Pointer? ==> Get(t, j) != Get(u, i)
    ensures IdaInv(u, more)
    ensures forall n: nat {:trigger Live(u, more, n)} :: Live(u, more, n) <==>
              if n / LEAF == i then LeafBits(Get(u, i), more)[n % LEAF] else Live(t, maps, n)
  {
    forall j: nat
      ensures LeafInOrder(u, more, j)
    {
      if j != i { OtherLeaf(t, maps, u, more, i, j); }
    }
    forall j: nat, k: nat | Get(u, j).Pointer? && Get(u, j) == Get(u, k)
      ensures j == k
    {
      if j != i { OtherLeaf(t, maps, u, more, i, j); }
      if k != i { OtherLeaf(t, maps, u, more, i, k); }
    }
    forall n: nat
      ensures Live(u, more, n) <==> if n / LEAF == i then LeafBits(Get(u, i), more)[n % LEAF] else Live(t, maps, n)
    {
      if n / LEAF != i { OtherLeaf(t, maps, u, more, i, n / LEAF); }
    }
  }

  /** The tree is as good as before when only its room changed, and bitmaps nobody uses may change. */
  lemma RoomOnly(t: Tree, maps: Bitmaps, u: Tree, more: Bitmaps)
    requires IdaInv(t, maps) && Inv(u, false) && u.trackFree && Low(u) && SameContents(t, u)
    requires forall p: nat :: p in maps && !Unused(t, p) ==> p in more && more[p] == maps[p]
    ensures IdaInv(u, more)
    ensures forall n: nat :: Live(u, more, n) <==> Live(t, maps, n)
  {
    forall j: nat
      ensures LeafInOrder(u, more, j) && LeafBits(Get(u, j), more) == LeafBits(Get(t, j), maps) && Get(u, j) == Get(t, j)
    {
      assert LeafInOrder(t, maps, j) && Get(u, j) == Get(t, j) && (TagAt(u, j, 0) <==> TagAt(t, j, 0));
      if Get(t, j).Pointer? { assert !Unused(t, Get(t, j).p); }
    }
    forall j: nat, k: nat | Get(u, j).Pointer? && Get(u, j) == Get(u, k)
      ensures j == k
    {
      assert Get(u, j) == Get(t, j) && Get(u, k) == Get(t, k);
    }
  }

  lemma LowKept(t: Tree, u: Tree, i: nat)
    requires Low(t) && NotTaller(t, u, i) && i < LEAVES
    ensures Low(u)
  {
    assert Pow(6) > LEAVES by { assert Pow(3) == 4096; assert Pow(6) == 4096 * Pow(3); }
    if u.head.Inner? && u.head.ref.level >= 6 { PowMono(6, u.head.ref.level); }
  }

  /** With every leaf from lo up to hi marked full, every ID of theirs is live. */
  lemma FullLeaves(t: Tree, maps: Bitmaps, lo: nat, hi: nat)
    requires IdaInv(t, maps) && NoneTagged(t, lo, hi, 0)
    ensures forall n: nat :: lo <= n / LEAF < hi ==> Live(t, maps, n)
  {
    forall n: nat | lo <= n / LEAF < hi
      ensures Live(t, maps, n)
    {
      var i := n / LEAF;
      assert LeafInOrder(t, maps, i) && !TagAt(t, i, 0);
      var s := LeafBits(Get(t, i), maps);
      assert s[n % LEAF] in s;
    }
  }

  /** n is the least ID from min on that is not live. */
  ghost predicate LeastFree(t: Tree, maps: Bitmaps, min: nat, n: nat)
    requires Shape(t)
  {
    min <= n && !Live(t, maps, n) && AllLiveIds(t, maps, min, n)
  }

  ghost predicate AllLiveIds(t: Tree, maps: Bitmaps, lo: nat, hi: nat)
    requires Shape(t)
  {
    forall m: nat {:trigger Live(t, maps, m)} :: lo <= m < hi ==> Live(t, maps, m)
  }

  lemma LeastFreeUnique(t: Tree, maps: Bitmaps, min: nat, n: nat, m: nat)
    requires Shape(t) && LeastFree(t, maps, min, n) && LeastFree(t, maps, min, m)
    ensures n == m
  {
    assert !Live(t, maps, n) && !Live(t, maps, m);
  }

  /** ID n becomes live (or stops being live), and no other ID changes. */
  ghost predicate Becomes(t: Tree, maps: Bitmaps, u: Tree, more: Bitmaps, n: nat, live: bool)
    requires Shape(t) && Shape(u)
  {
    forall m: nat {:trigger Live(u, more, m)} :: Live(u, more, m) <==> if m == n then live else Live(t, maps, m)
  }

  ghost predicate SameIds(t: Tree, maps: Bitmaps, u: Tree, more: Bitmaps)
    requires Shape(t) && Shape(u)
  {
    forall m: nat {:trigger Live(u, more, m)} :: Live(u, more, m) <==> Live(t, maps, m)
  }

  /** A leaf whose bits change at one place changes one ID. */
  lemma BitBecomes(t: Tree, maps: Bitmaps, u: Tree, more: Bitmaps, i: nat, b: nat, live: bool)
    requires IdaInv(t, maps) && Shape(u) && LeafChange(t, maps, u, more, i) && LeafInOrder(u, more, i) && b < LEAF
    requires forall j: nat {:trigger Get(t, j)} :: j != i && Get(u, i).Pointer? ==> Get(t, j) != Get(u, i)
    requires LeafBits(Get(u, i), more) == LeafBits(Get(t, i), maps)[b := live]
    ensures IdaInv(u, more) && Becomes(t, maps, u, more, i * LEAF + b, live)
  {
    LeafChanged(t, maps, u, more, i);
    forall m: nat
      ensures Live(u, more, m) <==> if m == i * LEAF + b then live else Live(t, maps, m)
    {
      assert m == m / LEAF * LEAF + m % LEAF;
    }
  }

  /** A leaf that is kept differently, with the same bits, changes no ID. */
  lemma BitsSame(t: Tree, maps: Bitmaps, u: Tree, more: Bitmaps, i: nat)
    requires IdaInv(t, maps) && Shape(u) && LeafChange(t, maps, u, more, i) && LeafInOrder(u, more, i)
    requires forall j: nat {:trigger Get(t, j)} :: j != i && Get(u, i).Pointer? ==> Get(t, j) != Get(u, i)
    requires LeafBits(Get(u, i), more) == LeafBits(Get(t, i), maps)
    ensures IdaInv(u, more) && SameIds(t, maps, u, more)
  {
    LeafChanged(t, maps, u, more, i);
  }

  /** Where a search for the free mark has come to leaf i, every ID before its bit b is live. */
  lemma SearchLive(t: Tree, maps: Bitmaps, min: nat, s: nat, i: nat, b: nat)
    requires IdaInv(t, maps) && min / LEAF <= s <= i && NoneTagged(t, s, i, 0)
    requires s == min / LEAF || AllLiveIds(t, maps, min, s * LEAF)
    requires b == if i > min / LEAF then 0 else min % LEAF
    ensures min <= i * LEAF + b && AllLiveIds(t, maps, min, i * LEAF + b)
  {
    FullLeaves(t, maps, s, i);
    forall m: nat | min <= m < i * LEAF + b
      ensures Live(t, maps, m)
    {
      if m >= s * LEAF { assert s <= m / LEAF < i; }
    }
  }

  /** ... and with no free mark up to the leaf of max, so is every ID up to max. */
  lemma SearchFull(t: Tree, maps: Bitmaps, min: nat, s: nat, max: nat)
    requires IdaInv(t, maps) && min / LEAF <= s && NoneTagged(t, s, max / LEAF + 1, 0)
    requires s == min / LEAF || AllLiveIds(t, maps, min, s * LEAF)
    ensures AllLiveIds(t, maps, min, max + 1)
  {
    FullLeaves(t, maps, s, max / LEAF + 1);
    forall m: nat | min <= m < max + 1
      ensures Live(t, maps, m)
    {
      if m >= s * LEAF { assert s <= m / LEAF <= max / LEAF; }
    }
  }

  /** The IDs of a leaf whose bits from b to c are set are live. */
  lemma BitsLive(t: Tree, maps: Bitmaps, min: nat, i: nat, b: nat, c: nat)
    requires Shape(t) && min <= i * LEAF + b && b <= c <= LEAF && AllLiveIds(t, maps, min, i * LEAF + b)
    requires forall o: nat :: b <= o < c ==> LeafBits(Get(t, i), maps)[o]
    ensures AllLiveIds(t, maps, min, i * LEAF + c)
  {
    forall m: nat | i * LEAF + b <= m < i * LEAF + c
      ensures Live(t, maps, m)
    {
      assert m / LEAF == i && m % LEAF == m - i * LEAF;
    }
  }

  // ----- memory for bitmaps

  lemma {:induction false} Bounded(s: set<nat>) returns (b: nat)
    ensures forall x :: x in s ==> x < b
    decreases |s|
  {
    if s == {} {
      b := 0;
    } else {
      var x :| x in s;
      var c := Bounded(s - {x});
      b := if c > x then c else x + 1;
      assert forall y :: y in s ==> y == x || y in s - {x};
    }
  }

  /** There is always another address. */
  lemma FreshAddress(maps: Bitmaps)
    ensures exists p: nat :: p !in maps
  {
    var b := Bounded(maps.Keys);
    assert b !in maps;
  }

  lemma FreshUnused(t: Tree, maps: Bitmaps, p: nat)
    requires IdaInv(t, maps) && p !in maps
    ensures Unused(t, p)
  {
    forall i: nat
      ensures Get(t, i) != Pointer(p)
    {
      assert LeafInOrder(t, maps, i);
    }
  }
}
