/** Nested bucket tables of lib/rhashtable.c: when a flat bucket array cannot be allocated, the buckets
    lie in a tree of pages that are allocated as they are needed. */
module NestedBuckets {
  import opened Wrappers
  import opened Words

  const SHIFT: nat := 9      // PAGE_SHIFT - ilog2(sizeof(void *))
  const LEN: nat := 512      // 1 << SHIFT

  /** The address of a page: the slots that lead to it. No operation looks inside an address. */
  type Page = seq<nat>

  /** union nested_table: a link to a page, or a bucket, given by the head of its chain. */
  datatype Slot = Null | Table(page: Page) | Bucket(head: nat)

  const EMPTY_CHAIN: nat := 0

  /** 512 to the power k. */
  function LenPow(k: nat): (p: nat)
    ensures p >= 1
  {
    if k == 0 then 1 else LEN * LenPow(k - 1)
  }

  /** The slots on the way to bucket h of a table of size buckets, from the second page on. */
  function Way(h: nat, size: nat): (w: seq<nat>)
    ensures |w| >= 1
  {
    if size <= LEN then [h] else [h % LEN] + Way(h / LEN, size / LEN)
  }

  /** x >> n */
  function Shr(x: nat, n: nat): nat { if n == 0 then x else Shr(x / 2, n - 1) }

  /** x & ((1 << n) - 1) */
  function Low(x: nat, n: nat): nat { if n == 0 then 0 else x % 2 + 2 * Low(x / 2, n - 1) }

  /** All the slots on the way to the bucket of a hash; the last is the bucket's own. */
  function Place(hash: nat, nest: nat, size: nat): (w: seq<nat>)
    ensures |w| >= 2
  {
    [Low(hash, nest)] + Way(Shr(hash, nest), Shr(size, nest))
  }

  lemma {:induction false} SplitBits(g: nat, h: nat, n: nat)
    requires Low(g, n) == Low(h, n) && Shr(g, n) == Shr(h, n)
    ensures g == h
  {
    if n > 0 { SplitBits(g / 2, h / 2, n - 1); }
  }

  /** A number below 2^(n + m): its low n bits and the rest. */
  lemma {:induction false} BitsFit(h: nat, n: nat, m: nat)
    requires h < Pow2(n + m)
    ensures Low(h, n) < Pow2(n) && Shr(h, n) < Pow2(m) && Shr(Pow2(n + m), n) == Pow2(m)
  {
    if n > 0 { BitsFit(h / 2, n - 1, m); }
  }

  lemma {:induction false} WayInjective(g: nat, h: nat, size: nat)
    requires Way(g, size) == Way(h, size)
    ensures g == h
  {
    if size <= LEN {
      assert Way(g, size)[0] == g && Way(h, size)[0] == h;
    } else {
      assert Way(g, size)[0] == g % LEN && Way(h, size)[0] == h % LEN;
      assert Way(g, size)[1..] == Way(g / LEN, size / LEN) && Way(h, size)[1..] == Way(h / LEN, size / LEN);
      WayInjective(g / LEN, h / LEN, size / LEN);
    }
  }

  /** Two hashes with the same bucket are equal. */
  lemma PlaceInjective(g: nat, h: nat, nest: nat, size: nat)
    requires Place(g, nest, size) == Place(h, nest, size)
    ensures g == h
  {
    var v, w := Place(g, nest, size), Place(h, nest, size);
    assert v[0] == Low(g, nest) && w[0] == Low(h, nest);
    assert v[1..] == Way(Shr(g, nest), Shr(size, nest)) && w[1..] == Way(Shr(h, nest), Shr(size, nest));
    WayInjective(Shr(g, nest), Shr(h, nest), Shr(size, nest));
    SplitBits(g, h, nest);
  }

  /** The way through a table of 512^k buckets has k slots, each within its page. */
  lemma {:induction false} WayFits(h: nat, k: nat)
    requires k >= 1 && h < LenPow(k)
    ensures |Way(h, LenPow(k))| == k && forall i: nat :: i < k ==> Way(h, LenPow(k))[i] < LEN
  {
    if k == 1 {
      assert LenPow(1) == LEN;
    } else {
      assert LenPow(k) / LEN == LenPow(k - 1) && LenPow(k) > LEN by { assert LenPow(k - 1) == LEN * LenPow(k - 2); }
      WayFits(h / LEN, k - 1);
    }
  }

  lemma Eight(n: nat)
    ensures Pow2(n + 3) == 8 * Pow2(n)
  {
    assert Pow2(n + 3) == 2 * Pow2(n + 2) && Pow2(n + 2) == 2 * Pow2(n + 1);
  }

  lemma {:induction false} LenPowIsPow2(k: nat)
    ensures LenPow(k) == Pow2(SHIFT * k)
  {
    if k > 0 {
      LenPowIsPow2(k - 1);
      var n := SHIFT * (k - 1);
      Eight(n);
      Eight(n + 3);
      Eight(n + 6);
    }
  }

  lemma {:induction false} LowShr(x: nat, n: nat)
    ensures Low(x, n) == x % Pow2(n) && Shr(x, n) == x / Pow2(n)
  {
    if n > 0 {
      LowShr(x / 2, n - 1);
      DivTwice(x, 2, Pow2(n - 1));
    }
  }

  /** Dividing by a product, and what is left. */
  lemma DivTwice(x: nat, a: nat, b: nat)
    requires a > 0 && b > 0
    ensures a * b > 0 && x / (a * b) == x / a / b && x % (a * b) == x % a + a * (x / a % b)
  {
    var q, r := x / a / b, x % a + a * (x / a % b);
    calc {
      x;
      x % a + a * (x / a);
      x % a + a * (x / a % b + b * q);
      r + (a * b) * q;
    }
    assert x / a % b <= b - 1;
    MulMono(a, x / a % b, b - 1);
    assert a * (b - 1) == a * b - a;
    DivIs(x, a * b, q, r);
  }

  lemma MulMono(a: nat, x: nat, y: nat)
    requires x <= y
    ensures a * x <= a * y
  {
  }

  lemma DivIs(x: nat, d: nat, q: nat, r: nat)
    requires r < d && x == r + d * q
    ensures x / d == q && x % d == r
  {
    var e := x / d;
    assert d * (e + 1) == d * e + d && d * (q + 1) == d * q + d;
    if e < q { MulMono(d, e + 1, q); }
    if q < e { MulMono(d, q + 1, e); }
  }

  /** Slot i of the way through a table of 512^k buckets. */
  lemma {:induction false} WaySlot(h: nat, k: nat, i: nat)
    requires i < k && h < LenPow(k)
    ensures |Way(h, LenPow(k))| == k && Way(h, LenPow(k))[i] == h / Pow2(9 * i) % 512
  {
    WayStep(h, k);
    WayFits(h, k);
    if k == 1 {
      assert LenPow(1) == LEN;
    } else if i > 0 {
      WaySlot(h / LEN, k - 1, i - 1);
      assert Way(h, LenPow(k))[i] == Way(h / LEN, LenPow(k - 1))[i - 1];
      DivDown(h, 9 * (i - 1));
    }
  }

  lemma DivDown(h: nat, n: nat)
    ensures h / LEN / Pow2(n) == h / Pow2(n + 9)
  {
    Eight(n);
    Eight(n + 3);
    Eight(n + 6);
    DivTwice(h, 512, Pow2(n));
  }

  lemma WayStep(h: nat, k: nat)
    requires k >= 1
    ensures Way(h, LenPow(k)) == if k == 1 then [h] else [h % LEN] + Way(h / LEN, LenPow(k - 1))
    ensures LenPow(k) > LEN <==> k > 1
    ensures LenPow(k) / LEN == LenPow(k - 1)
  {
    if k > 1 { assert LenPow(k - 1) == LEN * LenPow(k - 2); }
  }

  type Pages = map<Page, seq<Slot>>

  /** A page is linked from the slot that its address ends with, and from nowhere else. */
  ghost predicate PagesOk(pages: Pages, depth: nat) {
    && [] in pages
    && (forall p :: p in pages ==> |p| <= depth && |pages[p]| == LEN)
    && (forall p, i: nat {:trigger pages[p][i]} :: p in pages && i < LEN ==>
          if |p| < depth then pages[p][i] == Link(pages, p, i) else pages[p][i].Bucket?)
    && (forall p {:trigger p in pages} :: p in pages && p != [] ==> p[..|p| - 1] in pages && p[|p| - 1] < LEN)
  }

  function Link(pages: Pages, p: Page, i: nat): Slot {
    if p + [i] in pages then Table(p + [i]) else Null
  }

  /** A fresh page: of empty links, or of buckets with empty chains. */
  function FreshPage(leaf: bool): (s: seq<Slot>)
    ensures |s| == LEN
  {
    seq(LEN, _ => if leaf then Bucket(EMPTY_CHAIN) else Null)
  }

  /** The memory with a fresh page behind slot index of page p. */
  function AddPage(pages: Pages, p: Page, index: nat, leaf: bool): Pages
    requires p in pages && index < |pages[p]|
  {
    pages[p := pages[p][index := Table(p + [index])]][p + [index] := FreshPage(leaf)]
  }

  /** Nothing hangs below a page that is not in memory. */
  lemma NoneBelow(pages: Pages, depth: nat, q: Page)
    requires PagesOk(pages, depth) && q !in pages
    ensures forall i: nat :: q + [i] !in pages
  {
    forall i: nat
      ensures q + [i] !in pages
    {
      assert (q + [i])[..|q|] == q && |q + [i]| - 1 == |q|;
    }
  }

  lemma AddPageSize(pages: Pages, p: Page, index: nat, leaf: bool)
    requires p in pages && index < |pages[p]| && p + [index] !in pages
    ensures AddPage(pages, p, index, leaf).Keys == pages.Keys + {p + [index]} && |AddPage(pages, p, index, leaf)| == |pages| + 1
  {
    assert |pages.Keys| == |pages| && |AddPage(pages, p, index, leaf).Keys| == |AddPage(pages, p, index, leaf)|;
  }

  lemma OneLink(p: Page, index: nat, r: Page, i: nat)
    ensures r + [i] == p + [index] <==> r == p && i == index
  {
    if r + [i] == p + [index] {
      assert (r + [i])[..|r|] == r && (p + [index])[..|p|] == p;
      assert (r + [i])[|r|] == i && (p + [index])[|p|] == index;
    }
  }

  lemma AddPageSlot(pages: Pages, depth: nat, p: Page, index: nat, leaf: bool, r: Page, i: nat)
    requires PagesOk(pages, depth) && p in pages && |p| < depth && index < LEN && p + [index] !in pages
    requires leaf <==> |p| + 1 == depth
    requires r in AddPage(pages, p, index, leaf) && i < LEN
    ensures |AddPage(pages, p, index, leaf)[r]| == LEN
    ensures var more := AddPage(pages, p, index, leaf);
      if |r| < depth then more[r][i] == Link(more, r, i) else more[r][i].Bucket?
  {
    NoneBelow(pages, depth, p + [index]);
    OneLink(p, index, r, i);
    if r != p + [index] { assert pages[r][i] == pages[r][i]; }
  }

  lemma AddPageOk(pages: Pages, depth: nat, p: Page, index: nat, leaf: bool)
    requires PagesOk(pages, depth) && p in pages && |p| < depth && index < LEN && p + [index] !in pages
    requires leaf <==> |p| + 1 == depth
    ensures PagesOk(AddPage(pages, p, index, leaf), depth)
  {
    var q, more := p + [index], AddPage(pages, p, index, leaf);
    assert q[..|q| - 1] == p && q[|q| - 1] == index;
    forall r, i: nat | r in more && i < LEN
      ensures |more[r]| == LEN
      ensures if |r| < depth then more[r][i] == Link(more, r, i) else more[r][i].Bucket?
    {
      AddPageSlot(pages, depth, p, index, leaf, r, i);
    }
    forall r | r in more && r != []
      ensures r[..|r| - 1] in more && r[|r| - 1] < LEN
    {
      assert r != q ==> r in pages;
    }
    forall r | r in more
      ensures |r| <= depth && |more[r]| == LEN
    {
      AddPageSlot(pages, depth, p, index, leaf, r, 0);
    }
  }

  class NestedTable {
    const bits: nat            // ilog2(size)
    const size: nat
    const nest: nat
    var pages: Pages
    var spare: nat             // how many page allocations succeed before one fails; any number between calls

    /** How many pages lie on the way to a bucket below the first. */
    ghost function Depth(): nat { if bits == 0 then 0 else (bits - 1) / SHIFT }

    ghost predicate Sized() {
      bits >= SHIFT + 1 && size == Pow2(bits) && nest == (bits - 1) % SHIFT + 1
    }

    ghost predicate Valid()
      reads this
    {
      Sized() && PagesOk(pages, Depth())
    }

    /** nested_bucket_table_alloc, for 2^bits buckets, once its first page has been allocated. */
    constructor (bits: nat)
      requires bits >= SHIFT + 1
      ensures Valid() && this.bits == bits && pages.Keys == {[]}
    {
      this.bits, size, nest := bits, Pow2(bits), (bits - 1) % SHIFT + 1;
      pages := map[[] := seq(LEN, _ => Null)];
    }

    /** The way to a bucket has one page less than slots, and every slot lies in its page. */
    lemma PlaceFits(hash: nat)
      requires Sized() && hash < size
      ensures Depth() >= 1 && Shr(size, nest) == LenPow(Depth())
      ensures |Place(hash, nest, size)| == Depth() + 1
      ensures forall i: nat :: i <= Depth() ==> Place(hash, nest, size)[i] < LEN
    {
      assert bits == nest + SHIFT * Depth();
      BitsFit(hash, nest, SHIFT * Depth());
      LenPowIsPow2(Depth());
      WayFits(Shr(hash, nest), Depth());
      assert Pow2(nest) <= LEN by { PowTo9(nest); }
    }

    /** The page and the slot of a hash's bucket. */
    ghost function Home(hash: nat): (Page, nat)
      requires Sized() && hash < size
    {
      PlaceFits(hash);
      (Place(hash, nest, size)[..Depth()], Place(hash, nest, size)[Depth()])
    }

    /** The slot in the first page is the low bits of the hash, and the slots behind it are nine bits each. */
    lemma PlaceSays(hash: nat)
      requires Sized() && hash < size
      ensures |Place(hash, nest, size)| == Depth() + 1
      ensures Place(hash, nest, size)[0] == hash % Pow2((bits - 1) % 9 + 1)
      ensures forall i: nat :: 1 <= i <= Depth() ==>
        Place(hash, nest, size)[i] == hash / Pow2((bits - 1) % 9 + 1) / Pow2(9 * (i - 1)) % 512
    {
      PlaceFits(hash);
      LowShr(hash, nest);
      BitsFit(hash, nest, SHIFT * Depth());
      assert bits == nest + SHIFT * Depth();
      LenPowIsPow2(Depth());
      forall i: nat | 1 <= i <= Depth()
        ensures Place(hash, nest, size)[i] == hash / Pow2(nest) / Pow2(9 * (i - 1)) % 512
      {
        WaySlot(Shr(hash, nest), Depth(), i - 1);
      }
    }

    /** Different hashes have different buckets. */
    lemma HomeInjective(g: nat, h: nat)
      requires Sized() && g < size && h < size && Home(g) == Home(h)
      ensures g == h
    {
      PlaceFits(g);
      PlaceFits(h);
      var v, w := Place(g, nest, size), Place(h, nest, size);
      assert v == v[..Depth()] + [v[Depth()]] && w == w[..Depth()] + [w[Depth()]];
      PlaceInjective(g, h, nest, size);
    }

    /** A page is not in memory unless the pages on the way to it are. */
    lemma {:induction false} WayIn(p: Page, d: nat)
      requires Valid() && d <= |p| && p in pages
      ensures p[..d] in pages
      decreases |p|
    {
      if d == |p| {
        assert p[..d] == p;
      } else {
        var q := p[..|p| - 1];
        WayIn(q, d);
        assert q[..d] == p[..d];
      }
    }

    /** With d slots of the way to the bucket of hash behind, h and t are what is left of the hash and
        of the size. */
    ghost predicate OnWay(hash: nat, d: nat, h: nat, s: nat) {
      && Sized() && hash < size && 1 <= d <= Depth() && s == LenPow(Depth() - d + 1)
      && |Place(hash, nest, size)| == Depth() + 1
      && (forall i: nat :: i <= Depth() ==> Place(hash, nest, size)[i] < LEN)
      && Place(hash, nest, size)[d..] == Way(h, s)
    }

    /** The walk has come to page ntbl, if that is in memory. */
    ghost predicate Walking(hash: nat, d: nat, ntbl: Option<Page>, h: nat, s: nat)
      reads this
    {
      && Valid() && OnWay(hash, d, h, s)
      && ntbl == if Place(hash, nest, size)[..d] in pages then Some(Place(hash, nest, size)[..d]) else None
    }

    lemma WalkStep(hash: nat, d: nat, h: nat, s: nat)
      requires OnWay(hash, d, h, s)
      ensures s > LEN <==> d < Depth()
      ensures d == Depth() ==> h == Place(hash, nest, size)[d]
      ensures d < Depth() ==>
                && h % LEN < LEN && OnWay(hash, d + 1, h / LEN, s / LEN)
                && (s / LEN <= LEN <==> d + 1 == Depth())
                && Place(hash, nest, size)[..d + 1] == Place(hash, nest, size)[..d] + [h % LEN]
    {
      var w := Place(hash, nest, size);
      WayStep(h, Depth() - d + 1);
      assert w[d..][0] == w[d];
      assert w[d..][1..] == w[d + 1..];
      if d < Depth() {
        assert w[..d + 1] == w[..d] + [w[d]];
        WayStep(h / LEN, Depth() - d);
      }
    }

    /** Where the walk ends, the bucket is, or a page on the way to it is missing. */
    lemma WalkEnds(hash: nat, d: nat, ntbl: Option<Page>, h: nat, s: nat)
      requires Walking(hash, d, ntbl, h, s) && (ntbl == None || s <= LEN)
      ensures if Home(hash).0 in pages then ntbl.Some? && (ntbl.value, h) == Home(hash) else ntbl == None
    {
      WalkStep(hash, d, h, s);
      var p := Home(hash).0;
      assert p[..d] == Place(hash, nest, size)[..d];
      if p in pages { WayIn(p, d); }
    }

    lemma WalkStart(hash: nat)
      requires Sized() && hash < size
      ensures Depth() >= 1 && Low(hash, nest) < LEN && OnWay(hash, 1, Shr(hash, nest), Shr(size, nest))
      ensures Place(hash, nest, size)[..1] == [] + [Low(hash, nest)]
      ensures Shr(size, nest) <= LEN <==> Depth() == 1
    {
      PlaceFits(hash);
      assert Place(hash, nest, size)[0] == Low(hash, nest);
      assert Place(hash, nest, size)[1..] == Way(Shr(hash, nest), Shr(size, nest));
      WayStep(Shr(hash, nest), Depth());
    }

    /** ntbl[index].table */
    method Follow(p: Page, index: nat) returns (ntbl: Option<Page>)
      requires Valid() && p in pages && |p| < Depth() && index < LEN
      ensures ntbl == if p + [index] in pages then Some(p + [index]) else None
    {
      var slot := pages[p][index];
      ntbl := if slot.Table? then Some(slot.page) else None;
    }

    /** __rht_bucket_nested: the bucket of hash, unless a page on the way is missing. */
    method Lookup(hash: nat) returns (bucket: Option<(Page, nat)>)
      requires Valid() && hash < size
      ensures bucket == if Home(hash).0 in pages then Some(Home(hash)) else None
    {
      WalkStart(hash);
      var ntbl := Follow([], Low(hash, nest));
      var s: nat, subhash: nat := Shr(size, nest), Shr(hash, nest);
      ghost var d: nat := 1;
      while ntbl.Some? && s > LEN
        invariant Walking(hash, d, ntbl, subhash, s)
        decreases Depth() - d
      {
        WalkStep(hash, d, subhash, s);
        ntbl := Follow(ntbl.value, subhash % LEN);
        s := s / LEN;
        subhash := subhash / LEN;
        d := d + 1;
      }
      WalkEnds(hash, d, ntbl, subhash, s);
      bucket := if ntbl == None then None else Some((ntbl.value, subhash));
    }

    /** nested_table_alloc: the page behind a slot, allocated if it is missing. None is a failed allocation. */
    method TableAlloc(p: Page, index: nat, leaf: bool) returns (ntbl: Option<Page>)
      requires Valid() && p in pages && |p| < Depth() && index < LEN && (leaf <==> |p| + 1 == Depth())
      modifies this`pages, this`spare
      ensures Valid() && pages.Keys <= old(pages.Keys) + {p + [index]} && Kept(old(pages), pages)
      ensures |pages| + spare == old(|pages| + spare) && (ntbl == None ==> spare == 0)
      ensures ntbl == if p + [index] in pages then Some(p + [index]) else None
    {
      ntbl := Follow(p, index);
      if ntbl.Some? { return; }
      if spare == 0 { return None; }
      spare := spare - 1;
      PageMade(pages, p, index, leaf);
      pages := AddPage(pages, p, index, leaf);
      return Some(p + [index]);
    }

    lemma PageMade(was: Pages, p: Page, index: nat, leaf: bool)
      requires PagesOk(was, Depth()) && p in was && |p| < Depth() && index < LEN && p + [index] !in was
      requires leaf <==> |p| + 1 == Depth()
      ensures var now := AddPage(was, p, index, leaf);
        PagesOk(now, Depth()) && now.Keys == was.Keys + {p + [index]} && |now| == |was| + 1 && Kept(was, now)
    {
      AddPageOk(was, Depth(), p, index, leaf);
      AddPageSize(was, p, index, leaf);
    }

    /** Pages stay, and so do the buckets in them; a new page of buckets has empty chains. */
    ghost predicate Kept(was: Pages, now: Pages) {
      && was.Keys <= now.Keys
      && forall p :: p in now && |p| == Depth() ==>
           now[p] == if p in was then was[p] else FreshPage(true)
    }

    /** Only pages on the way to the bucket of hash are new, and the others are kept. */
    ghost predicate Only(hash: nat, was: Pages, now: Pages) {
      && Kept(was, now)
      && forall p :: p in now && p !in was ==> |p| < |Place(hash, nest, size)| && p == Place(hash, nest, size)[..|p|]
    }

    lemma OnlyMore(hash: nat, a: Pages, b: Pages, c: Pages, d: nat)
      requires Only(hash, a, b) && Kept(b, c) && d < |Place(hash, nest, size)|
      requires c.Keys <= b.Keys + {Place(hash, nest, size)[..d]}
      ensures Only(hash, a, c)
    {
    }

    /** One level down towards the bucket of hash, with the page made if it is missing. */
    method Onwards(hash: nat, p: Page, h: nat, s: nat, ghost d: nat, ghost was: Pages) returns (ntbl: Option<Page>)
      requires Walking(hash, d, Some(p), h, s) && s > LEN && Only(hash, was, pages)
      modifies this`pages, this`spare
      ensures |pages| + spare == old(|pages| + spare) && (ntbl == None ==> spare == 0)
      ensures Walking(hash, d + 1, ntbl, h / LEN, s / LEN) && Only(hash, was, pages)
    {
      WalkStep(hash, d, h, s);
      ghost var now := pages;
      ntbl := TableAlloc(p, h % LEN, s / LEN <= LEN);
      OnlyMore(hash, was, now, pages, d + 1);
    }

    /** rht_bucket_nested_insert: the bucket of hash, with the pages on the way. None is a failed allocation. */
    method Insert(hash: nat) returns (bucket: Option<(Page, nat)>)
      requires Valid() && hash < size
      modifies this`pages, this`spare
      ensures Valid() && Only(hash, old(pages), pages)
      ensures |pages| + spare == old(|pages| + spare) && (bucket == None ==> spare == 0)
      ensures bucket == if Home(hash).0 in pages then Some(Home(hash)) else None
    {
      WalkStart(hash);
      var s: nat, h: nat := Shr(size, nest), Shr(hash, nest);
      var ntbl := TableAlloc([], Low(hash, nest), s <= LEN);
      OnlyMore(hash, old(pages), old(pages), pages, 1);
      ghost var d: nat := 1;
      while ntbl.Some? && s > LEN
        invariant Walking(hash, d, ntbl, h, s) && Only(hash, old(pages), pages)
        invariant |pages| + spare == old(|pages| + spare) && (ntbl == None ==> spare == 0)
        decreases Depth() - d
      {
        ntbl := Onwards(hash, ntbl.value, h, s, d, old(pages));
        s := s / LEN;
        h := h / LEN;
        d := d + 1;
      }
      WalkEnds(hash, d, ntbl, h, s);
      bucket := if ntbl == None then None else Some((ntbl.value, h));
    }
  }

  lemma PowTo9(n: nat)
    requires n <= 9
    ensures Pow2(n) <= LEN
  {
    assert Pow2(4) == 16 && Pow2(8) == 256 by { assert Pow2(6) == 64; }
  }
}
