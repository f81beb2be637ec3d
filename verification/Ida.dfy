/** The IDA of lib/idr.c: an allocator of IDs on top of an XArray of leaves. */
module Ida {
  import opened Wrappers
  import opened Digits
  import opened TreeState
  import opened TreeSteps
  import opened TreeCounts
  import opened TreeTags
  import opened TreeWalk
  import opened Bits
  import opened Words
  import opened XArray
  import opened XArrayCursor
  import opened IdaLeaf

  datatype AllocResult = Id(n: nat) | NoSpc | NoMem

  /** ida_free of an ID that is not live warns, or, when its whole leaf is absent, reads a bitmap at
      address NULL. */
  datatype FreeResult = Freed | Warned | NullBitmap

  /** One try of ida_alloc_range: an ID, no ID up to the maximum, no bitmap, a failed store, or on to
      the next leaf. */
  datatype Try = Got(n: nat) | Full | NeedBitmap | Failing | Next

  /** find_next_zero_bit, doing what it is meant to do. */
  function NextClear(bits: seq<bool>, from: nat): (r: nat)
    ensures r <= |bits| && (r < |bits| ==> from <= r && !bits[r])
    ensures forall o: nat :: from <= o < r ==> bits[o]
  {
    var r := NextBit(Negated(bits), from, true);
    assert forall o: nat :: from <= o < r ==> !Negated(bits)[o];
    r
  }

  /** find_next_zero_bit() as written, on a whole bitmap, does that exactly when its search is sound, as it
      is from the start of a 32-bit word. */
  lemma NextClearAsWritten(bits: seq<bool>, from: nat)
    requires |bits| == LEAF
    ensures AsWritten(Negated(bits), LEAF, from) == Some(NextClear(bits, from)) <==> Sound(Negated(bits), from)
    ensures from % 32 == 0 ==> AsWritten(Negated(bits), LEAF, from) == Some(NextClear(bits, from))
  {
    FindNextBitExact(Negated(bits), from);
    if from % 32 == 0 { SoundFromWord(Negated(bits), from); }
  }

  /** v & (1 << bit) */
  function TestBit(v: nat, bit: nat): (b: bool)
    ensures b <==> BitAt(v, bit)
  {
    AndBit(v, bit);
    And(v, Pow2(bit)) != 0
  }

  /** Taking ID n needs memory: its leaf is inline and the bit does not fit there, or there is no leaf,
      and the bit needs a bitmap or the array has no slot for the leaf. */
  ghost predicate NeedsMemory(t: Tree, n: nat)
    requires Shape(t)
  {
    match Get(t, n / 1024)
    case Value(_) => n % 1024 >= 63
    case Empty => n % 1024 >= 63 || SlotMissing(t, n / 1024, false)
    case _ => false
  }

  /** Tree t, with room for budget more nodes, was there before: now no bitmap can be had
      for ID n, or no node, all of the budget having gone into nodes on the way to its leaf. */
  ghost predicate NoMemoryFor(ida: IDA, t: Tree, budget: nat, n: nat)
    requires Shape(t)
    reads ida, ida.xa
  {
    || (n % 1024 >= 63 && ida.quick == ida.slow == 0)
    || (Get(t, n / 1024).Empty? && SlotMissing(t, n / 1024, false) && Spent(ida.xa, |t.nodes|, budget))
  }

  /** The least ID that is not live lies in the range, and taking it needs a bitmap. */
  ghost predicate MustHaveBitmap(t: Tree, maps: Bitmaps, min: nat, max: nat)
    requires Shape(t)
  {
    exists id: nat :: id <= max && LeastFree(t, maps, min, id) && NeedsMemory(t, id) && id % LEAF >= INLINE
  }

  class IDA {
    const xa: XArray
    var bitmaps: Bitmaps     // the ida_bitmap objects in memory
    var quick: nat           // how many allocations of a bitmap under the lock succeed before one fails
    var slow: nat            // and how many of those that may wait; any numbers between calls

    ghost predicate Valid()
      reads this, xa
    {
      IdaInv(xa.View(), bitmaps)
    }

    ghost predicate IsLive(n: nat)
      requires Valid()
      reads this, xa
    {
      Live(xa.View(), bitmaps, n)
    }

    /** ida_init. */
    constructor ()
      ensures Valid() && fresh(xa)
      ensures forall n: nat :: !IsLive(n)
    {
      xa := new XArray(true);
      bitmaps := map[];
      new;
      forall i: nat
        ensures LeafInOrder(xa.View(), bitmaps, i)
      {
        assert Get(xa.View(), i).Empty? && ClearBits()[0] in ClearBits();
      }
    }

    /** kzalloc: a bitmap with no bit set, if there is memory. */
    method Kzalloc(wait: bool) returns (p: Option<nat>)
      requires Valid()
      modifies this
      ensures p == None ==> (if wait then slow else quick) == 0 && slow == old(slow) && quick == old(quick)
      ensures p.Some? ==> slow + quick == old(slow + quick) - 1 && if wait then quick == old(quick) else slow == old(slow)
      ensures Valid() && SameIds(xa.View(), old(bitmaps), xa.View(), bitmaps)
      ensures p == None ==> bitmaps == old(bitmaps)
      ensures p.Some? ==> p.value !in old(bitmaps) && Unused(xa.View(), p.value) && bitmaps == old(bitmaps)[p.value := ClearBits()]
    {
      var ok := (if wait then slow else quick) > 0;
      if !ok { return None; }
      if wait { slow := slow - 1; } else { quick := quick - 1; }
      FreshAddress(bitmaps);
      var q: nat :| q !in bitmaps;
      FreshUnused(xa.View(), bitmaps, q);
      ghost var was := bitmaps;
      bitmaps := bitmaps[q := ClearBits()];
      GrewSelf(xa.View());
      RoomOnly(xa.View(), was, xa.View(), bitmaps);
      p := Some(q);
    }

    // ----- taking a bit

    /** A cursor of this array at a leaf. */
    ghost predicate AtLeaf(xas: XaState)
      reads this, xa, xas
    {
      Valid() && xas.xa == xa && xas.AtSlot() && xas.index < LEAVES
    }

    /** xas_store where something is kept already, or of NULL: it cannot fail. The bitmaps were maps. */
    method PutLeaf(xas: XaState, e: Entry, ghost maps: Bitmaps)
      requires IdaInv(xa.View(), maps) && xas.xa == xa && xas.AtSlot() && xas.index < LEAVES
      requires !Get(xa.View(), xas.index).Empty? && (e.Empty? || e.Item?())
      requires forall j: nat, p: nat :: j != xas.index && Get(xa.View(), j) == Pointer(p) && p in maps ==>
                 p in bitmaps && bitmaps[p] == maps[p]
      modifies xas, xa
      ensures xas.Valid() && !xas.at.Failed? && xas.index == old(xas.index) && (!e.Empty? ==> xas.AtSlot())
      ensures LeafChange(old(xa.View()), maps, xa.View(), bitmaps, xas.index) && Get(xa.View(), xas.index) == e
      ensures TagAt(xa.View(), xas.index, 0) <==> e.Empty? || TagAt(old(xa.View()), xas.index, 0)
    {
      ghost var t := xa.View();
      var _ := xas.Store(e);
      StoredLeaf(t, maps, xa.View(), bitmaps, xas.index, e);
    }

    /** tmp |= 1 << bit, in a leaf kept inline. */
    method TakeInline(xas: XaState, tmp0: nat, bit: nat)
      requires AtLeaf(xas) && Get(xa.View(), xas.index) == Value(tmp0) && bit < INLINE && !BitAt(tmp0, bit)
      modifies xas, xa
      ensures Valid() && xas.Valid() && !xas.at.Failed? && xas.index == old(xas.index)
      ensures Becomes(old(xa.View()), bitmaps, xa.View(), bitmaps, xas.index * LEAF + bit, true)
      ensures forall q: nat :: Unused(old(xa.View()), q) ==> Unused(xa.View(), q)
    {
      ghost var t := xa.View();
      var tmp := Or(tmp0, Pow2(bit));
      PutLeaf(xas, Value(tmp), bitmaps);
      InlineTaken(t, bitmaps, xa.View(), xas.index, tmp0, bit);
    }

    /** bitmap->bitmap[0] = tmp, and the bitmap takes the place of the inline word. */
    method ToBitmap(xas: XaState, tmp: nat, p: nat)
      requires AtLeaf(xas) && Get(xa.View(), xas.index) == Value(tmp)
      requires Unused(xa.View(), p) && p in bitmaps && bitmaps[p] == ClearBits()
      modifies xas, xa, this`bitmaps
      ensures AtLeaf(xas) && Get(xa.View(), xas.index) == Pointer(p) && xas.index == old(xas.index)
      ensures p in bitmaps && bitmaps[p] == ValueBits(tmp)
      ensures SameIds(old(xa.View()), old(bitmaps), xa.View(), bitmaps)
    {
      ghost var t, maps := xa.View(), bitmaps;
      var word := ValueBits(tmp)[..64];
      assert word + bitmaps[p][64..] == ValueBits(tmp);
      bitmaps := bitmaps[p := word + bitmaps[p][64..]];
      PutLeaf(xas, Pointer(p), maps);
      Converted(t, maps, xa.View(), bitmaps, xas.index, tmp, p);
    }

    /** __set_bit in a leaf kept as a bitmap; a full bitmap is not marked free any more. */
    method TakeBit(xas: XaState, p: nat, bit: nat)
      requires AtLeaf(xas) && Get(xa.View(), xas.index) == Pointer(p) && p in bitmaps && |bitmaps[p]| == LEAF
      requires bit < LEAF && !bitmaps[p][bit]
      modifies xa`rootTags, xa`nodes, this`bitmaps
      ensures Valid()
      ensures Becomes(old(xa.View()), old(bitmaps), xa.View(), bitmaps, xas.index * LEAF + bit, true)
      ensures forall j: nat :: Get(xa.View(), j) == Get(old(xa.View()), j)
    {
      ghost var t, maps, i := xa.View(), bitmaps, xas.index;
      assert LeafInOrder(t, maps, i);
      bitmaps := bitmaps[p := bitmaps[p][bit := true]];
      assert bitmaps[p][bit] in bitmaps[p];
      if false !in bitmaps[p] {
        assert Get(t, i) == Pointer(p);
        xas.ClearMark(0);
        SameButTagsGet(t, xa.View());
        MarkPlain(t, xa.View(), i, 0, false);
      }
      assert maps[p][bit] in maps[p];
      BitBecomes(t, maps, xa.View(), bitmaps, i, bit, true);
    }

    // ----- one try

    /** A bitmap kept for the next try is not in the tree, and has no bit set except perhaps the one the
        last try was about to take, in a leaf where nothing is kept. */
    ghost predicate SpareOk(alloc: Option<nat>, goal: Option<nat>)
      requires Valid()
      reads this, xa
    {
      alloc.Some? ==>
        && alloc.value in bitmaps && |bitmaps[alloc.value]| == LEAF && Unused(xa.View(), alloc.value)
        && forall b: nat :: b < LEAF && bitmaps[alloc.value][b] ==>
             goal.Some? && b == goal.value % LEAF && Get(xa.View(), goal.value / LEAF).Empty?
    }

    /** bitmap = alloc; if (!bitmap) bitmap = kzalloc(GFP_NOWAIT). */
    method GetBitmap(alloc: Option<nat>, ghost goal: Option<nat>) returns (p: Option<nat>)
      requires Valid() && SpareOk(alloc, goal)
      modifies this
      ensures p == None ==> quick == 0
      ensures Valid() && SpareOk(alloc, goal) && SpareOk(p, goal) && SameIds(xa.View(), old(bitmaps), xa.View(), bitmaps)
      ensures alloc.Some? ==> p == alloc && bitmaps == old(bitmaps)
      ensures alloc == None && p.Some? ==> p.value !in old(bitmaps) && bitmaps == old(bitmaps)[p.value := ClearBits()]
      ensures p == None ==> bitmaps == old(bitmaps)
    {
      p := alloc;
      if p == None { p := Kzalloc(false); }
    }

    /** The case of a leaf where nothing is kept. The first bit goes inline if it fits, else a bitmap. */
    method FillEmpty(xas: XaState, bit: nat, alloc: Option<nat>, ghost goal: Option<nat>) returns (out: Try, used: bool)
      requires Valid() && xas.xa == xa && xas.Valid() && !xas.at.Failed? && xas.index < LEAVES && bit < LEAF
      requires Get(xa.View(), xas.index).Empty? && SpareOk(alloc, goal)
      requires goal.Some? ==> goal.value == xas.index * LEAF + bit
      modifies xas, xa, this
      ensures out.NeedBitmap? ==> quick == 0
      ensures out.NeedBitmap? || out.Failing? ==> xas.Memory() == old(xas.Memory())
      ensures out.Failing? ==> xa.quick == 0
      ensures Valid() && xas.Valid() && xas.index == old(xas.index)
      ensures out.Got? ==>
                && !xas.at.Failed? && out.n == xas.index * LEAF + bit
                && Becomes(old(xa.View()), old(bitmaps), xa.View(), bitmaps, out.n, true)
                && (alloc.Some? && !used ==> alloc.value in bitmaps && Unused(xa.View(), alloc.value))
      ensures !out.Got? ==> SameIds(old(xa.View()), old(bitmaps), xa.View(), bitmaps)
      ensures out.NeedBitmap? ==> alloc == None && !xas.at.Failed? && xa.View() == old(xa.View())
      ensures out.Failing? ==>
                && xas.at == Failed(ENOMEM) && !xas.alloc
                && Grew(old(xa.View()), xa.View(), xas.index, old(xas.alloc), xas.alloc)
                && SpareOk(alloc, Some(xas.index * LEAF + bit))
      ensures out.NeedBitmap? ==> bit >= INLINE
      ensures out.Failing? ==> SlotMissing(old(xa.View()), xas.index, false)
      ensures out.Got? || out.NeedBitmap? || out.Failing?
    {
      ghost var maps := bitmaps;
      var e;
      if bit < INLINE {
        e, used := Value(Pow2(bit)), false;
      } else {
        var p := GetBitmap(alloc, goal);
        if p == None { return NeedBitmap, false; }
        used := alloc.Some?;
        e := Pointer(p.value);
        bitmaps := bitmaps[p.value := bitmaps[p.value][bit := true]];
      }
      out := PutFirst(xas, bit, e, alloc, maps);
    }

    /** The store of a leaf with its first bit. The bitmaps were maps before that bit was set. */
    method PutFirst(xas: XaState, bit: nat, e: Entry, alloc: Option<nat>, ghost maps: Bitmaps) returns (out: Try)
      requires IdaInv(xa.View(), maps) && xas.xa == xa && xas.Valid() && !xas.at.Failed? && xas.index < LEAVES && bit < LEAF
      requires Get(xa.View(), xas.index).Empty? && First(xa.View(), bitmaps, bit, e)
      requires forall p: nat :: p in maps && !Unused(xa.View(), p) ==> p in bitmaps && bitmaps[p] == maps[p]
      requires alloc.Some? ==>
                 && alloc.value in bitmaps && |bitmaps[alloc.value]| == LEAF && Unused(xa.View(), alloc.value)
                 && forall b: nat :: b < LEAF && bitmaps[alloc.value][b] ==> b == bit
      modifies xas, xa
      ensures Valid() && xas.Valid() && xas.index == old(xas.index) && (out.Got? || out.Failing?)
      ensures out.Got? ==>
                && !xas.at.Failed? && out.n == xas.index * LEAF + bit
                && Becomes(old(xa.View()), maps, xa.View(), bitmaps, out.n, true)
                && (alloc.Some? && e != Pointer(alloc.value) ==> Unused(xa.View(), alloc.value))
      ensures out.Failing? ==>
                && xas.at == Failed(ENOMEM) && !xas.alloc && SameIds(old(xa.View()), maps, xa.View(), bitmaps)
                && Grew(old(xa.View()), xa.View(), xas.index, old(xas.alloc), xas.alloc)
                && SpareOk(alloc, Some(xas.index * LEAF + bit)) && SlotMissing(old(xa.View()), xas.index, false)
                && xas.Memory() == old(xas.Memory()) && xa.quick == 0
    {
      ghost var t, i := xa.View(), xas.index;
      EmptyLeaf(t, maps, i);
      var _ := xas.Store(e);
      if xas.at.Failed? {
        LowKept(t, xa.View(), i);
        RoomOnly(t, maps, xa.View(), bitmaps);
        SpareKept(alloc, t, i, bit);
        return Failing;
      }
      StoredLeaf(t, maps, xa.View(), bitmaps, i, e);
      FilledLeaf(t, maps, xa.View(), bitmaps, i, bit, e);
      out := Got(xas.index * LEAF + bit);
    }

    /** Where the search stands: in front of bit bit of the leaf at the cursor; all before it is live. */
    ghost predicate Before(xas: XaState, min: nat, max: nat, bit: nat)
      reads this, xa, xas
    {
      && AtLeaf(xas) && bit < LEAF && min <= xas.index * LEAF + bit <= max
      && AllLiveIds(xa.View(), bitmaps, min, xas.index * LEAF + bit)
    }

    /** What the next clear bit of a bitmap says about IDs. */
    lemma LeafSearched(xas: XaState, p: nat, min: nat, max: nat, bit0: nat, bit: nat)
      requires Before(xas, min, max, bit0) && Get(xa.View(), xas.index) == Pointer(p)
      requires LeafInOrder(xa.View(), bitmaps, xas.index) && bit == NextClear(bitmaps[p], bit0)
      ensures xas.index * LEAF + bit > max ==> AllLiveIds(xa.View(), bitmaps, min, max + 1)
      ensures bit == LEAF ==> AllLiveIds(xa.View(), bitmaps, min, (xas.index + 1) * LEAF) && bitmaps[p][bit0]
      ensures bit < LEAF ==> LeastFree(xa.View(), bitmaps, min, xas.index * LEAF + bit)
    {
      BitsLive(xa.View(), bitmaps, min, xas.index, bit0, bit);
      if bit < LEAF { NotLive(xa.View(), bitmaps, xas.index, bit); }
    }

    /** The case of a leaf kept as a bitmap. */
    method TakeFrom(xas: XaState, p: nat, min: nat, max: nat, bit0: nat) returns (out: Try)
      requires Before(xas, min, max, bit0) && Get(xa.View(), xas.index) == Pointer(p)
      modifies xa`rootTags, xa`nodes, this`bitmaps
      ensures Valid() && !xas.at.Failed?
      ensures out.Got? ==>
                && out.n <= max && LeastFree(old(xa.View()), old(bitmaps), min, out.n)
                && Becomes(old(xa.View()), old(bitmaps), xa.View(), bitmaps, out.n, true)
                && (forall j: nat :: Get(xa.View(), j) == Get(old(xa.View()), j))
      ensures !out.Got? ==> xa.View() == old(xa.View()) && bitmaps == old(bitmaps)
      ensures out.Full? ==> AllLiveIds(old(xa.View()), old(bitmaps), min, max + 1)
      ensures out.Next? ==>
                && AllLiveIds(xa.View(), bitmaps, min, (xas.index + 1) * LEAF)
                && p in bitmaps && |bitmaps[p]| == LEAF && bitmaps[p][bit0]
      ensures out.Got? || out.Full? || out.Next?
    {
      assert LeafInOrder(xa.View(), bitmaps, xas.index);
      var bit := NextClear(bitmaps[p], bit0);
      LeafSearched(xas, p, min, max, bit0, bit);
      if xas.index * LEAF + bit > max { return Full; }
      if bit == LEAF { return Next; }
      TakeBit(xas, p, bit);
      out := Got(xas.index * LEAF + bit);
    }

    /** A spare bitmap is clear when the ID about to be taken is not in an empty leaf. */
    lemma SpareClear(p: nat, goal: Option<nat>, min: nat, id: nat)
      requires Valid() && SpareOk(Some(p), goal) && !Get(xa.View(), id / LEAF).Empty?
      requires LeastFree(xa.View(), bitmaps, min, id) && (goal.Some? ==> LeastFree(xa.View(), bitmaps, min, goal.value))
      ensures bitmaps[p] == ClearBits()
    {
      if goal.Some? { LeastFreeUnique(xa.View(), bitmaps, min, goal.value, id); }
    }

    /** The case of a leaf kept inline: a bit of the word, or else the word becomes a bitmap. */
    method TakeFromValue(xas: XaState, tmp: nat, min: nat, max: nat, bit0: nat, alloc: Option<nat>, ghost goal: Option<nat>)
      returns (out: Try, used: bool)
      requires Before(xas, min, max, bit0) && Get(xa.View(), xas.index) == Value(tmp) && SpareOk(alloc, goal)
      requires goal.Some? ==> LeastFree(xa.View(), bitmaps, min, goal.value)
      modifies xas, xa, this
      ensures out.NeedBitmap? ==> quick == 0 && xas.Memory() == old(xas.Memory())
      ensures Valid() && !xas.at.Failed?
      ensures out.Got? ==>
                && out.n <= max && LeastFree(old(xa.View()), old(bitmaps), min, out.n)
                && Becomes(old(xa.View()), old(bitmaps), xa.View(), bitmaps, out.n, true)
                && (alloc.Some? && !used ==> Unused(xa.View(), alloc.value))
      ensures !out.Got? ==> SameIds(old(xa.View()), old(bitmaps), xa.View(), bitmaps)
      ensures out.Full? ==> AllLiveIds(old(xa.View()), old(bitmaps), min, max + 1)
      ensures out.NeedBitmap? ==>
                && alloc == None && xa.View() == old(xa.View()) && xas.Valid()
                && MustHaveBitmap(old(xa.View()), old(bitmaps), min, max)
      ensures out.Got? || out.Full? || out.NeedBitmap?
    {
      ghost var t, maps, i := xa.View(), bitmaps, xas.index;
      var bit := bit0;
      used := false;
      if bit < INLINE {
        bit := NextClear(ValueBits(tmp)[..INLINE], bit);
        BitsLive(t, maps, min, i, bit0, bit);
        if xas.index * LEAF + bit > max { return Full, false; }
        if bit < INLINE {
          NotLive(t, maps, i, bit);
          TakeInline(xas, tmp, bit);
          return Got(xas.index * LEAF + bit), false;
        }
      }
      out, used := TakeFromWord(xas, tmp, min, max, bit, alloc, goal);
    }

    /** Once the bit does not fit the word, the leaf goes on as a bitmap. */
    method TakeFromWord(xas: XaState, tmp: nat, min: nat, max: nat, bit: nat, alloc: Option<nat>, ghost goal: Option<nat>)
      returns (out: Try, used: bool)
      requires Before(xas, min, max, bit) && Get(xa.View(), xas.index) == Value(tmp) && SpareOk(alloc, goal) && bit >= INLINE
      requires goal.Some? ==> LeastFree(xa.View(), bitmaps, min, goal.value)
      modifies xas, xa, this
      ensures out.NeedBitmap? ==> quick == 0 && xas.Memory() == old(xas.Memory())
      ensures Valid() && !xas.at.Failed?
      ensures out.Got? ==>
                && out.n <= max && LeastFree(old(xa.View()), old(bitmaps), min, out.n)
                && Becomes(old(xa.View()), old(bitmaps), xa.View(), bitmaps, out.n, true)
                && (alloc.Some? ==> used)
      ensures !out.Got? ==> SameIds(old(xa.View()), old(bitmaps), xa.View(), bitmaps)
      ensures out.Full? ==> AllLiveIds(old(xa.View()), old(bitmaps), min, max + 1)
      ensures out.NeedBitmap? ==>
                && alloc == None && xa.View() == old(xa.View()) && xas.Valid()
                && MustHaveBitmap(old(xa.View()), old(bitmaps), min, max)
      ensures out.Got? || out.Full? || out.NeedBitmap?
    {
      ghost var t, maps := xa.View(), bitmaps;
      NotLive(t, maps, xas.index, bit);
      assert LeastFree(t, maps, min, xas.index * LEAF + bit);
      var p := GetBitmap(alloc, goal);
      if p == None {
        assert NeedsMemory(t, xas.index * LEAF + bit) && (xas.index * LEAF + bit) % LEAF == bit;
        return NeedBitmap, false;
      }
      SameLeast(t, maps, t, bitmaps, min);
      SpareClear(p.value, goal, min, xas.index * LEAF + bit);
      ToBitmap(xas, tmp, p.value);
      SameLeast(t, maps, xa.View(), bitmaps, min);
      ghost var u, more := xa.View(), bitmaps;
      out := TakeFrom(xas, p.value, min, max, bit);
      if out.Got? { AfterSame(t, maps, u, more, xa.View(), bitmaps, out.n); }
      used := alloc.Some?;
    }

    /** The search for a leaf with a free mark, and the bit to start from in it. full means that it is
        beyond max. */
    method NextLeaf(xas: XaState, min: nat, max: nat, bit0: nat, ghost s: nat)
      returns (bitmap: Entry, bit: nat, full: bool)
      requires Valid() && xas.xa == xa && xas.Valid() && (xas.at.Restart? || xas.AtSlot())
      requires max <= INT_MAX && s == xas.SearchFrom() && min / LEAF <= s
      requires if s == min / LEAF then bit0 == min % LEAF else AllLiveIds(xa.View(), bitmaps, min, s * LEAF)
      modifies xas`index, xas`at, xas`offset
      ensures Valid() && xas.Valid() && !xas.at.Failed?
      ensures full ==> AllLiveIds(xa.View(), bitmaps, min, max + 1)
      ensures !full ==>
                && bit < LEAF && s <= xas.index < LEAVES && min <= xas.index * LEAF + bit <= max
                && AllLiveIds(xa.View(), bitmaps, min, xas.index * LEAF + bit)
                && bitmap == Get(xa.View(), xas.index) && (!bitmap.Empty? ==> AtLeaf(xas))
    {
      ghost var exact;
      bitmap, exact := xas.FindMarked(max / LEAF, 0);
      LowTop(xa.View());
      bit := bit0;
      if xas.index > min / LEAF { bit := 0; }
      if xas.at.Restart? {
        SearchFull(xa.View(), bitmaps, min, s, max);
      } else {
        SearchLive(xa.View(), bitmaps, min, s, xas.index, bit);
        if xas.at.Bounds? { NothingBeyond(xa.View(), xas.index); }
      }
      full := xas.index * LEAF + bit > max;
    }

    /** What ida_alloc_range does in the leaf it has come to, by what is kept there. */
    method TakeAt(xas: XaState, bitmap: Entry, min: nat, max: nat, bit: nat, alloc: Option<nat>, ghost goal: Option<nat>)
      returns (out: Try, used: bool, ghost id: nat)
      requires Valid() && xas.xa == xa && xas.Valid() && !xas.at.Failed? && xas.index < LEAVES && bit < LEAF
      requires min <= xas.index * LEAF + bit <= max && AllLiveIds(xa.View(), bitmaps, min, xas.index * LEAF + bit)
      requires bitmap == Get(xa.View(), xas.index) && (!bitmap.Empty? ==> AtLeaf(xas))
      requires SpareOk(alloc, goal) && (goal.Some? ==> LeastFree(xa.View(), bitmaps, min, goal.value))
      modifies xas, xa, this
      ensures out.NeedBitmap? ==> quick == 0
      ensures out.NeedBitmap? || out.Failing? || out.Next? ==> xas.Memory() == old(xas.Memory())
      ensures out.Failing? ==> xa.quick == 0
      ensures Valid()
      ensures out.Got? ==>
                && !xas.at.Failed? && out.n <= max && LeastFree(old(xa.View()), old(bitmaps), min, out.n)
                && Becomes(old(xa.View()), old(bitmaps), xa.View(), bitmaps, out.n, true)
                && (alloc.Some? && !used ==> Unused(xa.View(), alloc.value))
      ensures !out.Got? ==> SameIds(old(xa.View()), old(bitmaps), xa.View(), bitmaps)
      ensures out.Full? ==> AllLiveIds(old(xa.View()), old(bitmaps), min, max + 1)
      ensures out.NeedBitmap? ==> alloc == None && xa.View() == old(xa.View()) && xas.Valid()
      ensures out.NeedBitmap? ==> id % LEAF >= INLINE
      ensures out.NeedBitmap? || out.Failing? ==>
                id <= max && LeastFree(old(xa.View()), old(bitmaps), min, id) && NeedsMemory(old(xa.View()), id)
      ensures out.Failing? ==>
                && xas.at == Failed(ENOMEM) && !xas.alloc && xas.Valid()
                && Grew(old(xa.View()), xa.View(), id / LEAF, old(xas.alloc), xas.alloc)
                && Get(old(xa.View()), id / LEAF).Empty? && SlotMissing(old(xa.View()), id / LEAF, false)
                && SpareOk(alloc, Some(id))
      ensures out.Next? ==>
                && xa.View() == old(xa.View()) && bitmaps == old(bitmaps) && AtLeaf(xas)
                && xas.index == old(xas.index) && xas.alloc == old(xas.alloc)
                && AllLiveIds(xa.View(), bitmaps, min, (xas.index + 1) * LEAF)
    {
      used, id := false, 0;
      if bitmap.Value? {
        ghost var t, maps := xa.View(), bitmaps;
        out, used := TakeFromValue(xas, bitmap.v, min, max, bit, alloc, goal);
        if out.NeedBitmap? { id := Least(t, maps, min, max); }
      } else if bitmap.Pointer? {
        out := TakeFrom(xas, bitmap.p, min, max, bit);
      } else {
        id := xas.index * LEAF + bit;
        LeafIsEmpty(xas.index, bit, min, goal);
        out, used := FillEmpty(xas, bit, alloc, goal);
      }
    }

    /** ida_alloc_range from retry: on, with the cursor at the leaf of min. */
    method TryRange(xas: XaState, min: nat, max: nat, alloc: Option<nat>, ghost goal: Option<nat>)
      returns (out: Try, used: bool, ghost id: nat)
      requires Valid() && xas.xa == xa && xas.Valid() && xas.at.Restart? && xas.index == min / LEAF
      requires min <= INT_MAX && max <= INT_MAX && SpareOk(alloc, goal)
      requires goal.Some? ==> LeastFree(xa.View(), bitmaps, min, goal.value)
      modifies xas, xa, this
      ensures out.NeedBitmap? ==> quick == 0
      ensures out.NeedBitmap? || out.Failing? ==> xas.Memory() == old(xas.Memory())
      ensures out.Failing? ==> xa.quick == 0
      ensures Valid()
      ensures out.Got? ==>
                && !xas.at.Failed? && out.n <= max && LeastFree(old(xa.View()), old(bitmaps), min, out.n)
                && Becomes(old(xa.View()), old(bitmaps), xa.View(), bitmaps, out.n, true)
                && (alloc.Some? && !used ==> Unused(xa.View(), alloc.value))
      ensures !out.Got? ==> SameIds(old(xa.View()), old(bitmaps), xa.View(), bitmaps)
      ensures out.Full? ==> AllLiveIds(old(xa.View()), old(bitmaps), min, max + 1)
      ensures out.NeedBitmap? ==> alloc == None && xa.View() == old(xa.View()) && xas.Valid()
      ensures out.NeedBitmap? ==> id % LEAF >= INLINE
      ensures out.NeedBitmap? || out.Failing? ==>
                id <= max && LeastFree(old(xa.View()), old(bitmaps), min, id) && NeedsMemory(old(xa.View()), id)
      ensures out.Failing? ==>
                && xas.at == Failed(ENOMEM) && !xas.alloc && xas.Valid()
                && Grew(old(xa.View()), xa.View(), id / LEAF, old(xas.alloc), xas.alloc)
                && Get(old(xa.View()), id / LEAF).Empty? && SlotMissing(old(xa.View()), id / LEAF, false)
                && SpareOk(alloc, Some(id))
      ensures !out.Next?
    {
      var bit: nat := min % LEAF;
      ghost var s := min / LEAF;
      while true
        invariant Valid() && xa.View() == old(xa.View()) && bitmaps == old(bitmaps) && xas.alloc == old(xas.alloc)
        invariant xas.Memory() == old(xas.Memory())
        invariant xas.Valid() && (xas.at.Restart? || xas.AtSlot()) && s == xas.SearchFrom() && min / LEAF <= s <= LEAVES
        invariant if s == min / LEAF then bit == min % LEAF else AllLiveIds(xa.View(), bitmaps, min, s * LEAF)
        decreases LEAVES - s
      {
        var bitmap, full;
        bitmap, bit, full := NextLeaf(xas, min, max, bit, s);
        if full { return Full, false, 0; }
        out, used, id := TakeAt(xas, bitmap, min, max, bit, alloc, goal);
        if !out.Next? { return; }
        s := xas.index + 1;
      }
    }

    /** kfree of a bitmap that is not in the tree. */
    method Kfree(p: nat)
      requires Valid() && Unused(xa.View(), p)
      modifies this`bitmaps
      ensures Valid() && SameIds(xa.View(), old(bitmaps), xa.View(), bitmaps)
    {
      GrewSelf(xa.View());
      RoomOnly(xa.View(), bitmaps, xa.View(), bitmaps - {p});
      bitmaps := bitmaps - {p};
    }

    /** One try of an allocation that began with tree t0 and bitmaps maps0; a spare bitmap that was not
        needed is freed. */
    method TryFrom(xas: XaState, min: nat, max: nat, alloc: Option<nat>, ghost goal: Option<nat>,
                   ghost t0: Tree, ghost maps0: Bitmaps, ghost budget: nat, ghost aim: Option<nat>)
      returns (out: Try, used: bool, ghost id: nat)
      requires Valid() && xas.xa == xa && xas.Valid() && xas.at.Restart? && xas.index == min / LEAF
      requires min <= INT_MAX && max <= INT_MAX && SpareOk(alloc, goal)
      requires Shape(t0) && SameIds(t0, maps0, xa.View(), bitmaps)
      requires goal.Some? ==> LeastFree(t0, maps0, min, goal.value)
      requires Aiming(xas, t0, maps0, min, max, budget, aim)
      modifies xas, xa, this
      ensures out.NeedBitmap? ==> quick == 0 && id % LEAF >= INLINE
      ensures out.Failing? ==> xa.quick == 0 && !xas.alloc && Get(t0, id / LEAF).Empty? && SlotMissing(t0, id / LEAF, false)
      ensures out.NeedBitmap? || out.Failing? ==> Aiming(xas, t0, maps0, min, max, budget, Some(id))
      ensures Valid()
      ensures out.Got? ==>
                out.n <= max && LeastFree(t0, maps0, min, out.n) && Becomes(t0, maps0, xa.View(), bitmaps, out.n, true)
      ensures !out.Got? ==> SameIds(t0, maps0, xa.View(), bitmaps)
      ensures out.Full? ==> AllLiveIds(t0, maps0, min, max + 1)
      ensures out.NeedBitmap? || out.Failing? ==>
                xas.Valid() && id <= max && LeastFree(t0, maps0, min, id) && NeedsMemory(old(xa.View()), id)
      ensures out.NeedBitmap? ==> alloc == None
      ensures out.Failing? ==>
                && xas.at == Failed(ENOMEM) && SpareOk(alloc, Some(id)) && (goal.Some? ==> goal.value == id)
                && (old(xas.alloc) ==> Room(xa.nodes.Keys, id / LEAF) < Room(old(xa.nodes.Keys), id / LEAF))
      ensures !out.Next?
    {
      ghost var t, maps := xa.View(), bitmaps;
      SameLeast(t0, maps0, t, maps, min);
      out, used, id := TryRange(xas, min, max, alloc, goal);
      if out.Got? {
        AfterSame(t0, maps0, t, maps, xa.View(), bitmaps, out.n);
        if alloc.Some? && !used {
          ghost var u, more := xa.View(), bitmaps;
          Kfree(alloc.value);
          BeforeSame(t0, maps0, u, more, bitmaps, out.n);
        }
      } else {
        SameIdsTrans(t0, maps0, t, maps, xa.View(), bitmaps);
        if out.Failing? { LeastFreeGoal(t0, maps0, min, goal, id); }
        if !out.Full? { AimAgain(xas, t, t0, maps0, min, max, budget, aim, id, out); }
      }
    }

    /** The way out when no memory is to be had: a spare bitmap that was not used is freed. */
    method GiveUp(alloc: Option<nat>, used: bool, ghost goal: Option<nat>, ghost t0: Tree, ghost maps0: Bitmaps)
      requires Valid() && SpareOk(alloc, goal) && Shape(t0) && SameIds(t0, maps0, xa.View(), bitmaps)
      modifies this`bitmaps
      ensures Valid() && SameIds(t0, maps0, xa.View(), bitmaps)
    {
      if alloc.Some? && !used {
        ghost var u, more := xa.View(), bitmaps;
        Kfree(alloc.value);
        SameIdsTrans(t0, maps0, u, more, xa.View(), bitmaps);
      }
    }

    /** A new spare bitmap, if there is memory for one. */
    method GetSpare(ghost t0: Tree, ghost maps0: Bitmaps) returns (alloc: Option<nat>)
      requires Valid() && Shape(t0) && SameIds(t0, maps0, xa.View(), bitmaps)
      modifies this
      ensures quick == old(quick) && (alloc == None ==> slow == 0)
      ensures Valid() && SpareOk(alloc, None) && SameIds(t0, maps0, xa.View(), bitmaps)
    {
      ghost var u, more := xa.View(), bitmaps;
      alloc := Kzalloc(true);
      SameIdsTrans(t0, maps0, u, more, xa.View(), bitmaps);
    }

    /** What ida_alloc_range does before it retries: get a bitmap, or a node. Not ok is -ENOMEM. */
    method Prepare(xas: XaState, min: nat, alloc0: Option<nat>, used: bool, need: bool, ghost id: nat,
                   ghost t0: Tree, ghost maps0: Bitmaps, ghost max: nat, ghost budget: nat)
      returns (ok: bool, alloc: Option<nat>, ghost goal: Option<nat>)
      requires Valid() && xas.xa == xa && xas.Valid() && min < WORD && Shape(t0) && SameIds(t0, maps0, xa.View(), bitmaps)
      requires need ==> alloc0 == None
      requires !need ==> xas.at == Failed(ENOMEM) && SpareOk(alloc0, Some(id))
      requires Aiming(xas, t0, maps0, min, max, budget, Some(id))
      requires if need then quick == 0 && id % LEAF >= INLINE
               else xa.quick == 0 && !xas.alloc && Get(t0, id / LEAF).Empty? && SlotMissing(t0, id / LEAF, false)
      modifies xas`index, xas`at, xas`alloc, xa`slow, this
      ensures ok ==> Aiming(xas, t0, maps0, min, max, budget, Some(id))
      ensures !ok ==> OutOfMemory(t0, maps0, min, max, budget)
      ensures Valid() && xas.Valid() && SameIds(t0, maps0, xa.View(), bitmaps)
      ensures ok ==> xas.at.Restart? && xas.index == min / LEAF && SpareOk(alloc, goal)
      ensures ok && need ==> alloc.Some? && goal == None
      ensures ok && !need ==> alloc == alloc0 && goal == Some(id) && xas.alloc
    {
      alloc, goal := alloc0, Some(id);
      if need {
        alloc := GetSpare(t0, maps0);
        goal := None;
        ok := alloc.Some?;
        assert !ok ==> NoMemoryFor(this, t0, budget, id);
        if ok { xas.index, xas.at := min / LEAF, Restart; }
      } else {
        ok := xas.Nomem();
        if ok {
          xas.index := min / LEAF;
        } else {
          GiveUp(alloc, used, goal, t0, maps0);
          AllSpent(xas, t0, id / LEAF, budget);
          assert NoMemoryFor(this, t0, budget, id);
        }
      }
    }

    /** ida_alloc_range. */
    method AllocRange(min: nat, max0: nat) returns (res: AllocResult)
      requires Valid() && min < U32 && max0 < U32
      modifies xa, this
      ensures Valid()
      ensures var max := if max0 > INT_MAX then INT_MAX else max0;
        match res
        case Id(n) =>
          && min <= n <= max && LeastFree(old(xa.View()), old(bitmaps), min, n)
          && Becomes(old(xa.View()), old(bitmaps), xa.View(), bitmaps, n, true)
        case NoSpc =>
          && (min > INT_MAX || AllLiveIds(old(xa.View()), old(bitmaps), min, max + 1))
          && SameIds(old(xa.View()), old(bitmaps), xa.View(), bitmaps)
        case NoMem =>
          && min <= INT_MAX && OutOfMemory(old(xa.View()), old(bitmaps), min, max, old(xa.quick + xa.slow))
          && SameIds(old(xa.View()), old(bitmaps), xa.View(), bitmaps)
    {
      if min > INT_MAX { return NoSpc; }
      var max := if max0 > INT_MAX then INT_MAX else max0;
      ghost var t0, maps0, budget := xa.View(), bitmaps, xa.quick + xa.slow;
      var xas := new XaState(xa, min / LEAF);
      var alloc: Option<nat> := None;
      ghost var goal: Option<nat>, aim: Option<nat> := None, None;
      while true
        invariant fresh(xas) && Starting(xas, t0, maps0, min, max, budget, alloc, goal, aim)
        invariant SameIds(t0, maps0, xa.View(), bitmaps)
        decreases alloc == None, goal == None, if goal.Some? then Room(xa.nodes.Keys, goal.value / LEAF) else 0
      {
        var done;
        done, res, alloc, goal, aim := Round(xas, min, max, alloc, goal, t0, maps0, budget, aim);
        if done { return; }
      }
    }

    /** The state at retry:. */
    ghost predicate Starting(xas: XaState, t0: Tree, maps0: Bitmaps, min: nat, max: nat, budget: nat,
                             alloc: Option<nat>, goal: Option<nat>, aim: Option<nat>)
      reads this, xa, xas, xas.xa
    {
      && Valid() && xas.xa == xa && xas.Valid() && xas.at.Restart? && xas.index == min / LEAF && SpareOk(alloc, goal)
      && (goal.Some? ==> goal == aim && xas.alloc)
      && Aiming(xas, t0, maps0, min, max, budget, aim)
    }

    /** From retry: to the end or to retry: again, in an allocation that began with tree t0, bitmaps maps0
        and memory for budget nodes. */
    method Round(xas: XaState, min: nat, max: nat, alloc0: Option<nat>, ghost goal0: Option<nat>,
                 ghost t0: Tree, ghost maps0: Bitmaps, ghost budget: nat, ghost aim0: Option<nat>)
      returns (done: bool, res: AllocResult, alloc: Option<nat>, ghost goal: Option<nat>, ghost aim: Option<nat>)
      requires min <= INT_MAX && max <= INT_MAX
      requires Starting(xas, t0, maps0, min, max, budget, alloc0, goal0, aim0) && SameIds(t0, maps0, xa.View(), bitmaps)
      modifies xas, xa, this
      ensures Valid()
      ensures done ==>
        match res
        case Id(n) => n <= max && LeastFree(t0, maps0, min, n) && Becomes(t0, maps0, xa.View(), bitmaps, n, true)
        case NoSpc => AllLiveIds(t0, maps0, min, max + 1) && SameIds(t0, maps0, xa.View(), bitmaps)
        case NoMem => OutOfMemory(t0, maps0, min, max, budget) && SameIds(t0, maps0, xa.View(), bitmaps)
      ensures !done ==> Starting(xas, t0, maps0, min, max, budget, alloc, goal, aim) && SameIds(t0, maps0, xa.View(), bitmaps)
      ensures !done ==>
        if alloc0 == None && alloc.Some? then goal == None
        else alloc == alloc0 && goal.Some? && (goal0.Some? ==>
               goal == goal0 && Room(xa.nodes.Keys, goal.value / LEAF) < Room(old(xa.nodes.Keys), goal.value / LEAF))
    {
      var out, used, id := TryFrom(xas, min, max, alloc0, goal0, t0, maps0, budget, aim0);
      alloc, goal, aim := alloc0, goal0, Some(id);
      if out.Got? { return true, Id(out.n), alloc, goal, aim; }
      if out.Full? { return true, NoSpc, alloc, goal, aim; }
      var ok;
      ok, alloc, goal := Prepare(xas, min, alloc0, used, out.NeedBitmap?, id, t0, maps0, max, budget);
      done, res := !ok, NoMem;
    }

    /** The least free ID of the range needs memory, and there is none for it. */
    ghost predicate OutOfMemory(t0: Tree, maps0: Bitmaps, min: nat, max: nat, budget: nat)
      requires Shape(t0)
      reads this, xa
    {
      exists id: nat :: id <= max && LeastFree(t0, maps0, min, id) && NeedsMemory(t0, id) && NoMemoryFor(this, t0, budget, id)
    }

    /** In the retry loop of ida_alloc_range, which began with tree t0 and memory for budget nodes: after a
        try that found no memory, aim is the ID it was for. */
    ghost predicate Aiming(xas: XaState, t0: Tree, maps0: Bitmaps, min: nat, max: nat, budget: nat, aim: Option<nat>)
      reads this, xa, xas, xas.xa
    {
      && Shape(t0)
      && match aim
         case None => xa.View() == t0 && xas.Memory() == |t0.nodes| + budget
         case Some(id) =>
           && id <= max && LeastFree(t0, maps0, min, id) && NeedsMemory(t0, id) && Spending(xas, t0, id / LEAF, budget)
           && Shape(xa.View()) && SameContents(t0, xa.View())
           && (xa.View() == t0 || (Get(t0, id / LEAF).Empty? && SlotMissing(t0, id / LEAF, false)))
    }

    /** A further try that found no memory, from tree t on, was for the same ID. */
    lemma AimAgain(xas: XaState, t: Tree, t0: Tree, maps0: Bitmaps, min: nat, max: nat, budget: nat, aim: Option<nat>, id: nat, out: Try)
      requires Shape(t0) && Shape(t) && xas.xa == xa && Shape(xa.View()) && SameContents(t0, t) && (out.NeedBitmap? || out.Failing?)
      requires id <= max && LeastFree(t0, maps0, min, id) && NeedsMemory(t, id) && xas.Memory() == |t0.nodes| + budget
      requires if out.NeedBitmap? then xa.View() == t
               else OnWays(t.nodes.Keys, xa.nodes.Keys, id / LEAF) && SameContents(t, xa.View())
                    && Get(t, id / LEAF).Empty? && SlotMissing(t, id / LEAF, false)
      requires match aim
        case None => t == t0
        case Some(a) =>
          && LeastFree(t0, maps0, min, a) && NeedsMemory(t0, a) && OnWays(t0.nodes.Keys, t.nodes.Keys, a / LEAF)
          && (t == t0 || (Get(t0, a / LEAF).Empty? && SlotMissing(t0, a / LEAF, false)))
      ensures Aiming(xas, t0, maps0, min, max, budget, Some(id))
      ensures out.Failing? ==> Get(t0, id / LEAF).Empty? && SlotMissing(t0, id / LEAF, false)
    {
      if aim.Some? { LeastFreeUnique(t0, maps0, min, aim.value, id); }
      SameTrans(t0, t, xa.View());
    }

    // ----- giving an ID back

    /** v &= ~(1 << bit), in a leaf kept inline; a leaf with no bit left goes. */
    method DropInline(xas: XaState, v0: nat, bit: nat)
      requires AtLeaf(xas) && Get(xa.View(), xas.index) == Value(v0) && bit < INLINE && BitAt(v0, bit)
      modifies xas, xa
      ensures Valid() && Becomes(old(xa.View()), bitmaps, xa.View(), bitmaps, old(xas.index) * LEAF + bit, false)
    {
      ghost var t := xa.View();
      var v := WithoutBit(v0, bit, WIDTH);
      PutLeaf(xas, if v == 0 then Empty else Value(v), bitmaps);
      InlineDropped(t, bitmaps, xa.View(), xas.index, v0, v, bit, WIDTH);
    }

    /** The store of NULL where the bitmap, which had only bit left, was marked free and freed. */
    method DropLeaf(xas: XaState, p: nat, bit: nat, ghost t: Tree, ghost maps: Bitmaps)
      requires xas.xa == xa && xas.AtSlot() && xas.index < LEAVES && bit < LEAF
      requires IdaInv(t, maps) && Get(t, xas.index) == Pointer(p) && p in maps && |maps[p]| == LEAF
      requires maps[p][bit := false] == ClearBits() && bitmaps == maps - {p}
      requires xa.Valid() && Marked(t, xa.View(), xas.index, 0, true) && forall j: nat :: Get(xa.View(), j) == Get(t, j)
      modifies xas, xa
      ensures Valid() && Becomes(t, maps, xa.View(), bitmaps, old(xas.index) * LEAF + bit, false)
    {
      ghost var u := xa.View();
      assert Get(u, xas.index) == Pointer(p);
      var _ := xas.Store(Empty);
      BitmapGone(t, maps, u, xa.View(), bitmaps, xas.index, p, bit);
    }

    /** __clear_bit in a leaf kept as a bitmap. The leaf is marked free; with no bit left it goes. */
    method DropBit(xas: XaState, p: nat, bit: nat)
      requires AtLeaf(xas) && Get(xa.View(), xas.index) == Pointer(p) && p in bitmaps && |bitmaps[p]| == LEAF
      requires bit < LEAF && bitmaps[p][bit]
      modifies xas, xa, this`bitmaps
      ensures Valid()
      ensures Becomes(old(xa.View()), old(bitmaps), xa.View(), bitmaps, old(xas.index) * LEAF + bit, false)
    {
      ghost var t, maps, i := xa.View(), bitmaps, xas.index;
      bitmaps := bitmaps[p := bitmaps[p][bit := false]];
      assert !bitmaps[p][bit] && bitmaps[p][bit] in bitmaps[p];
      xas.SetMark(0);
      SameButTagsGet(t, xa.View());
      MarkPlain(t, xa.View(), i, 0, true);
      xas.KeepsSlot(t);
      if true !in bitmaps[p] {
        AllClear(bitmaps[p]);
        bitmaps := bitmaps - {p};
        DropLeaf(xas, p, bit, t, maps);
      } else {
        BitBecomes(t, maps, xa.View(), bitmaps, i, bit, false);
      }
    }

    /** ida_free. */
    method Free(id: nat) returns (res: FreeResult)
      requires Valid() && id <= INT_MAX
      modifies xa, this`bitmaps
      ensures Valid()
      ensures res == Freed <==> Live(old(xa.View()), old(bitmaps), id)
      ensures res == NullBitmap <==> Get(old(xa.View()), id / LEAF).Empty?
      ensures if res == Freed then Becomes(old(xa.View()), old(bitmaps), xa.View(), bitmaps, id, false)
              else SameIds(old(xa.View()), old(bitmaps), xa.View(), bitmaps)
    {
      var xas := new XaState(xa, id / LEAF);
      var bit: nat := id % LEAF;
      var bitmap := xas.Load();
      assert LeafInOrder(xa.View(), bitmaps, xas.index);
      NotLive(xa.View(), bitmaps, xas.index, bit);
      if bitmap.Value? {
        if bit >= INLINE || !TestBit(bitmap.v, bit) { return Warned; }
        DropInline(xas, bitmap.v, bit);
      } else {
        if bitmap.Empty? { return NullBitmap; }
        if !bitmaps[bitmap.p][bit] { return Warned; }
        DropBit(xas, bitmap.p, bit);
      }
      res := Freed;
    }

    lemma LeafIsEmpty(i: nat, bit: nat, min: nat, goal: Option<nat>)
      requires Valid() && bit < LEAF && !Get(xa.View(), i).Value? && !Get(xa.View(), i).Pointer?
      requires min <= i * LEAF + bit && AllLiveIds(xa.View(), bitmaps, min, i * LEAF + bit)
      requires goal.Some? ==> LeastFree(xa.View(), bitmaps, min, goal.value)
      ensures Get(xa.View(), i).Empty? && LeastFree(xa.View(), bitmaps, min, i * LEAF + bit)
      ensures goal.Some? ==> goal.value == i * LEAF + bit
      ensures (i * LEAF + bit) / LEAF == i
    {
      assert LeafInOrder(xa.View(), bitmaps, i);
      NotLive(xa.View(), bitmaps, i, bit);
      if goal.Some? { LeastFreeUnique(xa.View(), bitmaps, min, goal.value, i * LEAF + bit); }
    }

    lemma SpareKept(alloc: Option<nat>, t: Tree, i: nat, bit: nat)
      requires Valid() && Shape(t) && SameContents(t, xa.View()) && Get(t, i).Empty? && bit < LEAF
      requires alloc.Some? ==>
                 && alloc.value in bitmaps && |bitmaps[alloc.value]| == LEAF && Unused(t, alloc.value)
                 && forall b: nat :: b < LEAF && bitmaps[alloc.value][b] ==> b == bit
      ensures SpareOk(alloc, Some(i * LEAF + bit))
    {
      assert Get(xa.View(), i) == Get(t, i);
      if alloc.Some? {
        forall j: nat
          ensures Get(xa.View(), j) != Pointer(alloc.value)
        {
          assert Get(xa.View(), j) == Get(t, j);
        }
      }
    }
  }

  lemma NotLive(t: Tree, maps: Bitmaps, i: nat, b: nat)
    requires Shape(t) && b < LEAF
    ensures Live(t, maps, i * LEAF + b) <==> LeafBits(Get(t, i), maps)[b]
  {
    assert (i * LEAF + b) / LEAF == i && (i * LEAF + b) % LEAF == b;
  }

  lemma SameLeast(t: Tree, maps: Bitmaps, u: Tree, more: Bitmaps, min: nat)
    requires Shape(t) && Shape(u) && SameIds(t, maps, u, more)
    ensures forall n: nat :: AllLiveIds(u, more, min, n) <==> AllLiveIds(t, maps, min, n)
    ensures forall n: nat :: LeastFree(u, more, min, n) <==> LeastFree(t, maps, min, n)
  {
    forall n: nat
      ensures AllLiveIds(u, more, min, n) <==> AllLiveIds(t, maps, min, n)
    {
      if AllLiveIds(u, more, min, n) {
        assert forall m: nat :: min <= m < n ==> Live(u, more, m) && (Live(u, more, m) <==> Live(t, maps, m));
      }
    }
  }

  lemma AfterSame(t: Tree, maps: Bitmaps, u: Tree, more: Bitmaps, v: Tree, last: Bitmaps, n: nat)
    requires Shape(t) && Shape(u) && Shape(v) && SameIds(t, maps, u, more) && Becomes(u, more, v, last, n, true)
    ensures Becomes(t, maps, v, last, n, true)
  {
    forall m: nat
      ensures Live(v, last, m) <==> m == n || Live(t, maps, m)
    {
      assert Live(u, more, m) <==> Live(t, maps, m);
    }
  }

  lemma LowTop(t: Tree)
    requires Low(t)
    ensures MaxIndex(t.head) < WORD - 1
  {
    assert Pow(6) == 0x100_0000 by { assert Pow(3) == 4096; assert Pow(6) == 4096 * Pow(3); }
    if t.head.Inner? { PowMono(t.head.ref.level + 1, 6); }
  }

  lemma SameIdsTrans(t: Tree, maps: Bitmaps, u: Tree, more: Bitmaps, v: Tree, last: Bitmaps)
    requires Shape(t) && Shape(u) && Shape(v) && SameIds(t, maps, u, more) && SameIds(u, more, v, last)
    ensures SameIds(t, maps, v, last)
  {
    forall m: nat
      ensures Live(v, last, m) <==> Live(t, maps, m)
    {
      assert Live(v, last, m) <==> Live(u, more, m);
    }
  }

  lemma BeforeSame(t: Tree, maps: Bitmaps, u: Tree, more: Bitmaps, last: Bitmaps, n: nat)
    requires Shape(t) && Shape(u) && Becomes(t, maps, u, more, n, true) && SameIds(u, more, u, last)
    ensures Becomes(t, maps, u, last, n, true)
  {
    forall m: nat
      ensures Live(u, last, m) <==> m == n || Live(t, maps, m)
    {
      assert Live(u, last, m) <==> Live(u, more, m);
    }
  }

  lemma LeastFreeGoal(t: Tree, maps: Bitmaps, min: nat, goal: Option<nat>, id: nat)
    requires Shape(t) && LeastFree(t, maps, min, id) && (goal.Some? ==> LeastFree(t, maps, min, goal.value))
    ensures goal.Some? ==> goal.value == id
  {
    if goal.Some? { LeastFreeUnique(t, maps, min, goal.value, id); }
  }

  ghost function Least(t: Tree, maps: Bitmaps, min: nat, max: nat): (n: nat)
    requires Shape(t) && MustHaveBitmap(t, maps, min, max)
    ensures n <= max && LeastFree(t, maps, min, n) && NeedsMemory(t, n) && n % LEAF >= INLINE
  {
    var id: nat :| id <= max && LeastFree(t, maps, min, id) && NeedsMemory(t, id) && id % LEAF >= INLINE; id
  }

  lemma EmptyLeaf(t: Tree, maps: Bitmaps, i: nat)
    requires IdaInv(t, maps) && Get(t, i).Empty?
    ensures TagAt(t, i, 0)
  {
    assert LeafInOrder(t, maps, i) && !ClearBits()[0];
  }

  lemma SingleInline(bit: nat)
    requires bit < INLINE
    ensures 0 < Pow2(bit) < Pow2(INLINE) && ValueBits(Pow2(bit)) == ClearBits()[bit := true]
  {
    PowUp(bit + 1, INLINE);
    forall c: nat
      ensures BitAt(Pow2(bit), c) <==> c == bit
    {
      PowBit(bit, c);
    }
  }

  /** The entry of a leaf with one bit, kept inline or in a bitmap that is not in the tree. */
  ghost predicate First(t: Tree, maps: Bitmaps, bit: nat, e: Entry)
    requires Shape(t)
  {
    match e
    case Value(v) => bit < INLINE && v == Pow2(bit)
    case Pointer(p) => Unused(t, p) && p in maps && |maps[p]| == LEAF && forall b: nat :: b < LEAF ==> maps[p][b] == (b == bit)
    case _ => false
  }

  lemma FilledLeaf(t: Tree, maps: Bitmaps, u: Tree, more: Bitmaps, i: nat, bit: nat, e: Entry)
    requires IdaInv(t, maps) && Get(t, i).Empty? && i < LEAVES && bit < LEAF
    requires Shape(u) && LeafChange(t, maps, u, more, i) && Get(u, i) == e && TagAt(u, i, 0)
    requires First(t, more, bit, e)
    ensures IdaInv(u, more) && Becomes(t, maps, u, more, i * LEAF + bit, true)
  {
    if e.Value? { SingleInline(bit); }
    assert LeafBits(e, more) == ClearBits()[bit := true];
    assert LeafBits(e, more)[bit] && !LeafBits(e, more)[if bit == 0 then 1 else 0];
    BitBecomes(t, maps, u, more, i, bit, true);
  }

  lemma StoredLeaf(t: Tree, maps: Bitmaps, u: Tree, more: Bitmaps, i: nat, e: Entry)
    requires IdaInv(t, maps) && Inv(u, false) && Stored(t, u, i, e) && NotTaller(t, u, i) && i < LEAVES
    requires forall j: nat, p: nat :: j != i && Get(t, j) == Pointer(p) && p in maps ==> p in more && more[p] == maps[p]
    ensures LeafChange(t, maps, u, more, i) && Get(u, i) == e
    ensures TagAt(u, i, 0) <==> e.Empty? || TagAt(t, i, 0)
  {
    LowKept(t, u, i);
  }

  lemma InlineTaken(t: Tree, maps: Bitmaps, u: Tree, i: nat, tmp: nat, bit: nat)
    requires IdaInv(t, maps) && Get(t, i) == Value(tmp) && bit < INLINE
    requires Shape(u) && LeafChange(t, maps, u, maps, i) && Get(u, i) == Value(Or(tmp, Pow2(bit)))
    requires TagAt(u, i, 0) <==> TagAt(t, i, 0)
    ensures IdaInv(u, maps) && Becomes(t, maps, u, maps, i * LEAF + bit, true)
    ensures forall q: nat :: Unused(t, q) ==> Unused(u, q)
  {
    assert LeafInOrder(t, maps, i);
    InlineBits(tmp, bit);
    assert !ValueBits(Or(tmp, Pow2(bit)))[INLINE] && !ValueBits(tmp)[INLINE];
    BitBecomes(t, maps, u, maps, i, bit, true);
  }

  lemma Converted(t: Tree, maps: Bitmaps, u: Tree, more: Bitmaps, i: nat, tmp: nat, p: nat)
    requires IdaInv(t, maps) && Get(t, i) == Value(tmp) && Unused(t, p)
    requires p in more && more[p] == ValueBits(tmp)
    requires Shape(u) && LeafChange(t, maps, u, more, i) && Get(u, i) == Pointer(p) && (TagAt(u, i, 0) <==> TagAt(t, i, 0))
    ensures IdaInv(u, more) && SameIds(t, maps, u, more)
  {
    assert LeafInOrder(t, maps, i);
    var b := SomeBit(tmp, INLINE);
    assert ValueBits(tmp)[b];
    BitsSame(t, maps, u, more, i);
  }

  /** v & ~(1 << bit), in words of n bits. */
  function WithoutBit(v: nat, bit: nat, n: nat): nat
    requires bit < n
  {
    PowUp(bit + 1, n);
    And(v, Pow2(n) - 1 - Pow2(bit))
  }

  lemma DroppedBit(v0: nat, bit: nat, n: nat, c: nat)
    requires v0 < Pow2(n) && bit < n
    ensures WithoutBit(v0, bit, n) <= v0
    ensures BitAt(WithoutBit(v0, bit, n), c) <==> BitAt(v0, c) && c != bit
  {
    AndNotBit(v0, bit, n, c);
  }

  lemma DroppedBits(v0: nat, v: nat, bit: nat, n: nat)
    requires v0 < Pow2(n) && bit < INLINE <= n && v == WithoutBit(v0, bit, n)
    ensures v <= v0
    ensures ValueBits(v) == ValueBits(v0)[bit := false]
    ensures v == 0 ==> ValueBits(v) == ClearBits()
  {
    DroppedBit(v0, bit, n, 0);
    forall c: nat
      ensures BitAt(v, c) <==> BitAt(v0, c) && c != bit
      ensures v == 0 ==> !BitAt(v, c)
    {
      DroppedBit(v0, bit, n, c);
      if v == 0 { ZeroBits(c); }
    }
  }

  lemma InlineDropped(t: Tree, maps: Bitmaps, u: Tree, i: nat, v0: nat, v: nat, bit: nat, n: nat)
    requires IdaInv(t, maps) && Get(t, i) == Value(v0) && bit < INLINE <= n && BitAt(v0, bit)
    requires Shape(u) && LeafChange(t, maps, u, maps, i) && v == WithoutBit(v0, bit, n)
    requires Get(u, i) == (if v == 0 then Empty else Value(v)) && (TagAt(u, i, 0) <==> v == 0 || TagAt(t, i, 0))
    ensures IdaInv(u, maps) && Becomes(t, maps, u, maps, i * LEAF + bit, false)
  {
    assert LeafInOrder(t, maps, i);
    PowUp(INLINE, n);
    DroppedBits(v0, v, bit, n);
    assert LeafBits(Get(u, i), maps) == ValueBits(v0)[bit := false];
    assert !LeafBits(Get(u, i), maps)[INLINE] && !ValueBits(v0)[INLINE];
    BitBecomes(t, maps, u, maps, i, bit, false);
  }

  lemma AllClear(s: seq<bool>)
    requires |s| == LEAF && true !in s
    ensures s == ClearBits()
  {
    forall b: nat | b < LEAF
      ensures !s[b]
    {
      assert s[b] in s;
    }
  }

  lemma BitmapGone(t: Tree, maps: Bitmaps, u: Tree, v: Tree, more: Bitmaps, i: nat, p: nat, bit: nat)
    requires IdaInv(t, maps) && Get(t, i) == Pointer(p) && p in maps && |maps[p]| == LEAF && bit < LEAF
    requires maps[p][bit := false] == ClearBits() && more == maps - {p}
    requires Inv(u, false) && Marked(t, u, i, 0, true) && (forall j: nat :: Get(u, j) == Get(t, j))
    requires Inv(v, false) && Stored(u, v, i, Empty) && NotTaller(u, v, i) && i < LEAVES
    ensures IdaInv(v, more) && Becomes(t, maps, v, more, i * LEAF + bit, false)
  {
    LowKept(u, v, i);
    forall j: nat | j != i
      ensures Get(v, j) == Get(t, j) && (TagAt(v, j, 0) <==> TagAt(t, j, 0)) && Get(t, j) != Pointer(p)
    {
      assert Get(u, j) == Get(t, j) && (TagAt(u, j, 0) <==> TagAt(t, j, 0));
    }
    assert Get(v, i) == Empty && TagAt(v, i, 0) && !ClearBits()[0];
    BitBecomes(t, maps, v, more, i, bit, false);
  }

  lemma InlineBits(tmp: nat, bit: nat)
    requires tmp < Pow2(INLINE) && bit < INLINE
    ensures 0 < Or(tmp, Pow2(bit)) < Pow2(INLINE)
    ensures ValueBits(Or(tmp, Pow2(bit))) == ValueBits(tmp)[bit := true]
  {
    PowUp(bit + 1, INLINE);
    OrWord(tmp, Pow2(bit), INLINE);
    forall c: nat
      ensures BitAt(Or(tmp, Pow2(bit)), c) <==> BitAt(tmp, c) || c == bit
    {
      OrBit(tmp, bit, c);
    }
    if Or(tmp, Pow2(bit)) == 0 { ZeroBits(bit); }
  }

  lemma GrewSelf(t: Tree)
    requires Shape(t)
    ensures SameContents(t, t)
  {
  }
}
