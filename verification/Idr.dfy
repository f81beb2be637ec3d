/** lib/idr.c: the ID allocator on top of the radix tree. */
module Idr {
  import opened Wrappers
  import opened Digits
  import opened TreeState
  import TreeSteps
  import opened TreeCounts
  import opened TreeTags
  import opened TreeWalk
  import opened TreeSearch
  import opened RadixTree

  const INT_MIN: int := -0x8000_0000

  datatype Error = Ok | ENoSpc | ENoMem | EInval

  /** The live IDs of a tree, as tree indices, with what is stored for each. NULL is allowed. */
  ghost function Ids(t: Tree): imap<nat, Entry>
    requires Shape(t)
  {
    imap i: nat | !TagAt(t, i, 0) :: Get(t, i)
  }

  /** A conversion to u32. */
  function ToU32(x: int): (r: nat)
    ensures r < U32 && (0 <= x < U32 ==> r == x)
  {
    x % U32
  }

  /** A u32 read as an int. */
  function ToInt(x: nat): int
    requires x < U32
  {
    if x <= INT_MAX then x else x - U32
  }

  /** The largest ID an allocation below end may return. */
  function Limit(end: int): (r: nat)
    requires end <= INT_MAX
    ensures r <= INT_MAX
  {
    if end > 0 then end - 1 else INT_MAX
  }

  /** Where a cyclic search begins: at the cursor, unless it is below start as an int. */
  function Cursor(next: nat, start: int): (r: nat)
    requires next < U32 && INT_MIN <= start <= INT_MAX
    ensures r < U32 && (start >= 0 ==> start <= r <= INT_MAX)
  {
    if ToInt(next) < start then ToU32(start) else next
  }

  /** No index from lo to hi is free. */
  ghost predicate NoneFree(ids: imap<nat, Entry>, lo: nat, hi: nat) {
    forall i: nat :: lo <= i <= hi ==> i in ids
  }

  /** r is the least free index from lo to hi, None when none is free. */
  ghost predicate Least(ids: imap<nat, Entry>, lo: nat, hi: nat, r: Option<nat>) {
    match r
    case None => NoneFree(ids, lo, hi)
    case Some(i) => lo <= i <= hi && i !in ids && forall j: nat :: lo <= j < i ==> j in ids
  }

  /** r is the least free index from one start to hi; where none is, and there is another start, the least
      from that one to hi. */
  ghost predicate OneOrOther(ids: imap<nat, Entry>, from: nat, other: nat, hi: nat, twice: bool, r: Option<nat>) {
    if exists j: nat :: from <= j <= hi && j !in ids then
      r.Some? && from <= r.value <= hi && r.value !in ids && forall j: nat :: from <= j < r.value ==> j in ids
    else if twice && exists j: nat :: other <= j <= hi && j !in ids then
      r.Some? && other <= r.value <= hi && r.value !in ids && forall j: nat :: other <= j < r.value ==> j in ids
    else r == None
  }

  class IDR {
    const rt: Root
    const base: nat        // idr_base, an unsigned int
    var next: nat          // idr_next, an unsigned int

    ghost predicate Valid()
      reads this, rt
    {
      rt.Valid() && rt.idr && base < U32 && next < U32
    }

    /** The live IDs, numbered from the base. */
    ghost function Live(): imap<nat, Entry>
      requires Valid()
      reads this, rt
    {
      Ids(rt.View())
    }

    constructor (base_: nat, lowestFfs: bool)
      requires base_ < U32
      ensures Valid() && fresh(rt) && base == base_ && next == 0 && Live() == imap[] && rt.lowest == lowestFfs
    {
      rt := new Root(true, lowestFfs);
      base := base_;
      next := 0;
    }

    /** The first index an allocation for IDs from nextid upwards may use. */
    function First(nextid: int): nat
      requires nextid >= 0
    {
      if nextid < base then 0 else nextid - base
    }

    /** The last index such an allocation may use: below the base it wraps. */
    function Last(max: nat): (r: nat)
      requires max < WORD
      ensures r < WORD
    {
      (max - base) % WORD
    }

    /** The ID of a tree index in range. */
    lemma IdInRange(index: nat, nextid: nat, max: nat)
      requires base < U32 && nextid < U32 && max < WORD && First(nextid) <= index <= Last(max)
      ensures index + base < U32 ==> ToU32(index + base) == index + base && nextid <= index + base && (index + base <= max <==> base <= max)
      ensures base <= max < U32 ==> index + base < U32
    {
    }

    /** The tree index that a search of this range comes to; None is -ENOSPC. */
    ghost function Next(first: nat, max: nat): Option<nat>
      requires Valid()
      reads this, rt
    {
      FreeIndex(rt.View(), first, max, rt.lowest)
    }

    /** When __ffs() finds the lowest bit, or no jump of that search passes anything free. */
    ghost predicate Exact(first: nat, max: nat)
      requires Valid()
      reads this, rt
    {
      rt.lowest || DirectFrom(rt.View(), first, max)
    }

    /** What the one or two searches of idr_alloc_cyclic come to. */
    ghost function NextCyclic(start: int, hi: nat): Option<nat>
      requires Valid() && INT_MIN <= start <= INT_MAX
      reads this, rt
    {
      var r := Next(First(Cursor(next, start)), hi);
      if r == None && Cursor(next, start) > ToU32(start) then Next(First(ToU32(start)), hi) else r
    }

    /** r is the least free index from the cursor on, or, if there is none, from start on in case the cursor
        is above it. */
    ghost predicate Cyclic(ids: imap<nat, Entry>, next0: nat, start: int, hi: nat, r: Option<nat>)
      requires next0 < U32 && INT_MIN <= start <= INT_MAX
    {
      var from := First(Cursor(next0, start));
      if NoneFree(ids, from, hi) && Cursor(next0, start) > ToU32(start)
      then Least(ids, First(ToU32(start)), hi, r) else Least(ids, from, hi, r)
    }

    /** The first search finds nothing, and there is a second one. */
    ghost predicate Twice(start: int, hi: nat)
      requires Valid() && INT_MIN <= start <= INT_MAX
      reads this, rt
    {
      Next(First(Cursor(next, start)), hi) == None && Cursor(next, start) > ToU32(start)
    }

    /** The first search is exact, and so is the second, if there is one. */
    ghost predicate ExactCyclic(start: int, hi: nat)
      requires Valid() && INT_MIN <= start <= INT_MAX
      reads this, rt
    {
      Exact(First(Cursor(next, start)), hi) && (Twice(start, hi) ==> Exact(First(ToU32(start)), hi))
    }

    /** The result is what callers expect if and only if the searches are exact. Only where the first search
        misses what is free, and a second one is made, can that one happen to come to it still. */
    lemma CyclicExact(start: int, hi: nat)
      requires Valid() && INT_MIN <= start <= INT_MAX
      ensures var from, lo := First(Cursor(next, start)), First(ToU32(start));
        Cyclic(Live(), next, start, hi, NextCyclic(start, hi)) <==>
          if Twice(start, hi) && !Exact(from, hi) then Least(Live(), from, hi, Next(lo, hi)) else ExactCyclic(start, hi)
      ensures start >= 0 && ExactCyclic(start, hi) ==> (NextCyclic(start, hi) == None <==> NoneFree(Live(), First(start), hi))
    {
      var from, lo := First(Cursor(next, start)), First(ToU32(start));
      NextLeast(from, hi);
      NextLeast(lo, hi);
      NextFree(from, hi);
      CyclicCases(Live(), next, start, hi, Next(from, hi), Next(lo, hi), Exact(from, hi), Exact(lo, hi));
    }

    /** What idr_alloc_cyclic comes to when its searches are exact: the cursor, as an int, is compared with
        start; below it, the search is from start. */
    ghost predicate Expected(start: int, end: int, r: Option<nat>)
      requires Valid()
      reads this, rt
    {
      var s := if start < 0 then start + 0x1_0000_0000 else start;
      var n := if next <= 0x7fff_ffff then next else next - 0x1_0000_0000;
      var c := if n < start then s else next;
      var from, lo := if c < base then 0 else c - base, if s < base then 0 else s - base;
      var hi := ((if end > 0 then end - 1 else 0x7fff_ffff) - base) % 0x1_0000_0000_0000_0000;
      rt.lowest || (DirectFrom(rt.View(), from, hi) && DirectFrom(rt.View(), lo, hi)) ==>
        OneOrOther(Live(), from, lo, hi, c > s, r)
    }

    lemma CyclicSays(start: int, end: int)
      requires Valid() && INT_MIN <= start <= INT_MAX && INT_MIN <= end <= INT_MAX
      ensures Expected(start, end, NextCyclic(start, Last(Limit(end))))
    {
      var from, lo, hi := First(Cursor(next, start)), First(ToU32(start)), Last(Limit(end));
      NextLeast(from, hi);
      NextLeast(lo, hi);
      CursorSays(start);
      RangeSays(0, Limit(end));
      if Exact(from, hi) && Exact(lo, hi) {
        OneOfTwo(Live(), from, lo, hi, Cursor(next, start) > ToU32(start), Next(from, hi), Next(lo, hi));
      }
    }

    lemma CursorSays(start: int)
      requires next < U32 && INT_MIN <= start <= INT_MAX
      ensures var s := if start < 0 then start + 0x1_0000_0000 else start;
        var n := if next <= 0x7fff_ffff then next else next - 0x1_0000_0000;
        var c := if n < start then s else next;
        && ToU32(start) == s && Cursor(next, start) == c
        && First(c) == (if c < base then 0 else c - base) && First(s) == if s < base then 0 else s - base
    {
    }

    lemma OneOfTwo(ids: imap<nat, Entry>, from: nat, lo: nat, hi: nat, twice: bool, r: Option<nat>, q: Option<nat>)
      requires Least(ids, from, hi, r) && Least(ids, lo, hi, q)
      ensures OneOrOther(ids, from, lo, hi, twice, if r == None && twice then q else r)
    {
    }

    lemma RangeSays(nextid: nat, max: nat)
      requires max < WORD
      ensures First(nextid) == (if nextid < base then 0 else nextid - base) && Last(max) == (max - base) % 0x1_0000_0000_0000_0000
    {
    }

    /** What a search comes to is free. */
    lemma NextFree(first: nat, max: nat)
      requires Valid()
      ensures var r := Next(first, max); r.Some? ==> first <= r.value <= max && r.value !in Live()
    {
      FreeIndexExact(rt.View(), first, max, rt.lowest);
    }

    lemma CyclicCases(ids: imap<nat, Entry>, next0: nat, start: int, hi: nat, r: Option<nat>, q: Option<nat>, e: bool, e2: bool)
      requires next0 < U32 && INT_MIN <= start <= INT_MAX
      requires var from, lo := First(Cursor(next0, start)), First(ToU32(start));
        && (Least(ids, from, hi, r) <==> e) && (Least(ids, lo, hi, q) <==> e2)
        && (r.Some? ==> from <= r.value <= hi && r.value !in ids)
      ensures var two := r == None && Cursor(next0, start) > ToU32(start);
        var s := if two then q else r;
        && (Cyclic(ids, next0, start, hi, s) <==>
              if two && !e then Least(ids, First(Cursor(next0, start)), hi, q) else e && (two ==> e2))
        && (start >= 0 && e && (two ==> e2) ==> (s == None <==> NoneFree(ids, First(start), hi)))
    {
    }

    lemma NextLeast(first: nat, max: nat)
      requires Valid()
      ensures Least(Live(), first, max, Next(first, max)) <==> Exact(first, max)
    {
      FreeIndexExact(rt.View(), first, max, rt.lowest);
      LeastIds(rt.View(), first, max, Next(first, max));
    }

    /** idr_get_free, in terms of the live IDs. */
    method Search(first: nat, max: nat) returns (res: FreeResult)
      requires Valid() && first < WORD && max < WORD
      modifies rt
      ensures Valid() && Live() == old(Live())
      ensures res.Found? ==> old(Next(first, max)) == Some(res.index) && TagAt(rt.View(), res.index, 0)
                             && SlotOf(rt.View(), res.index, Some(res.node), res.offset)
      ensures res.NoSpace? <==> old(Next(first, max)) == None
      ensures res.NoSpace? ==> rt.View() == old(rt.View())
      ensures res.NoMem? ==> rt.spare == 0 && |rt.nodes| == old(|rt.nodes| + rt.spare) && At(old(Next(first, max)).value, 0) !in old(rt.nodes)
      ensures Least(Live(), first, max, old(Next(first, max))) <==> old(Exact(first, max))
      ensures old(Next(first, max)).Some? ==> first <= old(Next(first, max)).value <= max && old(Next(first, max)).value !in Live()
      ensures first <= max && first !in Live() ==> old(Next(first, max)) == Some(first)
    {
      ghost var t := rt.View();
      res := rt.GetFree(first, max);
      SameIds(t, rt.View());
      FreeIndexExact(t, first, max, rt.lowest);
      LeastIds(t, first, max, FreeIndex(t, first, max, rt.lowest));
    }

    /** idr_alloc_u32. index is the tree index of the new ID; the ID itself is index + base in
        32 bits, and max - base wraps when max is below the base. */
    method AllocU32(ptr: Entry, nextid: nat, max: nat) returns (err: Error, id: nat, ghost index: nat)
      requires Valid() && nextid < U32 && max < WORD && (ptr.Empty? || ptr.Value? || ptr.Pointer?)
      modifies rt
      ensures Valid() && err != EInval
      ensures err == Ok ==>
                && First(nextid) <= index <= Last(max)
                && index !in old(Live()) && Live() == old(Live())[index := ptr]
                && id == (index + base) % U32
      ensures err == Ok && index + base < U32 ==> id == index + base && nextid <= id && (id <= max <==> base <= max)
      ensures err == Ok && base <= max < U32 ==> index + base < U32
      ensures err == Ok ==> old(Next(First(nextid), Last(max))) == Some(index)
      ensures err == ENoSpc <==> old(Next(First(nextid), Last(max))) == None
      ensures Least(old(Live()), First(nextid), Last(max), old(Next(First(nextid), Last(max))))
              <==> old(Exact(First(nextid), Last(max)))
      ensures err == Ok && First(nextid) !in old(Live()) ==> index == First(nextid)
      ensures err != Ok ==> Live() == old(Live()) && id == nextid
      ensures err == ENoSpc ==> rt.View() == old(rt.View())
      // out of memory: no node was to be had for the leaf of the index that was found
      ensures err == ENoMem ==>
                && rt.spare == 0 && |rt.nodes| == old(|rt.nodes| + rt.spare)
                && At(old(Next(First(nextid), Last(max))).value, 0) !in old(rt.nodes)
      ensures err == ENoSpc && First(nextid) <= Last(max) ==> First(nextid) in old(Live())
      ensures var lo, hi := if nextid < base then 0 else nextid - base, (max - base) % 0x1_0000_0000_0000_0000;
        && (err == Ok ==> lo <= index <= hi)
        && (old(rt.lowest || DirectFrom(rt.View(), lo, hi)) ==>
              err == ENoMem || Least(old(Live()), lo, hi, if err == Ok then Some(index) else None))
    {
      RangeSays(nextid, max);
      var i;
      err, i := Claim(ptr, First(nextid), Last(max));
      id, index := nextid, i;
      if err == Ok {
        id := ToU32(i + base);
        IdInRange(i, nextid, max);
      }
    }

    /** The part of idr_alloc_u32 on the tree: the index of the search becomes live. */
    method Claim(ptr: Entry, first: nat, hi: nat) returns (err: Error, index: nat)
      requires Valid() && first < WORD && hi < WORD && (ptr.Empty? || ptr.Value? || ptr.Pointer?)
      modifies rt
      ensures Valid() && err != EInval
      ensures err == Ok ==>
                && first <= index <= hi && index !in old(Live()) && Live() == old(Live())[index := ptr]
                && old(Next(first, hi)) == Some(index)
      ensures err == ENoSpc <==> old(Next(first, hi)) == None
      ensures Least(old(Live()), first, hi, old(Next(first, hi))) <==> old(Exact(first, hi))
      ensures first <= hi && first !in old(Live()) ==> old(Next(first, hi)) == Some(first)
      ensures err != Ok ==> Live() == old(Live())
      ensures err == ENoSpc ==> rt.View() == old(rt.View())
      ensures err == ENoMem ==>
                && rt.spare == 0 && |rt.nodes| == old(|rt.nodes| + rt.spare)
                && At(old(Next(first, hi)).value, 0) !in old(rt.nodes)
    {
      index := 0;
      var res := Search(first, hi);
      match res {
        case NoSpace => err := ENoSpc;
        case NoMem => err := ENoMem;
        case Found(i, node, offset) =>
          index := i;
          ghost var t := rt.View();
          rt.TakeSlot(node, offset, ptr, i);
          TakenIds(t, rt.View(), i, ptr);
          err := Ok;
      }
    }

    /** idr_alloc: end is exclusive, and an end of 0 or less means no limit below INT_MAX. */
    method Alloc(ptr: Entry, start: int, end: int) returns (err: Error, id: nat, ghost index: nat)
      requires Valid() && (ptr.Empty? || ptr.Value? || ptr.Pointer?)
      requires INT_MIN <= start <= INT_MAX && INT_MIN <= end <= INT_MAX
      modifies rt
      ensures Valid()
      ensures err == EInval <==> start < 0
      ensures err == Ok ==>
                && index !in old(Live()) && Live() == old(Live())[index := ptr]
                && id == (index + base) % U32
      ensures err == Ok && base <= Limit(end) ==> start <= id <= Limit(end) && id == index + base
      ensures err != Ok ==> Live() == old(Live())
      ensures err == ENoMem ==> rt.spare == 0
      ensures err == ENoMem && start >= 0 ==>
                var r := old(Next(First(start), Last(Limit(end)))); r.Some? && At(r.value, 0) !in old(rt.nodes)
      ensures start >= 0 ==>
                var r := old(Next(First(start), Last(Limit(end))));
                && (err == Ok ==> r == Some(index)) && (err == ENoSpc <==> r == None)
                && (Least(old(Live()), First(start), Last(Limit(end)), r)
                    <==> old(Exact(First(start), Last(Limit(end)))))
      ensures start >= 0 ==>
                var lo, last := if start < base then 0 else start - base, if end > 0 then end - 1 else 0x7fff_ffff;
                var hi := (last - base) % 0x1_0000_0000_0000_0000;
                && (err == Ok ==> lo <= index <= hi && (base <= last ==> start <= id <= last))
                && (old(rt.lowest || DirectFrom(rt.View(), lo, hi)) ==>
                      err == ENoMem || Least(old(Live()), lo, hi, if err == Ok then Some(index) else None))
    {
      if start < 0 { return EInval, 0, 0; }
      err, id, index := AllocU32(ptr, start, Limit(end));
    }

    /** idr_alloc_cyclic: from the cursor, then once more from start if the cursor is above it. A negative
        start is not rejected; it is compared and used as a u32. */
    method AllocCyclic(ptr: Entry, start: int, end: int) returns (err: Error, id: nat, ghost index: nat)
      requires Valid() && (ptr.Empty? || ptr.Value? || ptr.Pointer?)
      requires INT_MIN <= start <= INT_MAX && INT_MIN <= end <= INT_MAX
      modifies this, rt
      ensures Valid() && err != EInval
      ensures err == Ok ==>
                && index !in old(Live()) && Live() == old(Live())[index := ptr]
                && id == (index + base) % U32 && next == (id + 1) % U32
      ensures err == Ok && base <= Limit(end) && start >= 0 ==> start <= id <= Limit(end) && id == index + base
      ensures err != Ok ==> Live() == old(Live()) && next == old(next) && (err == ENoMem ==> rt.spare == 0)
      ensures err == Ok ==> old(NextCyclic(start, Last(Limit(end)))) == Some(index)
      ensures err == ENoSpc <==> old(NextCyclic(start, Last(Limit(end)))) == None
      ensures old(ExactCyclic(start, Last(Limit(end)))) ==>
                && Cyclic(old(Live()), old(next), start, Last(Limit(end)), old(NextCyclic(start, Last(Limit(end)))))
                && (start >= 0 ==> (err == ENoSpc <==> NoneFree(old(Live()), First(start), Last(Limit(end)))))
      ensures err != ENoMem ==> old(Expected(start, end, if err == Ok then Some(index) else None))
    {
      CyclicExact(start, Last(Limit(end)));
      CyclicSays(start, end);
      ghost var r := NextCyclic(start, Last(Limit(end)));
      err, id, index := TryCyclic(ptr, start, end);
      assert err == ENoMem || r == if err == Ok then Some(index) else None;
      if err == Ok { next := ToU32(id + 1); }
    }

    /** The two calls of idr_alloc_u32. */
    method TryCyclic(ptr: Entry, start: int, end: int) returns (err: Error, id: nat, ghost index: nat)
      requires Valid() && (ptr.Empty? || ptr.Value? || ptr.Pointer?)
      requires INT_MIN <= start <= INT_MAX && INT_MIN <= end <= INT_MAX
      modifies rt
      ensures Valid() && err != EInval
      ensures err == Ok ==>
                && index !in old(Live()) && Live() == old(Live())[index := ptr]
                && id == (index + base) % U32
      ensures err == Ok && base <= Limit(end) && start >= 0 ==> start <= id <= Limit(end) && id == index + base
      ensures err != Ok ==> Live() == old(Live()) && (err == ENoMem ==> rt.spare == 0)
      ensures err == Ok ==> old(NextCyclic(start, Last(Limit(end)))) == Some(index)
      ensures err == ENoSpc <==> old(NextCyclic(start, Last(Limit(end)))) == None
    {
      id := next;
      var max := Limit(end);
      if ToInt(id) < start { id := ToU32(start); }
      err, id, index := AllocU32(ptr, id, max);
      if err == ENoSpc && id > ToU32(start) {
        id := ToU32(start);
        err, id, index := AllocU32(ptr, id, max);
      }
    }

    /** idr_remove: the pointer that was stored for the ID, or NULL. */
    method Remove(id: nat) returns (entry: Entry)
      requires Valid() && id < WORD
      modifies rt
      ensures Valid()
      ensures var index := (id - base) % WORD;
        && Live() == old(Live()) - {index}
        && entry == if index in old(Live()) then old(Live())[index] else Empty
    {
      entry := rt.DeleteItem((id - base) % WORD, Empty);
    }

    /** idr_find. NULL also stands for an ID that is not live. */
    method Find(id: nat) returns (entry: Entry)
      requires Valid() && id < WORD
      ensures var index := (id - base) % WORD;
        entry == if index in Live() then Live()[index] else Empty
    {
      entry := rt.Lookup((id - base) % WORD);
      FreeIsEmpty(rt.View(), (id - base) % WORD);
    }

    /** idr_replace. None is -ENOENT. */
    method Replace(ptr: Entry, id: nat) returns (res: Option<Entry>)
      requires Valid() && id < WORD && (ptr.Empty? || ptr.Value? || ptr.Pointer?)
      modifies rt
      ensures Valid()
      ensures var index := (id - base) % WORD;
        if index in old(Live()) then res == Some(old(Live())[index]) && Live() == old(Live())[index := ptr]
        else res == None && Live() == old(Live())
    {
      var index := (id - base) % WORD;
      var entry, found, node, offset := rt.LookupSlot(index);
      ReachedHeld(rt.View(), true, index, found, node, offset);
      if !found { return None; }
      var free := rt.GetTag(index, 0);
      if free { return None; }
      ghost var t := rt.View();
      HeldSlot(t, true, index, node, offset);
      rt.Replace(node, offset, ptr, index);
      assert Live() == Ids(t)[index := ptr];
      res := Some(entry);
    }
  }

  lemma LeastIds(t: Tree, lo: nat, hi: nat, r: Option<nat>)
    requires Shape(t)
    ensures Least(Ids(t), lo, hi, r) <==> IsLeast(t, lo, hi, r)
  {
    assert forall i: nat :: i in Ids(t) <==> !TagAt(t, i, 0);
  }

  /** As written, idr_alloc(idr, ptr, 0, end) with only ID 0 live and end from 2 to 15 fails with -ENOSPC,
      although ID 1 is free. */
  lemma NoSpaceAsWritten(t: Tree, end: int)
    requires Inv(t, true) && t.trackFree && 2 <= end <= 15
    requires forall i: nat :: i in Ids(t) <==> i == 0
    ensures FreeIndex(t, 0, Limit(end), false) == None && FreeIndex(t, 0, Limit(end), true) == Some(1)
  {
    assert forall i: nat :: TagAt(t, i, 0) <==> i !in Ids(t);
    NoSpaceExample(t, Limit(end));
  }

  lemma SameIds(t: Tree, u: Tree)
    requires Shape(t) && Shape(u) && TreeSteps.SameContents(t, u)
    ensures Ids(u) == Ids(t)
    ensures forall i: nat :: TagAt(u, i, 0) <==> TagAt(t, i, 0)
  {
    assert forall i: nat :: TagAt(u, i, 0) <==> TagAt(t, i, 0);
    assert forall i: nat :: i in Ids(t) ==> Get(u, i) == Get(t, i);
  }

  lemma TakenIds(t: Tree, u: Tree, i: nat, e: Entry)
    requires Shape(t) && Shape(u) && Taken(t, u, i, e)
    ensures Ids(u) == Ids(t)[i := e]
  {
    assert forall j: nat :: j in Ids(u) ==> !TagAt(u, j, 0) && Get(u, j) == if j == i then e else Get(t, j);
  }

  /** A free ID stores nothing. */
  lemma FreeIsEmpty(t: Tree, i: nat)
    requires Inv(t, true)
    ensures TagAt(t, i, 0) ==> Get(t, i).Empty?
  {
    if t.head.Inner? && At(i, 0) in t.nodes {
      assert NodeShape(t, At(i, 0)) && NodeOk(t, true, At(i, 0)) && LeafOk(t, true, t.nodes[At(i, 0)], Digit(i, 0));
    }
  }
}
