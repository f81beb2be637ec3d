/** Which rows of marks xas_find_marked reads, and whether find_next_bit() as written is right on each: as
    a function of the marked indices and the last index of the tree. */
module MarkSearch {
  import opened Wrappers
  import opened Digits
  import opened TreeState
  import opened TreeSteps
  import opened TreeCounts
  import opened TreeWalk
  import opened TreeSearch
  import opened Bits

  /** The indices that carry the mark. */
  ghost function Marks(t: Tree, mark: nat): (m: iset<nat>)
    requires Shape(t) && mark < TAGS
    ensures forall i: nat :: i in m <==> TagAt(t, i, mark)
  {
    iset i: nat | TagAt(t, i, mark)
  }

  /** Block q of level l has an index of m. */
  ghost predicate SomeIn(m: iset<nat>, q: nat, l: nat) {
    exists i: nat :: Block(i, l) == q && i in m
  }

  /** The row of marks of the node of level l over block b. */
  ghost function Row(m: iset<nat>, b: nat, l: nat): (row: seq<bool>)
    ensures |row| == CHUNK && forall o: nat :: o < CHUNK ==> (row[o] <==> SomeIn(m, b * CHUNK + o, l))
  {
    seq(CHUNK, (o: nat) => SomeIn(m, b * CHUNK + o, l))
  }

  lemma RowIsMarks(t: Tree, r: Ref, mark: nat)
    requires Shape(t) && TagsOk(t) && r in t.nodes && mark < TAGS
    ensures NodeShape(t, r) && t.nodes[r].tags[mark] == Row(Marks(t, mark), r.block, r.level)
  {
    assert NodeShape(t, r);
    forall o: nat | o < CHUNK
      ensures t.nodes[r].tags[mark][o] == Row(Marks(t, mark), r.block, r.level)[o]
    {
      BitExact(t, r, o, mark);
    }
  }

  /** The slot from offset on that a search of the row over start should come to. */
  ghost function NextMarked(m: iset<nat>, start: nat, l: nat): (o: nat)
    ensures Digit(start, l) <= o <= CHUNK
    ensures o == Digit(start, l) <==> SomeIn(m, Block(start, l), l)
  {
    BlockSplit(start, l);
    NextBit(Row(m, Block(start, l + 1), l), Digit(start, l), true)
  }

  /** The first index of that slot. */
  ghost function MarkedTo(m: iset<nat>, start: nat, l: nat): (to: nat)
    ensures NextMarked(m, start, l) > Digit(start, l) ==> to > start
  {
    Forward(start, l, NextMarked(m, start, l));
    SlotIndex(At(start, l), NextMarked(m, start, l))
  }

  lemma Forward(start: nat, l: nat, o: nat)
    ensures o > Digit(start, l) ==> SlotIndex(At(start, l), o) > start
  {
    BlockSplit(start, l);
    if o > Digit(start, l) { BlockAbove(start, l, Block(start, l + 1) * CHUNK + o); }
  }

  /** The row over start is read from start's slot on, and find_next_bit() as written is right there. */
  ghost predicate RowOk(m: iset<nat>, start: nat, l: nat) {
    RowSound(Row(m, Block(start, l + 1), l), Digit(start, l))
  }

  /** The search stands at index start with a row of level levels - 1 to read next, in a tree whose last
      index is last: that row and all that follow are sound where they are read. */
  ghost predicate SoundRows(m: iset<nat>, last: nat, start: nat, levels: nat, max: nat)
    requires levels <= LEVELS
    decreases if start <= max then max + 1 - start else 0, levels
  {
    levels == 0 ||
    var l := levels - 1;
    var to := MarkedTo(m, start, l);
    && RowOk(m, start, l)
    && if NextMarked(m, start, l) == Digit(start, l) then SoundRows(m, last, start, l, max)
       else to > max || to > last || SoundRows(m, last, to, if NextMarked(m, start, l) < CHUNK then l else Above(to, l), max)
  }

  /** From the end of a node of level l the search goes up to the row that has a slot for index to. */
  function Above(to: nat, l: nat): (levels: nat)
    requires l < LEVELS
    ensures levels <= LEVELS
  {
    if Carry(to, l, LEVELS) < LEVELS then Carry(to, l, LEVELS) + 1 else 0
  }

  /** The search has passed the row of level l and goes up for index to. A row that has a slot for index to
      is read even if that is past max. */
  ghost predicate SoundUp(m: iset<nat>, last: nat, to: nat, l: nat, max: nat)
    requires l < LEVELS
  {
    to > last || (to > max && Digit(to, l) == 0) || SoundRows(m, last, to, Above(to, l), max)
  }

  // ----- one round of the search

  /** The row of level l over start has been searched from start's slot to slot o. */
  lemma RowStep(m: iset<nat>, last: nat, start: nat, l: nat, o: nat, max: nat)
    requires l < LEVELS && o == NextBit(Row(m, Block(start, l + 1), l), Digit(start, l), true)
    requires SlotIndex(At(start, l), CHUNK) <= last + 1
    ensures var next := SlotIndex(At(start, l), o);
      SoundRows(m, last, start, l + 1, max) <==>
        RowOk(m, start, l) &&
        if o == Digit(start, l) then SoundRows(m, last, start, l, max)
        else next > max || if o < CHUNK then SoundRows(m, last, next, l, max) else SoundUp(m, last, next, l, max)
  {
    SlotBefore(At(start, l), o);
  }

  lemma SlotBefore(r: Ref, o: nat)
    requires o <= CHUNK
    ensures o < CHUNK ==> SlotIndex(r, o) < SlotIndex(r, CHUNK)
  {
    if o < CHUNK {
      MulMono(r.block * CHUNK + o + 1, r.block * CHUNK + CHUNK, Pow(r.level));
      Distribute(r.block * CHUNK + o, 1, Pow(r.level));
    }
  }

  /** The same where the search begins behind a leaf slot, with index to. */
  lemma AdvanceStep(m: iset<nat>, last: nat, r: Ref, offset: nat, to: nat, o: nat, max: nat)
    requires r.level == 0 && offset < CHUNK && to == SlotIndex(r, offset) + 1 && SlotIndex(r, CHUNK) <= last + 1
    requires o == NextBit(Row(m, r.block, 0), offset + 1, true)
    ensures var exact := RowSound(Row(m, r.block, 0), offset + 1);
      SoundUp(m, last, to, 0, max) <==>
        exact && (SlotIndex(r, o) > max || o < CHUNK || SoundUp(m, last, SlotIndex(r, o), 0, max))
  {
    assert Pow(0) == 1 && to == r.block * CHUNK + offset + 1;
    BlockJoin(r.block, if offset + 1 < CHUNK then offset + 1 else 0);
    assert Block(to, 0) == to;
    if offset + 1 < CHUNK {
      assert At(to, 0) == r;
      RowStep(m, last, to, 0, o, max);
      if o == offset + 1 { assert SlotIndex(r, o) == to; }
    } else {
      assert to == (r.block + 1) * CHUNK;
    }
  }

  /** The level at which an index goes on behind node r, in a node above. */
  lemma CarryUp(r: Ref, up: Ref, offset: nat)
    requires up.level == r.level + 1 < LEVELS && 0 < offset <= CHUNK && SlotIndex(r, CHUNK) == SlotIndex(up, offset)
    ensures var to := SlotIndex(r, CHUNK);
      Above(to, r.level) == if offset < CHUNK then up.level + 1 else Above(to, up.level)
  {
    CarryAt(r, CHUNK, LEVELS);
    CarryAt(up, offset, LEVELS);
  }

  /** From the end of node r the search leaves the tree, or reads the row of the parent after r's slot. */
  lemma EndOfNode(t: Tree, r: Ref)
    requires Shape(t) && r in t.nodes
    ensures NodeShape(t, r) && t.head.Inner? && SlotIndex(r, CHUNK) <= MaxIndex(t.head) + 1
    ensures t.nodes[r].parent.Some? && t.nodes[r].offset + 1 < CHUNK ==> SlotIndex(r, CHUNK) <= MaxIndex(t.head)
    ensures NodeShape(t, r) && t.head.Inner? && r.level < LEVELS
    ensures var n, to := t.nodes[r], SlotIndex(r, CHUNK);
      if n.parent == None then to == MaxIndex(t.head) + 1
      else
        var q, o := n.parent.value, n.offset + 1;
        && q == Up(r) && q in t.nodes && NodeShape(t, q) && o <= CHUNK && to == SlotIndex(q, o) && q.level < LEVELS
        && Above(to, r.level) == if o < CHUNK then q.level + 1 else Above(to, q.level)
  {
    UpSlot(t, r);
    NodeInRange(t, r);
    if t.nodes[r].parent.Some? {
      CarryUp(r, Up(r), t.nodes[r].offset + 1);
      NodeInRange(t, Up(r));
      SlotBefore(Up(r), t.nodes[r].offset + 1);
    }
  }

  /** So the soundness of what is ahead is that of the parent's row, or of what is ahead of the parent. */
  lemma UpSound(t: Tree, r: Ref, m: iset<nat>, max: nat)
    requires Shape(t) && r in t.nodes && SlotIndex(r, CHUNK) <= max && r.level < LEVELS
    ensures NodeShape(t, r)
    ensures var n, to, last := t.nodes[r], SlotIndex(r, CHUNK), MaxIndex(t.head);
      if n.parent == None then SoundUp(m, last, to, r.level, max)
      else
        && r.level + 1 < LEVELS
        && (SoundUp(m, last, to, r.level, max) <==>
              if n.offset + 1 < CHUNK then SoundRows(m, last, to, r.level + 2, max) else SoundUp(m, last, to, r.level + 1, max))
  {
    EndOfNode(t, r);
  }

  lemma MarkedRow(m: iset<nat>, start: nat, l: nat)
    requires start in m
    ensures RowOk(m, start, l) && NextMarked(m, start, l) == Digit(start, l)
  {
    var row, o := Row(m, Block(start, l + 1), l), Digit(start, l);
    BlockSplit(start, l);
    assert SomeIn(m, Block(start, l), l);
    assert row[o];
  }

  /** An index that carries the mark ends the search, and its rows are sound. */
  lemma {:induction false} MarkedSound(m: iset<nat>, last: nat, start: nat, levels: nat, max: nat)
    requires levels <= LEVELS && start in m
    ensures SoundRows(m, last, start, levels, max)
    decreases levels
  {
    if levels > 0 {
      MarkedRow(m, start, levels - 1);
      MarkedSound(m, last, start, levels - 1, max);
    }
  }

  // ----- searches for the free mark do not depend on the height

  /** The levels of a tree. */
  function Levels(head: Entry): nat { if head.Inner? then head.ref.level + 1 else 0 }

  /** A search from the head: every row of marks it reads has a marked slot from where it is read on, or
      none at all. */
  ghost predicate SoundFrom(t: Tree, start: nat, max: nat, mark: nat)
    requires Shape(t) && mark < TAGS
  {
    start > max || start > MaxIndex(t.head) || SoundRows(Marks(t, mark), MaxIndex(t.head), start, Levels(t.head), max)
  }

  /** Everything past last is in m. */
  ghost predicate Beyond(m: iset<nat>, last: nat) {
    forall i: nat :: i > last ==> i in m
  }

  /** Where the end of the tree lies makes no difference while everything past it is marked. */
  lemma {:induction false} LaterSound(m: iset<nat>, last: nat, later: nat, start: nat, levels: nat, max: nat)
    requires levels <= LEVELS && last <= later && Beyond(m, last)
    ensures SoundRows(m, later, start, levels, max) <==> SoundRows(m, last, start, levels, max)
    decreases if start <= max then max + 1 - start else 0, levels
  {
    if levels > 0 {
      var l := levels - 1;
      var o, to := NextMarked(m, start, l), MarkedTo(m, start, l);
      if o == Digit(start, l) {
        LaterSound(m, last, later, start, l, max);
      } else if last < to {
        MarkedSound(m, later, to, if o < CHUNK then l else Above(to, l), max);
      } else if to <= max {
        LaterSound(m, last, later, to, if o < CHUNK then l else Above(to, l), max);
      }
    }
  }

  /** Two indices in one block are in one block higher up. */
  lemma {:induction false} SameBlock(i: nat, j: nat, lo: nat, hi: nat)
    requires lo <= hi && Block(i, lo) == Block(j, lo)
    ensures Block(i, hi) == Block(j, hi)
    decreases hi
  {
    if lo < hi { SameBlock(i, j, lo, hi - 1); }
  }

  /** Where nothing below 16^height is in m, and all above, the rows have no mark at all. */
  lemma {:induction false} NoneSound(m: iset<nat>, height: nat, last: nat, start: nat, levels: nat, max: nat)
    requires levels <= height <= LEVELS && last + 1 == Pow(height) && start <= last && !SomeIn(m, 0, height)
    ensures SoundRows(m, last, start, levels, max)
    decreases if start <= max then max + 1 - start else 0, levels
  {
    if levels > 0 {
      var l := levels - 1;
      NoneInRow(m, height, start, l);
      var to := MarkedTo(m, start, l);
      if to <= max && to <= last {
        AboveInside(m, height, start, l);
        NoneSound(m, height, last, to, Above(to, l), max);
      }
    }
  }

  /** An index of the tree has its row inside the tree. */
  lemma AboveInside(m: iset<nat>, height: nat, start: nat, l: nat)
    requires l < height <= LEVELS && NextMarked(m, start, l) == CHUNK && MarkedTo(m, start, l) < Pow(height)
    ensures Above(MarkedTo(m, start, l), l) <= height
  {
    var to, q := MarkedTo(m, start, l), At(start, l).block * CHUNK + CHUNK;
    if Carry(to, l, height) == height { Carried(q, l, height); }
    CarryHigher(to, l, height, LEVELS);
  }

  lemma {:induction false} CarryHigher(i: nat, l: nat, height: nat, higher: nat)
    requires l <= height <= higher && Carry(i, l, height) < height
    ensures Carry(i, l, higher) == Carry(i, l, height)
    decreases height - l
  {
    if Digit(i, l) == 0 { CarryHigher(i, l + 1, height, higher); }
  }

  lemma NoneInRow(m: iset<nat>, height: nat, start: nat, l: nat)
    requires l < height && start < Pow(height) && !SomeIn(m, 0, height)
    ensures RowOk(m, start, l) && NextMarked(m, start, l) == CHUNK
  {
    var row := Row(m, Block(start, l + 1), l);
    forall o: nat | o < CHUNK
      ensures !row[o]
    {
      var q := Block(start, l + 1) * CHUNK + o;
      if SomeIn(m, q, l) {
        var i: nat :| Block(i, l) == q && i in m;
        assert Block(i, l + 1) == Block(start, l + 1);
        SameBlock(i, start, l + 1, height);
        BlockZero(start, height);
      }
    }
    BlockSplit(start, l);
  }

  /** The row of a root above the root has a mark beyond its first slot. */
  lemma TopRow(m: iset<nat>, height: nat, start: nat)
    requires Pow(height) in m && start < Pow(height)
    ensures Block(start, height) == Digit(start, height) == 0 && RowOk(m, start, height)
    ensures !SomeIn(m, 0, height) ==> NextMarked(m, start, height) == 1 && MarkedTo(m, start, height) == Pow(height)
  {
    var row := Row(m, 0, height);
    BlockZero(start, height);
    BlockStart(1, height);
    assert SomeIn(m, 1, height);
    assert Block(start, height + 1) == 0;
    assert row[1];
  }

  /** A search that begins at a root above the root comes to the same. */
  lemma OneHigher(m: iset<nat>, height: nat, start: nat, max: nat)
    requires height < LEVELS && Beyond(m, Pow(height) - 1) && start < Pow(height) && start <= max
    ensures SoundAt(m, height + 1, start, max) <==> SoundAt(m, height, start, max)
  {
    var last := Pow(height) - 1;
    TopRow(m, height, start);
    if !SomeIn(m, 0, height) { NoneSound(m, height, last, start, height, max); }
    PowMono(height, height + 1);
    LaterSound(m, last, Pow(height + 1) - 1, start, height + 1, max);
  }

  /** A search from the head in a tree of this height. */
  ghost predicate SoundAt(m: iset<nat>, height: nat, start: nat, max: nat)
    requires height <= LEVELS
  {
    start > max || start >= Pow(height) || SoundRows(m, Pow(height) - 1, start, height, max)
  }

  lemma {:induction false} AnyHeight(m: iset<nat>, lo: nat, hi: nat, start: nat, max: nat)
    requires lo <= hi <= LEVELS && Beyond(m, Pow(lo) - 1)
    ensures SoundAt(m, hi, start, max) <==> SoundAt(m, lo, start, max)
    decreases hi
  {
    if lo < hi {
      AnyHeight(m, lo, hi - 1, start, max);
      PowMono(lo, hi - 1);
      BeyondMore(m, Pow(lo) - 1, Pow(hi - 1) - 1);
      if start < Pow(hi - 1) && start <= max {
        OneHigher(m, hi - 1, start, max);
      } else if start <= max && start < Pow(hi) {
        MarkedSound(m, Pow(hi) - 1, start, hi, max);
      }
    }
  }

  lemma BeyondMore(m: iset<nat>, last: nat, later: nat)
    requires Beyond(m, last) && last <= later
    ensures Beyond(m, later)
  {
  }

  lemma TreeBeyond(t: Tree, start: nat, max: nat)
    requires Inv(t, false) && t.trackFree
    ensures Levels(t.head) <= LEVELS && Beyond(Marks(t, 0), Pow(Levels(t.head)) - 1)
    ensures SoundFrom(t, start, max, 0) <==> SoundAt(Marks(t, 0), Levels(t.head), start, max)
  {
    forall i: nat | i > MaxIndex(t.head)
      ensures TagAt(t, i, 0)
    {
      if t.head.Inner? && At(i, 0) in t.nodes { LeafInRange(t, i); }
    }
  }

  lemma SameMarks(t: Tree, u: Tree)
    requires Shape(t) && Shape(u) && SameContents(t, u)
    ensures Marks(t, 0) == Marks(u, 0)
  {
    assert forall i: nat :: TagAt(u, i, 0) <==> TagAt(t, i, 0);
  }

  /** A tree that was extended meanwhile, with the same marks, is as sound to search for the free mark. */
  lemma SoundAgain(t: Tree, u: Tree, start: nat, max: nat)
    requires Inv(t, false) && Inv(u, false) && t.trackFree && u.trackFree && SameContents(t, u)
    ensures SoundFrom(t, start, max, 0) <==> SoundFrom(u, start, max, 0)
  {
    SameMarks(t, u);
    TreeBeyond(t, start, max);
    TreeBeyond(u, start, max);
    var m, h, k := Marks(t, 0), Levels(t.head), Levels(u.head);
    if h <= k { AnyHeight(m, h, k, start, max); } else { AnyHeight(m, k, h, start, max); }
  }
}
