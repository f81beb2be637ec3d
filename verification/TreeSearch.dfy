/** idr_get_free as a function of the free IDs and the height of the tree, for either reading of
    __ffs(), and exactly when it gives the least free ID. */
module TreeSearch {
  import opened Wrappers
  import opened Digits
  import opened TreeState
  import opened TreeSteps
  import opened TreeCounts
  import opened TreeWalk
  import opened Bits

  /** Whether something is free below each slot of the node of level l over block b. */
  ghost function FreeRow(t: Tree, b: nat, l: nat): (row: seq<bool>)
    requires Shape(t)
    ensures |row| == CHUNK && forall o: nat :: o < CHUNK ==> (row[o] <==> TaggedIn(t, b * CHUNK + o, l, 0))
  {
    seq(CHUNK, (o: nat) => TaggedIn(t, b * CHUNK + o, l, 0))
  }

  /** The slot a search at start jumps to in the node of level l, or CHUNK. */
  ghost function NextSlot(t: Tree, start: nat, l: nat, lowest: bool): (o: nat)
    requires Shape(t)
    ensures Digit(start, l) < o <= CHUNK
  {
    NextBit(FreeRow(t, Block(start, l + 1), l), Digit(start, l) + 1, lowest)
  }

  /** The first index of that slot. */
  ghost function JumpTo(t: Tree, start: nat, l: nat, lowest: bool): (to: nat)
    requires Shape(t)
    ensures start < to
  {
    BlockSplit(start, l);
    BlockAbove(start, l, Block(start, l + 1) * CHUNK + NextSlot(t, start, l, lowest));
    SlotIndex(At(start, l), NextSlot(t, start, l, lowest))
  }

  /** The lowest level from l on at which index i has a digit, or height. */
  function Carry(i: nat, l: nat, height: nat): (up: nat)
    requires l <= height
    ensures l <= up <= height && (up < height ==> Digit(i, up) != 0)
    decreases height - l
  {
    if l == height || Digit(i, l) != 0 then l else Carry(i, l + 1, height)
  }

  /** A search at start, in a tree of this height, which has come down to a slot that spans levels. It
      leaves the tree for the index after the last one. */
  ghost function Search(t: Tree, height: nat, start: nat, levels: nat, max: nat, lowest: bool): Option<nat>
    requires Shape(t) && levels <= height
    decreases if start <= max then max + 1 - start else 0, levels
  {
    if levels == 0 then Some(start)
    else if TaggedIn(t, Block(start, levels - 1), levels - 1, 0) then Search(t, height, start, levels - 1, max, lowest)
    else
      var to := JumpTo(t, start, levels - 1, lowest);
      var up := Carry(to, levels - 1, height);
      if to > max then None else if up == height then Some(to) else Search(t, height, to, up, max, lowest)
  }

  /** A tree without nodes gets one for index 0. */
  function Height(head: Entry): (h: nat)
    ensures h > 0
  {
    if head.Inner? then head.ref.level + 1 else 1
  }

  /** The index idr_get_free comes back with; None is -ENOSPC. */
  ghost function FreeIndex(t: Tree, start: nat, max: nat, lowest: bool): Option<nat>
    requires Shape(t)
  {
    if start > max then None
    else if start > MaxIndex(t.head) then Some(start)
    else Search(t, Height(t.head), start, Height(t.head), max, lowest)
  }

  // ----- what a search finds

  /** An index that is free ends the search. */
  lemma {:induction false} StartFree(t: Tree, height: nat, start: nat, levels: nat, max: nat, lowest: bool)
    requires Shape(t) && levels <= height && TagAt(t, start, 0)
    ensures Search(t, height, start, levels, max, lowest) == Some(start)
    decreases levels
  {
    if levels > 0 { StartFree(t, height, start, levels - 1, max, lowest); }
  }

  /** Everything that a tree of this height cannot hold is free. */
  ghost predicate FreeOutside(t: Tree, height: nat)
    requires Shape(t)
  {
    forall i: nat {:trigger TagAt(t, i, 0)} :: i >= Pow(height) ==> TagAt(t, i, 0)
  }

  /** A multiple of 16^l without digits from l on lies outside the tree. */
  lemma {:induction false} Carried(q: nat, l: nat, height: nat)
    requires l <= height && q > 0 && Carry(q * Pow(l), l, height) == height
    ensures q * Pow(l) >= Pow(height)
    decreases height - l
  {
    if l < height {
      BlockStart(q, l);
      PowStep(q / CHUNK, l);
      Carried(q / CHUNK, l + 1, height);
    } else {
      MulMono(1, q, Pow(l));
    }
  }

  lemma FreeHere(t: Tree, i: nat)
    requires Shape(t)
    ensures TaggedIn(t, Block(i, 0), 0, 0) <==> TagAt(t, i, 0)
  {
  }

  /** A jump within a leaf ends at a free index. */
  lemma JumpFree(t: Tree, start: nat, lowest: bool)
    requires Shape(t) && Digit(JumpTo(t, start, 0, lowest), 0) != 0
    ensures TagAt(t, JumpTo(t, start, 0, lowest), 0)
  {
    var to, o := JumpTo(t, start, 0, lowest), NextSlot(t, start, 0, lowest);
    assert Pow(0) == 1 && to == Block(start, 1) * CHUNK + o;
    assert to % CHUNK == o % CHUNK;
    assert FreeRow(t, Block(start, 1), 0)[o];
    FreeHere(t, to);
  }

  /** A jump down to a slot, or out of the tree, ends at a free index. */
  lemma JumpLands(t: Tree, height: nat, start: nat, l: nat, lowest: bool)
    requires Shape(t) && l < height && FreeOutside(t, height)
    ensures var to := JumpTo(t, start, l, lowest);
      Carry(to, l, height) == height || Carry(to, l, height) == 0 ==> TagAt(t, to, 0)
  {
    var to := JumpTo(t, start, l, lowest);
    if Carry(to, l, height) == height {
      Carried(At(start, l).block * CHUNK + NextSlot(t, start, l, lowest), l, height);
    } else if Carry(to, l, height) == 0 {
      JumpFree(t, start, lowest);
    }
  }

  /** What a search finds is free and in range. */
  lemma {:induction false} SearchSound(t: Tree, height: nat, start: nat, levels: nat, max: nat, lowest: bool)
    requires Shape(t) && levels <= height && start <= max && FreeOutside(t, height) && (levels == 0 ==> TagAt(t, start, 0))
    ensures var r := Search(t, height, start, levels, max, lowest);
      r.Some? ==> start <= r.value <= max && TagAt(t, r.value, 0)
    decreases max - start, levels
  {
    if levels > 0 {
      var l := levels - 1;
      if TaggedIn(t, Block(start, l), l, 0) {
        if l == 0 { FreeHere(t, start); }
        SearchSound(t, height, start, l, max, lowest);
      } else {
        var to := JumpTo(t, start, l, lowest);
        var up := Carry(to, l, height);
        JumpLands(t, height, start, l, lowest);
        if to <= max && up < height { SearchSound(t, height, to, up, max, lowest); }
      }
    }
  }

  // ----- how the code follows it

  /** The tag bits of a node tell below which slots something is free, also once other nodes were added. */
  lemma RowIsFree(t0: Tree, t: Tree, r: Ref)
    requires Shape(t0) && Inv(t, true) && SameContents(t0, t) && r in t.nodes
    ensures NodeShape(t, r) && t.nodes[r].tags[0] == FreeRow(t0, r.block, r.level)
  {
    assert NodeShape(t, r);
    forall o: nat | o < CHUNK
      ensures t.nodes[r].tags[0][o] == FreeRow(t0, r.block, r.level)[o]
    {
      BitExact(t, r, o, 0);
      SameFree(t0, t, r.block * CHUNK + o, r.level);
    }
  }

  lemma SameFree(t0: Tree, t: Tree, q: nat, l: nat)
    requires Shape(t0) && Shape(t) && SameContents(t0, t)
    ensures TaggedIn(t0, q, l, 0) <==> TaggedIn(t, q, l, 0)
  {
    assert forall i: nat :: TagAt(t, i, 0) <==> TagAt(t0, i, 0);
  }

  /** The digit of the first index of a slot. */
  lemma CarryAt(r: Ref, o: nat, height: nat)
    requires r.level < height && 0 < o <= CHUNK
    ensures Carry(SlotIndex(r, o), r.level, height) == if o < CHUNK then r.level else Carry(SlotIndex(r, o), r.level + 1, height)
  {
    BlockStart(r.block * CHUNK + o, r.level);
    assert Digit(SlotIndex(r, o), r.level) == (r.block * CHUNK + o) % CHUNK;
  }

  lemma FullSlots(t: Tree, l: nat, o: nat)
    requires Shape(t) && o < CHUNK && AllLive(t, 0, Pow(l + 1))
    ensures !TaggedIn(t, o, l, 0)
  {
    if TaggedIn(t, o, l, 0) {
      var i: nat :| Block(i, l) == o && TagAt(t, i, 0);
      BlockAbove(i, l, CHUNK);
    }
  }

  lemma FullJump(t: Tree, start: nat, l: nat, lowest: bool)
    requires Shape(t) && AllLive(t, 0, Pow(l + 1)) && start < Pow(l + 1)
    ensures !TaggedIn(t, Block(start, l), l, 0) && JumpTo(t, start, l, lowest) == Pow(l + 1)
    ensures Carry(Pow(l + 1), l, l + 1) == l + 1
  {
    BlockZero(start, l + 1);
    BlockSplit(start, l);
    forall o: nat | o < CHUNK
      ensures !TaggedIn(t, o, l, 0) && !FreeRow(t, 0, l)[o]
    {
      FullSlots(t, l, o);
      assert FreeRow(t, 0, l)[o] <==> TaggedIn(t, 0 * CHUNK + o, l, 0);
    }
    assert NextSlot(t, start, l, lowest) == CHUNK;
    CarryAt(At(start, l), CHUNK, l + 1);
  }

  /** A tree without a free index sends the search to the index after its last one. */
  lemma FullTree(t: Tree, start: nat, max: nat, lowest: bool)
    requires Shape(t) && t.head.Inner? && AllLive(t, 0, MaxIndex(t.head) + 1) && start <= MaxIndex(t.head)
    ensures FreeIndex(t, start, max, lowest)
            == if start <= max then FreeIndex(t, MaxIndex(t.head) + 1, max, lowest) else None
  {
    FullJump(t, start, t.head.ref.level, lowest);
  }

  /** The search is still after the index goal: from start on in the tree as it was, or at start. */
  ghost predicate Pursues(t0: Tree, head: Entry, start: nat, max: nat, lowest: bool, goal: Option<nat>)
    requires Shape(t0)
  {
    || (head == t0.head && goal == FreeIndex(t0, start, max, lowest))
    || (goal == Some(start) && start <= max && TagAt(t0, start, 0))
  }

  lemma PursuesFree(t0: Tree, head: Entry, start: nat, max: nat, lowest: bool, goal: Option<nat>)
    requires Shape(t0) && Pursues(t0, head, start, max, lowest, goal) && start <= max && start > MaxIndex(head)
    ensures goal == Some(start)
  {
  }

  /** A clear root flag sends the search past the end of the tree. */
  lemma PursuesOn(t0: Tree, t: Tree, start: nat, max: nat, lowest: bool, goal: Option<nat>)
    requires Inv(t0, true) && Inv(t, true) && SameContents(t0, t) && !t.rootTags[0] && start <= MaxIndex(t.head)
    requires Pursues(t0, t.head, start, max, lowest, goal)
    ensures Pursues(t0, t.head, MaxIndex(t.head) + 1, max, lowest, goal)
  {
    RootFull(t);
    forall i: nat | i <= MaxIndex(t.head)
      ensures !TagAt(t0, i, 0)
    {
      assert TagAt(t, i, 0) <==> TagAt(t0, i, 0);
    }
    FullTree(t0, start, max, lowest);
  }

  /** And so it does when the index after the tree is computed in a word and comes out above start. */
  lemma FullBelow(t0: Tree, t: Tree, start: nat, beyond: nat, max: nat, lowest: bool, goal: Option<nat>)
    requires Inv(t0, true) && Inv(t, true) && SameContents(t0, t) && !t.rootTags[0]
    requires start < beyond == (MaxIndex(t.head) + 1) % WORD && Pursues(t0, t.head, start, max, lowest, goal)
    ensures Pursues(t0, t.head, beyond, max, lowest, goal)
  {
    TopInWord(t);
    WordEnd(MaxIndex(t.head), start, beyond);
    PursuesOn(t0, t, start, max, lowest, goal);
  }

  lemma WordEnd(m: nat, start: nat, beyond: nat)
    requires m < WORD && start < beyond == (m + 1) % WORD
    ensures beyond == m + 1 && start <= m
  {
  }

  /** The next turn from the root, in a tree that is high enough by now. */
  lemma PursuesDown(t0: Tree, head: Entry, start: nat, max: nat, lowest: bool, goal: Option<nat>, levels: nat)
    requires Inv(t0, true) && Pursues(t0, head, start, max, lowest, goal) && start <= max
    requires start <= MaxIndex(head) ==> levels == Height(head)
    requires start > MaxIndex(head) ==> TagAt(t0, start, 0)
    ensures Search(t0, levels, start, levels, max, lowest) == goal
  {
    if TagAt(t0, start, 0) {
      StartFree(t0, levels, start, levels, max, lowest);
      StartFree(t0, Height(t0.head), start, Height(t0.head), max, lowest);
    }
  }

  // ----- when it is the least free index

  /** What callers expect: the least free index of the range, or none exactly when there is none. */
  ghost predicate IsLeast(t: Tree, start: nat, max: nat, r: Option<nat>)
    requires Shape(t)
  {
    match r
    case None => AllLive(t, start, max + 1)
    case Some(i) => start <= i <= max && TagAt(t, i, 0) && AllLive(t, start, i)
  }

  /** Something up to max is free in block q of level l. */
  ghost predicate FreeUpTo(t: Tree, q: nat, l: nat, max: nat)
    requires Shape(t)
  {
    exists i: nat :: i <= max && Block(i, l) == q && TagAt(t, i, 0)
  }

  /** Where a search at start must jump in the node of level l, nothing is free up to max in the slots
      before the last one that has something free. */
  ghost predicate JumpsOnce(t: Tree, start: nat, l: nat, max: nat)
    requires Shape(t)
  {
    var end := Block(start, l + 1) * CHUNK + NextSlot(t, start, l, false);
    forall q: nat :: Block(start, l) < q < end ==> !FreeUpTo(t, q, l, max)
  }

  /** Every jump of the search is such a jump. */
  ghost predicate Direct(t: Tree, height: nat, start: nat, levels: nat, max: nat)
    requires Shape(t) && levels <= height
    decreases if start <= max then max + 1 - start else 0, levels
  {
    levels == 0 ||
    if TaggedIn(t, Block(start, levels - 1), levels - 1, 0) then Direct(t, height, start, levels - 1, max)
    else
      var to := JumpTo(t, start, levels - 1, false);
      var up := Carry(to, levels - 1, height);
      JumpsOnce(t, start, levels - 1, max) && (to <= max && up < height ==> Direct(t, height, to, up, max))
  }

  ghost predicate DirectFrom(t: Tree, start: nat, max: nat)
    requires Shape(t)
  {
    start > max || start > MaxIndex(t.head) || Direct(t, Height(t.head), start, Height(t.head), max)
  }

  /** An index between the start and the end of a jump is in the slot of the start, or in one without
      anything free when __ffs() finds the lowest bit. */
  lemma JumpBetween(t: Tree, start: nat, i: nat, l: nat, lowest: bool)
    requires Shape(t) && start <= i < JumpTo(t, start, l, lowest)
    ensures Block(start, l) <= Block(i, l) < Block(start, l + 1) * CHUNK + NextSlot(t, start, l, lowest)
    ensures lowest && Block(start, l) < Block(i, l) ==> !TaggedIn(t, Block(i, l), l, 0)
  {
    var b := Block(start, l + 1);
    BlockSplit(start, l);
    BlockMono(start, i, l);
    BlockBelow(i, l, b * CHUNK + NextSlot(t, start, l, lowest));
    if lowest && Block(start, l) < Block(i, l) { assert !FreeRow(t, b, l)[Block(i, l) - b * CHUNK]; }
  }

  /** A jump passes live IDs only, up to max, when it passes over no slot with a free one. */
  lemma JumpPasses(t: Tree, start: nat, l: nat, max: nat, lowest: bool)
    requires Shape(t) && !TaggedIn(t, Block(start, l), l, 0)
    requires lowest || JumpsOnce(t, start, l, max)
    ensures forall i: nat :: start <= i < JumpTo(t, start, l, lowest) && i <= max ==> !TagAt(t, i, 0)
  {
    forall i: nat | start <= i < JumpTo(t, start, l, lowest) && i <= max
      ensures !TagAt(t, i, 0)
    {
      JumpBetween(t, start, i, l, lowest);
      if !lowest && Block(start, l) < Block(i, l) { assert !FreeUpTo(t, Block(i, l), l, max); }
    }
  }

  /** Otherwise it passes a free one. */
  lemma JumpSkips(t: Tree, start: nat, l: nat, max: nat) returns (i: nat)
    requires Shape(t) && !JumpsOnce(t, start, l, max)
    ensures start <= i < JumpTo(t, start, l, false) && i <= max && TagAt(t, i, 0)
  {
    var end := Block(start, l + 1) * CHUNK + NextSlot(t, start, l, false);
    var q: nat :| Block(start, l) < q < end && FreeUpTo(t, q, l, max);
    i :| i <= max && Block(i, l) == q && TagAt(t, i, 0);
    if i < start { BlockMono(i, start, l); }
    BlockAbove(i, l, end);
  }

  /** After a jump that passed nothing free, the least free index is that from its end on. */
  lemma LeastAfter(t: Tree, start: nat, to: nat, max: nat, r: Option<nat>)
    requires Shape(t) && start <= to
    requires forall i: nat :: start <= i < to && i <= max ==> !TagAt(t, i, 0)
    requires r.Some? ==> to <= r.value <= max
    ensures IsLeast(t, start, max, r) <==> IsLeast(t, to, max, r)
  {
  }

  /** The search gives the least free index exactly when __ffs() finds the lowest bit, or when no jump
      passes over a slot with something free up to max. */
  lemma {:induction false} SearchExact(t: Tree, height: nat, start: nat, levels: nat, max: nat, lowest: bool)
    requires Shape(t) && levels <= height && start <= max && FreeOutside(t, height) && (levels == 0 ==> TagAt(t, start, 0))
    ensures IsLeast(t, start, max, Search(t, height, start, levels, max, lowest))
            <==> lowest || Direct(t, height, start, levels, max)
    decreases max - start, levels
  {
    if levels > 0 {
      var l := levels - 1;
      if TaggedIn(t, Block(start, l), l, 0) {
        if l == 0 { FreeHere(t, start); }
        SearchExact(t, height, start, l, max, lowest);
      } else {
        JumpExact(t, height, start, l, max, lowest);
        var to := JumpTo(t, start, l, lowest);
        var up := Carry(to, l, height);
        if to <= max && up < height {
          JumpLands(t, height, start, l, lowest);
          SearchExact(t, height, to, up, max, lowest);
        }
      }
    }
  }

  /** One jump: what follows is decided at its end, unless it passed something free. */
  lemma JumpExact(t: Tree, height: nat, start: nat, l: nat, max: nat, lowest: bool)
    requires Shape(t) && l < height && start <= max && FreeOutside(t, height) && !TaggedIn(t, Block(start, l), l, 0)
    ensures var to := JumpTo(t, start, l, lowest);
      var up := Carry(to, l, height);
      var r := Search(t, height, start, l + 1, max, lowest);
      var once := lowest || JumpsOnce(t, start, l, max);
      if to <= max && up < height then
        IsLeast(t, start, max, r) <==> once && IsLeast(t, to, max, Search(t, height, to, up, max, lowest))
      else IsLeast(t, start, max, r) <==> once
  {
    var to := JumpTo(t, start, l, lowest);
    var up := Carry(to, l, height);
    var r := Search(t, height, start, l + 1, max, lowest);
    JumpLands(t, height, start, l, lowest);
    if to <= max && up < height { SearchSound(t, height, to, up, max, lowest); }
    if lowest || JumpsOnce(t, start, l, max) {
      JumpPasses(t, start, l, max, lowest);
      LeastAfter(t, start, to, max, r);
    } else {
      var i := JumpSkips(t, start, l, max);
    }
  }

  /** What idr_get_free comes back with: free and in range, the start if that is free, and the least one
      exactly under the same condition. */
  lemma FreeIndexExact(t: Tree, start: nat, max: nat, lowest: bool)
    requires Inv(t, true) && t.trackFree
    ensures var r := FreeIndex(t, start, max, lowest);
      && (r.Some? ==> start <= r.value <= max && TagAt(t, r.value, 0))
      && (start <= max && TagAt(t, start, 0) ==> r == Some(start))
      && (IsLeast(t, start, max, r) <==> lowest || DirectFrom(t, start, max))
  {
    var h := Height(t.head);
    forall i: nat | i > MaxIndex(t.head)
      ensures TagAt(t, i, 0)
    {
      if t.head.Inner? && At(i, 0) in t.nodes { LeafInRange(t, i); }
    }
    if start <= max && start <= MaxIndex(t.head) {
      if TagAt(t, start, 0) { StartFree(t, h, start, h, max, lowest); }
      if !t.head.Inner? { assert Pow(1) == CHUNK; }
      assert FreeOutside(t, h);
      SearchSound(t, h, start, h, max, lowest);
      SearchExact(t, h, start, h, max, lowest);
    }
  }

  /** With only ID 0 live and a limit below 15, the search that finds the highest bit reports that
      nothing is free, although 1 to the limit are. */
  lemma NoSpaceExample(t: Tree, max: nat)
    requires Inv(t, true) && t.trackFree && 0 < max < 15 && forall i: nat :: TagAt(t, i, 0) <==> i != 0
    ensures FreeIndex(t, 0, max, false) == None
    ensures FreeIndex(t, 0, max, true) == Some(1)
  {
    OnlyZero(t, Height(t.head), Height(t.head), max);
    FreeIndexExact(t, 0, max, true);
    assert TagAt(t, 1, 0);
  }

  lemma {:induction false} OnlyZero(t: Tree, height: nat, levels: nat, max: nat)
    requires Shape(t) && 0 < levels <= height && 0 < max < 15 && forall i: nat :: TagAt(t, i, 0) <==> i != 0
    ensures Search(t, height, 0, levels, max, false) == None
    decreases levels
  {
    var l := levels - 1;
    BlockZero(0, l);
    BlockZero(0, l + 1);
    if l > 0 {
      BlockZero(1, l);
      assert TagAt(t, 1, 0);
      OnlyZero(t, height, l, max);
    } else {
      FreeHere(t, 0);
      FreeHere(t, 15);
      assert FreeRow(t, 0, 0)[15];
      assert NextSlot(t, 0, 0, false) == 15;
    }
  }
}
