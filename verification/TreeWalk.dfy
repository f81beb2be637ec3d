/** Walks through the tree: from the head down to the slot of an index, and on to the next slot;
    what a walk says about the indices it passes. */
module TreeWalk {
  import opened Wrappers
  import opened Digits
  import opened TreeState
  import opened TreeSteps
  import opened TreeCounts
  import opened TreeTags
  import opened Bits

  /** The stored entries, as a finite map would hold them. */
  ghost function Items(t: Tree): imap<nat, Entry>
    requires Shape(t)
  {
    imap i: nat | !Get(t, i).Empty? :: Get(t, i)
  }

  /** node and offset are where a walk towards index stops: at its leaf slot, at the head of a tree
      without nodes, or at an empty slot above. */
  ghost predicate ReachedSlot(t: Tree, index: nat, node: Option<Ref>, offset: nat)
    requires Shape(t)
  {
    match node
    case None => !t.head.Inner? && index == 0
    case Some(r) =>
      && t.head.Inner? && r in t.nodes && NodeShape(t, r)
      && r == At(index, r.level) && offset == Digit(index, r.level)
      && (r.level == 0 || t.nodes[r].slots[offset].Empty?)
  }

  ghost function SlotEntry(t: Tree, node: Option<Ref>, offset: nat): Entry
    requires node.Some? ==> Shape(t) && node.value in t.nodes && NodeShape(t, node.value) && offset < CHUNK
  {
    match node
    case None => t.head
    case Some(r) => t.nodes[r].slots[offset]
  }

  /** A walk towards index has come down to the slot (node, offset), whose entry spans 16^levels
      indices. With no node yet it stands at the head. */
  ghost predicate Walked(t: Tree, index: nat, node: Option<Ref>, offset: nat, levels: nat)
    requires Shape(t)
  {
    match node
    case None =>
      && Block(index, levels) == 0
      && (if t.head.Inner? then t.head.ref.level + 1 == levels else t.head.Empty? || levels == 0)
    case Some(r) =>
      && t.head.Inner? && r in t.nodes && NodeShape(t, r)
      && r == At(index, levels) && offset == Digit(index, levels)
  }

  lemma WalkDown(t: Tree, index: nat, node: Option<Ref>, offset: nat, level: nat)
    requires Shape(t) && Walked(t, index, node, offset, level + 1)
    requires SlotEntry(t, node, offset).Inner?
    ensures SlotEntry(t, node, offset).ref == At(index, level)
    ensures Walked(t, index, Some(At(index, level)), Digit(index, level), level)
  {
    if node == None {
      assert NodeShape(t, t.head.ref);
    } else {
      UpAt(index, level + 1);
      assert NodeShape(t, At(index, level));
    }
  }

  /** What one step of a tag lookup tells about index. */
  lemma TagDown(t: Tree, index: nat, r: Ref, tag: nat)
    requires Shape(t) && TagsOk(t) && r in t.nodes && r == At(index, r.level) && tag < TAGS
    ensures NodeShape(t, r)
    ensures var e := t.nodes[r].slots[Digit(index, r.level)];
      && (!t.nodes[r].tags[tag][Digit(index, r.level)] ==> !TagAt(t, index, tag))
      && (t.nodes[r].tags[tag][Digit(index, r.level)] && !e.Inner? ==> TagAt(t, index, tag))
      && (e.Inner? ==> r.level > 0 && e.ref == At(index, r.level - 1) && e.ref in t.nodes)
  {
    var o := Digit(index, r.level);
    assert NodeShape(t, r);
    BlockSplit(index, r.level);
    if TagAt(t, index, tag) { TaggedImpliesBit(t, r, o, tag, index); }
    if r.level > 0 {
      UpAt(index, r.level);
      BitDef(t, r, o, tag);
      if t.nodes[r].slots[o].Empty? { NoLeafBelow(t, r, o, index); }
    }
  }

  /** Index i is taken: it holds an entry, or, in an IDR, its ID is live. */
  ghost predicate Held(t: Tree, idr: bool, i: nat)
    requires Shape(t)
  {
    if idr then !TagAt(t, i, 0) else !Get(t, i).Empty?
  }

  /** Only index i changes: it now holds nothing. */
  ghost predicate Removed(t: Tree, u: Tree, i: nat)
    requires Shape(t) && Shape(u)
  {
    && (forall j: nat :: Get(u, j) == if j == i then Empty else Get(t, j))
    && (forall j: nat, g: nat :: g < TAGS ==> (TagAt(u, j, g) <==> if j == i then Default(t, g) else TagAt(t, j, g)))
  }

  /** Deleting a live ID: first its free bit is set, then its slot is cleared. */
  lemma DeleteIdrSlot(t: Tree, u: Tree, i: nat)
    requires Inv(t, true) && At(i, 0) in t.nodes && NodeShape(t, At(i, 0)) && NodeOk(t, true, At(i, 0))
    requires t.head.Inner? && Held(t, true, i) && !TagAt(t, i, 1) && !TagAt(t, i, 2)
    requires Shape(u) && TagsOk(u) && Marked(t, u, i, 0, true) && IdrRoot(u, true)
    ensures NodeShape(u, At(i, 0))
    ensures var was := t.nodes[At(i, 0)].slots[Digit(i, 0)];
      var v := PutSlot(u, At(i, 0), Digit(i, 0), Empty, -1, if was.Value? then -1 else 0);
      Inv(v, true) && Removed(t, v, i)
  {
    var r, o := At(i, 0), Digit(i, 0);
    var was := t.nodes[r].slots[o];
    var values := if was.Value? then -1 else 0;
    assert NodeShape(u, r);
    var v := PutSlot(u, r, o, Empty, -1, values);
    SameButTagsGet(t, u);
    MarkedNodesOk(t, u, true, i, 0, true, None);
    MarkedLeaf(t, u, i, 0, true);
    PutSlotOk(u, true, i, Empty, -1, values, Some(r));
    assert NodeShape(v, r);
    IdrLeafOk(t, v, i, Empty, false);
    NodesOkJoin(v, true, r);
  }

  /** Only index i changes: its ID becomes live with entry e. */
  ghost predicate Taken(t: Tree, u: Tree, i: nat, e: Entry)
    requires Shape(t) && Shape(u)
  {
    && (forall j: nat {:trigger Get(u, j)} :: Get(u, j) == if j == i then e else Get(t, j))
    && (forall j: nat, g: nat {:trigger TagAt(u, j, g)} :: g < TAGS ==>
          (TagAt(u, j, g) <==> TagAt(t, j, g) && !(j == i && g == 0)))
  }

  lemma HeldNot(t: Tree, i: nat, r: Ref, o: nat)
    requires Inv(t, true) && SlotOf(t, i, Some(r), o) && TagAt(t, i, 0)
    ensures NodeShape(t, r) && NodeOk(t, true, r) && t.nodes[r].slots[o].Empty?
  {
    assert NodeShape(t, r) && NodeOk(t, true, r) && LeafOk(t, true, t.nodes[r], o);
  }

  /** Allocating: after the slot is filled its leaf counts one more than its free bits show, and
      clearing the bit settles it. */
  lemma TakeIdrSlot(t: Tree, u: Tree, v: Tree, i: nat, e: Entry)
    requires Inv(t, true) && At(i, 0) in t.nodes && NodeShape(t, At(i, 0)) && NodeOk(t, true, At(i, 0))
    requires t.head.Inner? && TagAt(t, i, 0) && t.nodes[At(i, 0)].slots[Digit(i, 0)].Empty?
    requires Stable(u, true, Some(At(i, 0)))
    requires u.nodes[At(i, 0)].(parent := None)
             == PutSlot(t, At(i, 0), Digit(i, 0), e, 1, if e.Value? then 1 else 0).nodes[At(i, 0)].(parent := None)
    requires forall j: nat :: Get(u, j) == if j == i then e else Get(t, j)
    requires forall j: nat, g: nat :: g < TAGS ==> (TagAt(u, j, g) <==> TagAt(t, j, g))
    requires Shape(v) && TagsOk(v) && Marked(u, v, i, 0, false)
    ensures Inv(v, true) && Taken(t, v, i, e)
  {
    var r := At(i, 0);
    SameButTagsGet(u, v);
    MarkedNodesOk(u, v, true, i, 0, false, Some(r));
    MarkedLeaf(u, v, i, 0, false);
    assert NodeShape(v, r) && NodeShape(u, r);
    IdrLeafOk(t, v, i, e, true);
    NodesOkJoin(v, true, r);
  }

  lemma HeldSlot(t: Tree, idr: bool, i: nat, node: Option<Ref>, offset: nat)
    requires Inv(t, idr) && (t.trackFree <==> idr) && SlotOf(t, i, node, offset) && Held(t, idr, i)
    ensures node == None ==> t.head.Item?() && !idr
    ensures node.Some? ==> NodeShape(t, node.value) && NodeOk(t, idr, node.value)
    ensures node.Some? ==> LeafOk(t, idr, t.nodes[node.value], offset)
    ensures idr ==> !TagAt(t, i, 1) && !TagAt(t, i, 2)
  {
    assert node.Some? ==> NodeOk(t, idr, node.value) && NodeShape(t, node.value);
    assert node.Some? ==> LeafOk(t, idr, t.nodes[node.value], offset);
    assert RootOk(t, 0);
  }

  /** The slot where the walk towards index stopped tells whether index is taken. */
  lemma ReachedHeld(t: Tree, idr: bool, index: nat, found: bool, node: Option<Ref>, offset: nat)
    requires Inv(t, idr) && (t.trackFree <==> idr)
    requires found <==> index <= MaxIndex(t.head)
    requires found ==> ReachedSlot(t, index, node, offset) && SlotEntry(t, node, offset) == Get(t, index)
    ensures !found ==> !Held(t, idr, index)
    ensures found && idr ==>
              (Held(t, idr, index) <==> node.Some? && !t.nodes[node.value].tags[0][offset]) && (node == None ==> t.rootTags[0])
    ensures found && idr && !Get(t, index).Empty? ==> Held(t, idr, index)
    ensures found && Held(t, idr, index) ==> SlotOf(t, index, node, offset)
  {
    if !found {
      if t.head.Inner? && At(index, 0) in t.nodes { LeafInRange(t, index); }
    } else if node == None {
      assert RootOk(t, 0);
    } else if node.value.level == 0 {
      assert NodeOk(t, idr, node.value) && LeafOk(t, idr, t.nodes[node.value], offset);
    } else {
      var r := node.value;
      assert NodeShape(t, r);
      BlockSplit(index, r.level);
      if t.nodes[r].slots[offset].Empty? {
        BitDef(t, r, offset, 0);
        NoLeafBelow(t, r, offset, index);
      }
    }
  }

  /** In a plain tree an index that holds nothing has the default tags. */
  lemma EmptyIsDefault(t: Tree, i: nat)
    requires Inv(t, false)
    ensures Get(t, i).Empty? ==> forall g: nat :: g < TAGS ==> TagAt(t, i, g) == Default(t, g)
  {
    if At(i, 0) in t.nodes {
      assert NodeOk(t, false, At(i, 0)) && NodeShape(t, At(i, 0));
      assert t.head.Inner? ==> LeafOk(t, false, t.nodes[At(i, 0)], Digit(i, 0));
    }
    assert forall g: nat :: g < TAGS ==> RootOk(t, g);
  }

  lemma PutHeadPre(t: Tree, i: nat, e: Entry)
    requires Inv(t, false) && !t.head.Inner? && i == 0
    requires e.Empty? ==> forall tag: nat :: tag < TAGS ==> TagAt(t, i, tag) == Default(t, tag)
    ensures e.Empty? ==> forall g: nat :: g < TAGS ==> t.rootTags[g] == Default(t, g)
  {
    forall g: nat | g < TAGS && e.Empty?
      ensures t.rootTags[g] == Default(t, g)
    {
      assert RootOk(t, g) && TagAt(t, i, g) == Default(t, g);
    }
  }

  /** Nothing is stored beyond the maximum index. */
  lemma NothingBeyond(t: Tree, index: nat)
    requires Shape(t) && index > MaxIndex(t.head)
    ensures Get(t, index).Empty?
  {
    if t.head.Inner? && At(index, 0) in t.nodes {
      LeafInRange(t, index);
    }
  }

  /** Where the walk towards index meets an empty slot, index holds nothing. */
  lemma EmptySlotBelow(t: Tree, index: nat, node: Option<Ref>, offset: nat, level: nat)
    requires Shape(t) && Walked(t, index, node, offset, level + 1)
    ensures SlotEntry(t, node, offset).Empty? ==> Get(t, index).Empty?
  {
    if node.Some? && t.nodes[node.value].slots[offset].Empty? {
      BlockSplit(index, level + 1);
      NoLeafBelow(t, node.value, offset, index);
    }
  }

  /** Where the walk stands at an empty slot there is no node below it on the way to index. */
  lemma NoLeafThere(t: Tree, index: nat, node: Option<Ref>, offset: nat, level: nat)
    requires Shape(t) && Walked(t, index, node, offset, level + 1)
    ensures SlotEntry(t, node, offset).Empty? ==> At(index, level) !in t.nodes && At(index, 0) !in t.nodes
  {
    if SlotEntry(t, node, offset).Empty? {
      if node.Some? {
        UpAt(index, level + 1);
        assert NodeShape(t, node.value);
        if At(index, 0) in t.nodes { PathUp(t, index, 0, level); }
      } else {
        assert forall r :: r in t.nodes ==> NodeShape(t, r);
      }
    }
  }

  // ----- the walk of radix_tree_tag_set

  ghost predicate DescentAt(t0: Tree, t: Tree, tag: nat, index: nat, entry: Entry, node: Option<Ref>, o: nat)
    requires Shape(t0) && tag < TAGS
  {
    && Descent(t0, t, tag, node, o)
    && !Get(t0, index).Empty?
    && (if node == None then entry == t.head && (t.head.Inner? || index == 0) else entry == t.nodes[node.value].slots[o])
    && (entry.Inner? ==> entry.ref in t.nodes && entry.ref == At(index, entry.ref.level))
    && (node.Some? ==> t.head.Inner? && node.value == At(index, node.value.level) && o == Digit(index, node.value.level))
    && (if !entry.Inner? && node.Some? then Marked(t0, t, index, tag, true)
        else forall j: nat, g: nat :: t.head.Inner? && g < TAGS ==> (TagAt(t, j, g) <==> TagAt(t0, j, g)))
    && (node.Some? && !entry.Inner? ==> node.value.level == 0 && entry == Get(t0, index))
  }

  lemma DescentStart(t: Tree, tag: nat, index: nat)
    requires Shape(t) && TagsOk(t) && tag < TAGS && !Get(t, index).Empty?
    requires t.head.Inner? ==> t.head.ref == At(index, t.head.ref.level)
    ensures DescentAt(t, t.(rootTags := t.rootTags[tag := true]), tag, index, t.head, None, 0)
  {
    var u := t.(rootTags := t.rootTags[tag := true]);
    forall r | r in u.nodes
      ensures NodeShape(u, r)
    {
      assert NodeShape(t, r);
    }
    forall g: nat | g < TAGS && g != tag
      ensures RootOk(u, g)
    {
      assert RootOk(t, g);
    }
    forall s, p: nat, g: nat | s in u.nodes && s.level > 0 && p < CHUNK && g < TAGS
      ensures BitOk(u, s, p, g)
    {
      assert BitOk(t, s, p, g) && NodeShape(t, s);
      assert Child(s, p) in t.nodes ==> NodeShape(t, Child(s, p));
    }
    forall j: nat, g: nat | t.head.Inner? && g < TAGS
      ensures TagAt(u, j, g) <==> TagAt(t, j, g)
    {
      if At(j, 0) in t.nodes { assert NodeShape(t, At(j, 0)) && NodeShape(u, At(j, 0)); }
    }
  }

  lemma DescentDown(t0: Tree, t: Tree, tag: nat, index: nat, entry: Entry, node: Option<Ref>, o: nat)
    requires Shape(t0) && tag < TAGS && DescentAt(t0, t, tag, index, entry, node, o) && entry.Inner?
    ensures NodeShape(t, entry.ref)
    ensures var p := Digit(index, entry.ref.level);
      && !t.nodes[entry.ref].slots[p].Empty?
      && DescentAt(t0, PutBit(t, entry.ref, p, tag, true), tag, index, t.nodes[entry.ref].slots[p], Some(entry.ref), p)
  {
    var r := entry.ref;
    var p := Digit(index, r.level);
    assert NodeShape(t, r);
    var u := PutBit(t, r, p, tag, true);
    DescentBit(t0, t, tag, node, o, r, p);
    PutBitTag(t, r, p, tag, true, index);
    SameButTagsGet(t0, t);
    if t.nodes[r].slots[p].Empty? && r.level > 0 {
      BlockSplit(index, r.level);
      NoLeafBelow(t, r, p, index);
    }
    if r.level > 0 { UpAt(index, r.level); }
  }

  lemma PutBitSame(t: Tree, r: Ref, o: nat, tag: nat)
    requires r in t.nodes && tag < |t.nodes[r].tags| && o < |t.nodes[r].tags[tag]| && t.nodes[r].tags[tag][o]
    ensures PutBit(t, r, o, tag, true) == t
  {
    var n := t.nodes[r];
    assert n.tags[tag][o := true] == n.tags[tag];
    assert n.tags[tag := n.tags[tag]] == n.tags;
    assert t.nodes[r := n] == t.nodes;
  }

  lemma DescentEnd(t0: Tree, t: Tree, tag: nat, index: nat, entry: Entry, node: Option<Ref>, o: nat)
    requires Inv(t0, false) && tag < TAGS && DescentAt(t0, t, tag, index, entry, node, o) && !entry.Inner?
    ensures Inv(t, false) && entry == Get(t0, index)
    ensures forall j: nat :: Get(t, j) == Get(t0, j)
    ensures forall j: nat, g: nat :: g < TAGS ==> (TagAt(t, j, g) <==> (j == index && g == tag) || TagAt(t0, j, g))
  {
    SameButTagsGet(t0, t);
    assert TagsOk(t);
    if node == None {
      assert Marked(t0, t, index, tag, true);
    }
    MarkPlain(t0, t, index, tag, true);
  }

  /** The last index of node r. */
  function LastIndex(r: Ref): (i: nat)
    ensures Block(i, r.level + 1) == r.block && SlotIndex(r, CHUNK) == i + 1
  {
    var p := Pow(r.level + 1);
    PowStep(r.block + 1, r.level);
    Distribute(r.block, 1, p);
    BlockUnique((r.block + 1) * p - 1, r.level + 1, r.block);
    (r.block + 1) * p - 1
  }

  /** A node ends where the tree ends, or before. */
  lemma NodeInRange(t: Tree, r: Ref)
    requires Shape(t) && r in t.nodes
    ensures NodeShape(t, r) && t.head.Inner? && SlotIndex(r, CHUNK) <= MaxIndex(t.head) + 1 <= WORD
  {
    assert NodeShape(t, r);
    var top, last := t.head.ref.level, LastIndex(r);
    PathUp(t, last, r.level, top);
    TopUnique(t, At(last, top));
    BlockZero(last, top + 1);
    TopInWord(t);
  }

  lemma SlotInRange(t: Tree, r: Ref, o: nat)
    requires Shape(t) && r in t.nodes && o <= CHUNK
    ensures NodeShape(t, r) && SlotIndex(r, o) <= MaxIndex(t.head) + 1 <= WORD
  {
    NodeInRange(t, r);
    MulMono(r.block * CHUNK + o, r.block * CHUNK + CHUNK, Pow(r.level));
  }

  // ----- what a search has passed

  /** No index from lo up to, not including, hi holds an entry. */
  ghost predicate NoneStored(t: Tree, lo: nat, hi: nat)
    requires Shape(t)
  {
    forall i: nat {:trigger Get(t, i)} :: lo <= i < hi ==> Get(t, i).Empty?
  }

  /** No index from lo up to, not including, hi carries the tag. */
  ghost predicate NoneTagged(t: Tree, lo: nat, hi: nat, tag: nat)
    requires Shape(t) && tag < TAGS
  {
    forall i: nat {:trigger TagAt(t, i, tag)} :: lo <= i < hi ==> !TagAt(t, i, tag)
  }

  lemma NoneBeyond(t: Tree, lo: nat, hi: nat)
    requires Shape(t) && lo > MaxIndex(t.head)
    ensures NoneStored(t, lo, hi)
  {
    forall i: nat | lo <= i < hi
      ensures Get(t, i).Empty?
    {
      NothingBeyond(t, i);
    }
  }

  /** The rest of an empty slot holds nothing. */
  lemma PassEmpty(t: Tree, r: Ref, o: nat, lo: nat)
    requires Shape(t) && t.head.Inner? && r in t.nodes && NodeShape(t, r) && o < CHUNK && t.nodes[r].slots[o].Empty?
    requires Block(lo, r.level) == r.block * CHUNK + o
    ensures NoneStored(t, lo, SlotIndex(r, o + 1))
  {
    forall i: nat | lo <= i < SlotIndex(r, o + 1)
      ensures Get(t, i).Empty?
    {
      BlockMono(lo, i, r.level);
      BlockBelow(i, r.level, r.block * CHUNK + o + 1);
      if r.level > 0 {
        NoLeafBelow(t, r, o, i);
      } else {
        BlockJoin(r.block, o);
      }
    }
  }

  /** A row of clear bits says that the indices of its slots do not carry the tag. */
  lemma PassClear(t: Tree, tag: nat, r: Ref, o: nat, next: nat, lo: nat)
    requires Shape(t) && TagsOk(t) && tag < TAGS && r in t.nodes && NodeShape(t, r) && o <= next <= CHUNK
    requires forall p: nat :: o <= p < next ==> !t.nodes[r].tags[tag][p]
    requires Block(lo, r.level) >= r.block * CHUNK + o
    ensures NoneTagged(t, lo, SlotIndex(r, next), tag)
  {
    forall i: nat | lo <= i < SlotIndex(r, next)
      ensures !TagAt(t, i, tag)
    {
      BlockMono(lo, i, r.level);
      BlockBelow(i, r.level, r.block * CHUNK + next);
      SkipClear(t, tag, r, i, o, next);
    }
  }

  // ----- the search for a free index

  /** Every index from lo up to, not including, hi is live. */
  ghost predicate AllLive(t: Tree, lo: nat, hi: nat)
    requires Shape(t)
  {
    forall i: nat :: lo <= i < hi ==> !TagAt(t, i, 0)
  }

  /** The first index of slot o of node r. */
  function SlotIndex(r: Ref, o: nat): nat { (r.block * CHUNK + o) * Pow(r.level) }

  /** next_index: the first index of slot offset in the node of the given level over start. */
  function NextIndex(start: nat, level: nat, offset: nat): nat {
    (Block(start, level + 1) * Pow(level + 1) + offset * Pow(level)) % WORD
  }

  /** A clear root flag means that every index up to the maximum is live. */
  lemma RootFull(t: Tree)
    requires Inv(t, true) && !t.rootTags[0]
    ensures t.head.Inner? && AllLive(t, 0, MaxIndex(t.head) + 1)
  {
    RootExact(t, 0);
    assert RootOk(t, 0);
  }

  /** An index beyond the maximum is free. */
  lemma FreeBeyond(t0: Tree, t: Tree, i: nat)
    requires Shape(t0) && Inv(t, true) && SameContents(t0, t) && i > MaxIndex(t.head)
    ensures TagAt(t0, i, 0)
  {
    if t.head.Inner? && At(i, 0) in t.nodes { LeafInRange(t, i); }
    assert TagAt(t, i, 0);
  }

  /** An index whose path runs into an empty slot is free. */
  lemma FreeUnderEmpty(t0: Tree, t: Tree, i: nat, node: Option<Ref>, offset: nat, level: nat)
    requires Shape(t0) && Inv(t, true) && SameContents(t0, t) && Walked(t, i, node, offset, level + 1)
    ensures SlotEntry(t, node, offset).Empty? ==> TagAt(t0, i, 0)
  {
    if node.Some? && t.nodes[node.value].slots[offset].Empty? {
      BlockSplit(i, level + 1);
      NoLeafBelow(t, node.value, offset, i);
    }
    assert SlotEntry(t, node, offset).Empty? ==> TagAt(t, i, 0);
  }

  lemma SlotSum(r: Ref, o: nat)
    ensures SlotIndex(r, o) == r.block * Pow(r.level + 1) + o * Pow(r.level)
  {
    PowStep(r.block, r.level);
    Distribute(r.block * CHUNK, o, Pow(r.level));
  }

  /** Jumping from index start to slot next of its node r goes forward, by next_index(). */
  lemma SkipTo(start: nat, r: Ref, next: nat)
    requires start < WORD && r == At(start, r.level) && r.level < LEVELS && Digit(start, r.level) < next <= CHUNK
    ensures var to := SlotIndex(r, next);
      start < to <= WORD && NextIndex(start, r.level, next) == to % WORD
  {
    var l := r.level;
    BlockSplit(start, l);
    BlockAbove(start, l, r.block * CHUNK + next);
    SlotSum(r, next);
    InWord(start, l, r.block * CHUNK + next);
  }

  lemma WrapTo(start: nat, r: Ref, next: nat)
    requires start < WORD && r == At(start, r.level) && r.level < LEVELS && Digit(start, r.level) < next <= CHUNK
    ensures var to := SlotIndex(r, next);
      start < to <= WORD && NextIndex(start, r.level, next) == if to == WORD then 0 else to
  {
    SkipTo(start, r, next);
  }

  /** An index under a clear tag bit does not carry the tag. */
  lemma SkipClear(t: Tree, tag: nat, r: Ref, i: nat, first: nat, next: nat)
    requires Shape(t) && TagsOk(t) && tag < TAGS && r in t.nodes && NodeShape(t, r) && next <= CHUNK
    requires forall o: nat :: first <= o < next ==> !t.nodes[r].tags[tag][o]
    requires r.block * CHUNK + first <= Block(i, r.level) < r.block * CHUNK + next
    ensures !TagAt(t, i, tag)
  {
    var p := Block(i, r.level) - r.block * CHUNK;
    if TagAt(t, i, tag) { TaggedImpliesBit(t, r, p, tag, i); }
  }

  /** The first index of slot o of node r belongs to that slot. */
  lemma SlotStart(t: Tree, r: Ref, o: nat, i: nat)
    requires Shape(t) && r in t.nodes && o < CHUNK && i == SlotIndex(r, o)
    ensures NodeShape(t, r) && r.level < LEVELS
    ensures t.head.Inner? && Walked(t, i, Some(r), o, r.level)
  {
    assert NodeShape(t, r);
    BlockStart(r.block * CHUNK + o, r.level);
  }

  lemma TopInWord(t: Tree)
    requires Shape(t)
    ensures MaxIndex(t.head) + 1 <= WORD
  {
    PowWord();
    if t.head.Inner? { PowMono(t.head.ref.level + 1, LEVELS); }
  }

  lemma ItemsSame(t: Tree, u: Tree)
    requires Shape(t) && Shape(u) && forall j: nat :: Get(u, j) == Get(t, j)
    ensures Items(u) == Items(t)
  {
  }

  lemma ItemsPut(t: Tree, u: Tree, i: nat, e: Entry)
    requires Shape(t) && Shape(u) && !e.Empty? && forall j: nat :: Get(u, j) == if j == i then e else Get(t, j)
    ensures Items(u) == Items(t)[i := e]
  {
  }

  /** The end of the node over an index of the word is at most the end of the word. */
  lemma InWord(i: nat, l: nat, q: nat)
    requires i < WORD && l < LEVELS && q <= (Block(i, l + 1) + 1) * CHUNK
    ensures q * Pow(l) <= WORD
  {
    PowWord();
    var b := Block(i, l + 1);
    BlockBounds(i, l + 1);
    PowSplit(l + 1, LEVELS);
    var k := Pow(LEVELS - (l + 1));
    if b + 1 > k {
      MulMono(k, b, Pow(l + 1));
    }
    MulMono(b + 1, k, Pow(l + 1));
    MulMono(q, (b + 1) * CHUNK, Pow(l));
    PowStep(b + 1, l);
  }

  /** The slot after a node, in its parent. */
  lemma UpSlot(t: Tree, r: Ref)
    requires Shape(t) && r in t.nodes
    ensures NodeShape(t, r) && t.head.Inner?
    ensures t.nodes[r].parent.Some? ==>
              && t.nodes[r].parent == Some(Up(r)) && Up(r) in t.nodes && NodeShape(t, Up(r)) && r.level + 1 < LEVELS
              && t.nodes[r].offset < CHUNK
              && r.level < t.head.ref.level
              && SlotIndex(r, CHUNK) == SlotIndex(Up(r), t.nodes[r].offset + 1)
  {
    assert NodeShape(t, r);
    if t.nodes[r].parent.Some? {
      assert NodeShape(t, Up(r));
      assert Up(r).block * CHUNK + t.nodes[r].offset == r.block;
      PowStep(r.block + 1, r.level);
    }
  }
}
