/** Changing one tag or one entry. A tag change starts at a leaf and walks up the parent links;
    between two steps exactly one bit of the tree may disagree with what lies below it. */
module TreeTags {
  import opened Wrappers
  import opened Digits
  import opened TreeState
  import opened TreeSteps
  import opened TreeCounts

  /** Every bit but (node, o) of the tag, or but the root's when node is None, is a right summary. */
  ghost predicate BitsBut(t: Tree, tag: nat, node: Option<Ref>, o: nat)
    requires Shape(t)
  {
    && (forall g: nat {:trigger RootOk(t, g)} :: g < TAGS && !(g == tag && node == None) ==> RootOk(t, g))
    && (forall r, p: nat, g: nat {:trigger BitOk(t, r, p, g)} ::
          r in t.nodes && r.level > 0 && p < CHUNK && g < TAGS && !(Some(r) == node && p == o && g == tag)
          ==> BitOk(t, r, p, g))
  }

  function PutBit(t: Tree, r: Ref, o: nat, tag: nat, b: bool): Tree
    requires r in t.nodes && tag < |t.nodes[r].tags| && o < |t.nodes[r].tags[tag]|
  {
    var n := t.nodes[r];
    t.(nodes := t.nodes[r := n.(tags := n.tags[tag := n.tags[tag][o := b]])])
  }

  /** Only tags differ. */
  ghost predicate SameButTags(t: Tree, u: Tree) {
    && u.head == t.head && u.trackFree == t.trackFree && u.nodes.Keys == t.nodes.Keys
    && forall r :: r in t.nodes ==> u.nodes[r] == t.nodes[r].(tags := u.nodes[r].tags)
  }

  /** The tag of index i becomes b and nothing else changes. */
  ghost predicate Marked(t: Tree, u: Tree, i: nat, tag: nat, b: bool)
    requires Shape(t) && Shape(u)
  {
    && SameButTags(t, u)
    && (forall g: nat :: g < TAGS && g != tag ==> u.rootTags[g] == t.rootTags[g])
    && (forall j: nat, g: nat :: g < TAGS ==>
          (TagAt(u, j, g) <==> if j == i && g == tag then b else TagAt(t, j, g)))
  }

  lemma SameButTagsGet(t: Tree, u: Tree)
    requires Shape(t) && Shape(u) && SameButTags(t, u)
    ensures forall i: nat :: Get(u, i) == Get(t, i)
  {
    forall i: nat
      ensures Get(u, i) == Get(t, i)
    {
      if At(i, 0) in t.nodes { assert NodeShape(t, At(i, 0)) && NodeShape(u, At(i, 0)); }
    }
  }

  lemma PutBitShape(t: Tree, r: Ref, o: nat, tag: nat, b: bool)
    requires Shape(t) && r in t.nodes && o < CHUNK && tag < TAGS
    ensures NodeShape(t, r)
    ensures Shape(PutBit(t, r, o, tag, b))
  {
    assert NodeShape(t, r);
    var u := PutBit(t, r, o, tag, b);
    forall s | s in u.nodes
      ensures NodeShape(u, s)
    {
      assert NodeShape(t, s);
    }
  }

  /** Writing the open bit of row r decides every bit but the parent's, and the parent's too if
      the summary of the row did not change. */
  lemma PutBitInner(t: Tree, r: Ref, o: nat, tag: nat, b: bool, s: Ref, p: nat, g: nat)
    requires Shape(t) && r in t.nodes && o < CHUNK && tag < TAGS && NodeShape(t, r)
    requires BitsBut(t, tag, Some(r), o)
    requires r.level > 0 ==> b == Wanted(t, r, o, tag)
    requires Shape(PutBit(t, r, o, tag, b))
    requires s in t.nodes && s.level > 0 && p < CHUNK && g < TAGS
    requires (true in t.nodes[r].tags[tag] <==> true in t.nodes[r].tags[tag][o := b])
             || !(Some(s) == t.nodes[r].parent && p == t.nodes[r].offset && g == tag)
    ensures BitOk(PutBit(t, r, o, tag, b), s, p, g)
  {
    var u := PutBit(t, r, o, tag, b);
    assert NodeShape(u, s) && NodeShape(t, s) && NodeShape(u, r);
    assert Child(s, p) in t.nodes ==> NodeShape(t, Child(s, p)) && NodeShape(u, Child(s, p));
    if !(s == r && p == o && g == tag) {
      assert BitOk(t, s, p, g);
    }
  }

  lemma PutBitRoot(t: Tree, r: Ref, o: nat, tag: nat, b: bool, g: nat)
    requires Shape(t) && r in t.nodes && o < CHUNK && tag < TAGS && NodeShape(t, r)
    requires BitsBut(t, tag, Some(r), o)
    requires Shape(PutBit(t, r, o, tag, b)) && g < TAGS
    requires (true in t.nodes[r].tags[tag] <==> true in t.nodes[r].tags[tag][o := b])
             || !(g == tag && t.nodes[r].parent == None)
    ensures RootOk(PutBit(t, r, o, tag, b), g)
  {
    var u := PutBit(t, r, o, tag, b);
    assert RootOk(t, g);
    assert NodeShape(t, t.head.ref) && NodeShape(u, u.head.ref);
  }

  /** The bit that may disagree moves to the parent, unless the row's summary did not change. */
  lemma PutBitMoves(t: Tree, r: Ref, o: nat, tag: nat, b: bool)
    requires Shape(t) && r in t.nodes && o < CHUNK && tag < TAGS && NodeShape(t, r)
    requires BitsBut(t, tag, Some(r), o)
    requires r.level > 0 ==> b == Wanted(t, r, o, tag)
    requires Shape(PutBit(t, r, o, tag, b))
    ensures BitsBut(PutBit(t, r, o, tag, b), tag, t.nodes[r].parent, t.nodes[r].offset)
    ensures (true in t.nodes[r].tags[tag] <==> true in t.nodes[r].tags[tag][o := b]) ==>
              TagsOk(PutBit(t, r, o, tag, b))
  {
    var u := PutBit(t, r, o, tag, b);
    var same := true in t.nodes[r].tags[tag] <==> true in t.nodes[r].tags[tag][o := b];
    forall g: nat | g < TAGS && (same || !(g == tag && t.nodes[r].parent == None))
      ensures RootOk(u, g)
    {
      PutBitRoot(t, r, o, tag, b, g);
    }
    forall s, p: nat, g: nat |
      s in u.nodes && s.level > 0 && p < CHUNK && g < TAGS
      && (same || !(Some(s) == t.nodes[r].parent && p == t.nodes[r].offset && g == tag))
      ensures BitOk(u, s, p, g)
    {
      PutBitInner(t, r, o, tag, b, s, p, g);
    }
  }

  /** What an inner bit ought to be. */
  ghost predicate Wanted(t: Tree, r: Ref, o: nat, tag: nat)
    requires Shape(t) && r in t.nodes && r.level > 0 && o < CHUNK && tag < TAGS
  {
    assert NodeShape(t, r);
    assert Child(r, o) in t.nodes ==> NodeShape(t, Child(r, o));
    Summary(t, t.nodes[r].slots[o], tag)
  }

  /** If the open bit agrees after all, the tree is consistent. */
  lemma CloseBits(t: Tree, r: Ref, o: nat, tag: nat)
    requires Shape(t) && r in t.nodes && o < CHUNK && tag < TAGS && NodeShape(t, r)
    requires BitsBut(t, tag, Some(r), o)
    requires r.level > 0 ==> t.nodes[r].tags[tag][o] == Wanted(t, r, o, tag)
    ensures TagsOk(t)
  {
    assert r.level > 0 ==> BitOk(t, r, o, tag);
  }

  /** Setting the bit of index i in its leaf sets its tag; a bit higher up is nobody's tag. */
  lemma PutBitTag(t: Tree, r: Ref, o: nat, tag: nat, b: bool, i: nat)
    requires Shape(t) && r in t.nodes && o < CHUNK && tag < TAGS && NodeShape(t, r)
    requires Shape(PutBit(t, r, o, tag, b))
    requires r.level == 0 ==> r == At(i, 0) && o == Digit(i, 0)
    ensures SameButTags(t, PutBit(t, r, o, tag, b))
    ensures forall j: nat, g: nat :: g < TAGS ==>
              (TagAt(PutBit(t, r, o, tag, b), j, g) <==>
               if r.level == 0 && j == i && g == tag then b else TagAt(t, j, g))
  {
    var u := PutBit(t, r, o, tag, b);
    forall j: nat, g: nat | g < TAGS
      ensures TagAt(u, j, g) <==> if r.level == 0 && j == i && g == tag then b else TagAt(t, j, g)
    {
      SplitIndex(j);
      SplitIndex(i);
      if At(j, 0) in t.nodes { assert NodeShape(t, At(j, 0)) && NodeShape(u, At(j, 0)); }
    }
  }

  function PutRoot(t: Tree, tag: nat, b: bool): Tree
    requires tag < |t.rootTags|
  {
    t.(rootTags := t.rootTags[tag := b])
  }

  lemma PutRootOk(t: Tree, tag: nat, b: bool, o: nat)
    requires Shape(t) && tag < TAGS && BitsBut(t, tag, None, o)
    requires t.head.Inner? ==> NodeShape(t, t.head.ref) && b == (true in t.nodes[t.head.ref].tags[tag])
    requires t.head.Inner? || t.head.Item?()
    ensures Shape(PutRoot(t, tag, b)) && TagsOk(PutRoot(t, tag, b))
    ensures SameButTags(t, PutRoot(t, tag, b))
    ensures forall j: nat, g: nat :: g < TAGS ==>
              (TagAt(PutRoot(t, tag, b), j, g) <==>
               if t.head.Item?() && j == 0 && g == tag then b else TagAt(t, j, g))
  {
    var u := PutRoot(t, tag, b);
    forall r | r in u.nodes
      ensures NodeShape(u, r)
    {
      assert NodeShape(t, r);
    }
    forall g: nat | g < TAGS
      ensures RootOk(u, g)
    {
      assert g != tag ==> RootOk(t, g);
    }
    forall s, p: nat, g: nat | s in u.nodes && s.level > 0 && p < CHUNK && g < TAGS
      ensures BitOk(u, s, p, g)
    {
      assert BitOk(t, s, p, g) && NodeShape(t, s);
      assert Child(s, p) in t.nodes ==> NodeShape(t, Child(s, p));
    }
    forall j: nat, g: nat | g < TAGS
      ensures TagAt(u, j, g) <==> if t.head.Item?() && j == 0 && g == tag then b else TagAt(t, j, g)
    {
      if At(j, 0) in t.nodes { assert NodeShape(t, At(j, 0)) && NodeShape(u, At(j, 0)); }
    }
  }

  // ----- the walk up

  /** node and offset name the slot that belongs to index: a leaf slot, or the head itself. */
  ghost predicate SlotOf(t: Tree, index: nat, node: Option<Ref>, offset: nat) {
    match node
    case None => !t.head.Inner? && index == 0
    case Some(r) => t.head.Inner? && r in t.nodes && r == At(index, 0) && offset == Digit(index, 0)
  }

  /** The walk that gives index i's tag the value b has come to (node, o): everything is right
      except perhaps that bit, which ought to be b. t0 is the tree the walk began with. */
  ghost predicate Climb(t0: Tree, t: Tree, tag: nat, node: Option<Ref>, o: nat, i: nat, b: bool)
    requires Shape(t0) && tag < TAGS
  {
    && Shape(t)
    && BitsBut(t, tag, node, o)
    && (if node.Some? then
          && node.value in t.nodes && o < CHUNK
          && (node.value.level > 0 ==> Wanted(t, node.value, o, tag) == b)
        else
          && (t.head.Item?() || t.head.Inner?)
          && (t.head.Inner? ==> NodeShape(t, t.head.ref) && (true in t.nodes[t.head.ref].tags[tag]) == b))
    && (if !t.head.Inner? || (node.Some? && node.value.level == 0) then t == t0 && SlotOf(t, i, node, o)
        else Marked(t0, t, i, tag, b))
  }

  lemma ClimbStart(t: Tree, tag: nat, node: Option<Ref>, o: nat, i: nat, b: bool)
    requires Shape(t) && TagsOk(t) && tag < TAGS && SlotOf(t, i, node, o) && (node == None ==> t.head.Item?())
    ensures Climb(t, t, tag, node, o, i, b)
  {
  }

  /** The bit already has its value: nothing above it needs to change. */
  lemma ClimbStop(t0: Tree, t: Tree, tag: nat, r: Ref, o: nat, i: nat, b: bool)
    requires Shape(t0) && tag < TAGS && Climb(t0, t, tag, Some(r), o, i, b)
    requires NodeShape(t, r) && t.nodes[r].tags[tag][o] == b
    ensures TagsOk(t) && Marked(t0, t, i, tag, b)
  {
    CloseBits(t, r, o, tag);
    if r.level == 0 {
      forall j: nat, g: nat | g < TAGS
        ensures TagAt(t, j, g) <==> if j == i && g == tag then b else TagAt(t0, j, g)
      {
      }
    }
  }

  lemma ClimbStepMarks(t0: Tree, t: Tree, tag: nat, r: Ref, o: nat, i: nat, b: bool)
    requires Shape(t0) && tag < TAGS && Climb(t0, t, tag, Some(r), o, i, b) && NodeShape(t, r)
    ensures Shape(PutBit(t, r, o, tag, b)) && Marked(t0, PutBit(t, r, o, tag, b), i, tag, b)
  {
    PutBitShape(t, r, o, tag, b);
    PutBitTag(t, r, o, tag, b, i);
  }

  lemma ClimbStep(t0: Tree, t: Tree, tag: nat, r: Ref, o: nat, i: nat, b: bool)
    requires Shape(t0) && tag < TAGS && Climb(t0, t, tag, Some(r), o, i, b)
    requires NodeShape(t, r) && t.nodes[r].tags[tag][o] != b
    ensures var u, x := PutBit(t, r, o, tag, b), t.nodes[r];
      && Shape(u) && NodeShape(u, r) && Marked(t0, u, i, tag, b)
      && (b || true !in u.nodes[r].tags[tag] ==> Climb(t0, u, tag, x.parent, x.offset, i, b))
      && (!b && true in u.nodes[r].tags[tag] ==> TagsOk(u))
      && (x.parent.Some? ==> x.parent.value.level == r.level + 1 <= t.head.ref.level)
  {
    var u, x := PutBit(t, r, o, tag, b), t.nodes[r];
    ClimbStepMarks(t0, t, tag, r, o, i, b);
    PutBitMoves(t, r, o, tag, b);
    assert NodeShape(u, r);
    assert x.tags[tag][o] in x.tags[tag];
    assert u.nodes[r].tags[tag][o] in u.nodes[r].tags[tag];
    if x.parent.Some? {
      assert NodeShape(t, Up(r)) && NodeShape(u, Up(r)) && Child(Up(r), x.offset) == r;
    }
  }

  lemma ClimbRoot(t0: Tree, t: Tree, tag: nat, o: nat, i: nat, b: bool)
    requires Shape(t0) && tag < TAGS && Climb(t0, t, tag, None, o, i, b)
    ensures Shape(PutRoot(t, tag, b)) && TagsOk(PutRoot(t, tag, b)) && Marked(t0, PutRoot(t, tag, b), i, tag, b)
  {
    PutRootOk(t, tag, b, o);
  }

  /** A tag change at index i leaves every node in order except perhaps the leaf of i. */
  lemma MarkedNodesOk(t: Tree, u: Tree, idr: bool, i: nat, tag: nat, b: bool, skip: Option<Ref>)
    requires Shape(t) && Shape(u) && Marked(t, u, i, tag, b) && NodesOk(t, idr, skip)
    requires skip == None || skip == Some(At(i, 0))
    ensures NodesOk(u, idr, Some(At(i, 0)))
  {
    forall s | s in u.nodes && s != At(i, 0)
      ensures NodeOk(u, idr, s)
    {
      assert NodeOk(t, idr, s) && NodeShape(t, s) && NodeShape(u, s);
      if s.level == 0 {
        forall g: nat | g < TAGS
          ensures t.nodes[s].tags[g] == u.nodes[s].tags[g]
        {
          forall o: nat | o < CHUNK
            ensures t.nodes[s].tags[g][o] == u.nodes[s].tags[g][o]
          {
            var j := s.block * CHUNK + o;
            BlockJoin(s.block, o);
            assert At(j, 0) == s;
            assert TagAt(u, j, g) <==> TagAt(t, j, g);
          }
        }
        assert t.nodes[s].tags == u.nodes[s].tags;
        SameNodeOk(t, u, idr, s);
      }
    }
  }

  // ----- one entry

  /** The write a store into slot o of leaf r makes (replace_slot, insert_entries). */
  function PutSlot(t: Tree, r: Ref, o: nat, e: Entry, count: int, values: int): Tree
    requires r in t.nodes && o < |t.nodes[r].slots|
  {
    var n := t.nodes[r];
    t.(nodes := t.nodes[r := n.(slots := n.slots[o := e], count := n.count + count, nrValues := n.nrValues + values)])
  }

  lemma PutSlotOk(t: Tree, idr: bool, i: nat, e: Entry, count: int, values: int, skip: Option<Ref>)
    requires Shape(t) && TagsOk(t) && At(i, 0) in t.nodes && (e.Empty? || e.Item?())
    requires NodesOk(t, idr, skip) && (skip == None || skip == Some(At(i, 0)))
    ensures NodeShape(t, At(i, 0))
    ensures var u := PutSlot(t, At(i, 0), Digit(i, 0), e, count, values);
      && Shape(u) && TagsOk(u) && NodesOk(u, idr, Some(At(i, 0)))
      && (forall j: nat :: Get(u, j) == if j == i then e else Get(t, j))
      && (forall j: nat, g: nat :: g < TAGS ==> (TagAt(u, j, g) <==> TagAt(t, j, g)))
  {
    var r, o := At(i, 0), Digit(i, 0);
    assert NodeShape(t, r);
    var u := PutSlot(t, r, o, e, count, values);
    forall s | s in u.nodes
      ensures NodeShape(u, s)
    {
      assert NodeShape(t, s);
    }
    forall g: nat | g < TAGS
      ensures RootOk(u, g)
    {
      assert RootOk(t, g) && NodeShape(t, t.head.ref);
    }
    forall s, p: nat, g: nat | s in u.nodes && s.level > 0 && p < CHUNK && g < TAGS
      ensures BitOk(u, s, p, g)
    {
      assert BitOk(t, s, p, g) && NodeShape(t, s);
      assert Child(s, p) in t.nodes ==> NodeShape(t, Child(s, p));
    }
    PutSlotContents(t, i, e, count, values);
    forall s | s in u.nodes && Some(s) != Some(r)
      ensures NodeOk(u, idr, s)
    {
      assert NodeOk(t, idr, s);
      SameNodeOk(t, u, idr, s);
    }
  }

  lemma PutSlotContents(t: Tree, i: nat, e: Entry, count: int, values: int)
    requires Shape(t) && At(i, 0) in t.nodes && NodeShape(t, At(i, 0))
    requires Shape(PutSlot(t, At(i, 0), Digit(i, 0), e, count, values))
    ensures var u := PutSlot(t, At(i, 0), Digit(i, 0), e, count, values);
      && (forall j: nat :: Get(u, j) == if j == i then e else Get(t, j))
      && (forall j: nat, g: nat :: g < TAGS ==> (TagAt(u, j, g) <==> TagAt(t, j, g)))
  {
    var u := PutSlot(t, At(i, 0), Digit(i, 0), e, count, values);
    SplitIndex(i);
    forall j: nat
      ensures Get(u, j) == if j == i then e else Get(t, j)
    {
      SplitIndex(j);
      if At(j, 0) in t.nodes { assert NodeShape(t, At(j, 0)) && NodeShape(u, At(j, 0)); }
    }
    forall j: nat, g: nat | g < TAGS
      ensures TagAt(u, j, g) <==> TagAt(t, j, g)
    {
      if At(j, 0) in t.nodes { assert NodeShape(t, At(j, 0)) && NodeShape(u, At(j, 0)); }
    }
  }

  /** Storing at the head of a tree without nodes. */
  lemma PutHeadOk(t: Tree, idr: bool, e: Entry)
    requires Inv(t, idr) && !idr && !t.head.Inner? && (e.Empty? || e.Item?())
    requires e.Empty? ==> forall g: nat :: g < TAGS ==> t.rootTags[g] == Default(t, g)
    ensures Inv(t.(head := e), idr)
    ensures forall j: nat :: Get(t.(head := e), j) == if j == 0 then e else Get(t, j)
    ensures forall j: nat, g: nat :: g < TAGS ==> (TagAt(t.(head := e), j, g) <==> TagAt(t, j, g))
  {
    EmptyTree(t);
    forall g: nat | g < TAGS
      ensures RootOk(t.(head := e), g)
      ensures t.head.Empty? ==> t.rootTags[g] == Default(t, g)
    {
      assert RootOk(t, g);
    }
  }

  /** A plain leaf stays in order when an entry and its counts change together. */
  lemma PutSlotPlain(t: Tree, i: nat, e: Entry)
    requires Inv(t, false) && At(i, 0) in t.nodes && NodeShape(t, At(i, 0)) && (e.Empty? || e.Item?())
    requires e.Empty? ==> forall g: nat :: g < TAGS ==> TagAt(t, i, g) == Default(t, g)
    ensures var was := t.nodes[At(i, 0)].slots[Digit(i, 0)];
      var u := PutSlot(t, At(i, 0), Digit(i, 0), e,
                       (if e.Empty? then 0 else 1) - (if was.Empty? then 0 else 1),
                       (if e.Value? then 1 else 0) - (if was.Value? then 1 else 0));
      && Inv(u, false)
      && (forall j: nat :: Get(u, j) == if j == i then e else Get(t, j))
      && (forall j: nat, g: nat :: g < TAGS ==> (TagAt(u, j, g) <==> TagAt(t, j, g)))
  {
    var r, o := At(i, 0), Digit(i, 0);
    var was := t.nodes[r].slots[o];
    var count := (if e.Empty? then 0 else 1) - (if was.Empty? then 0 else 1);
    var values := (if e.Value? then 1 else 0) - (if was.Value? then 1 else 0);
    var u := PutSlot(t, r, o, e, count, values);
    PutSlotOk(t, false, i, e, count, values, None);
    PutLeafOk(t, u, i, e, count, values);
    NodesOkJoin(u, false, r);
  }

  lemma PutLeafOk(t: Tree, u: Tree, i: nat, e: Entry, count: int, values: int)
    requires Inv(t, false) && At(i, 0) in t.nodes && NodeShape(t, At(i, 0)) && (e.Empty? || e.Item?()) && Shape(u)
    requires e.Empty? ==> forall g: nat :: g < TAGS ==> TagAt(t, i, g) == Default(t, g)
    requires u == PutSlot(t, At(i, 0), Digit(i, 0), e, count, values)
    requires var was := t.nodes[At(i, 0)].slots[Digit(i, 0)];
      && count == (if e.Empty? then 0 else 1) - (if was.Empty? then 0 else 1)
      && values == (if e.Value? then 1 else 0) - (if was.Value? then 1 else 0)
    ensures NodeOk(u, false, At(i, 0))
  {
    var r, o := At(i, 0), Digit(i, 0);
    CountSet(t.nodes[r].slots, o, e);
    assert NodeOk(t, false, r) && NodeShape(u, r);
    forall p: nat | p < CHUNK
      ensures LeafOk(u, false, u.nodes[r], p)
    {
      assert LeafOk(t, false, t.nodes[r], p);
      assert forall g: nat :: g < TAGS ==> t.nodes[r].tags[g][o] == TagAt(t, i, g);
    }
  }

  // ----- tags and leaves

  /** After a tag change at index i, the rows of its leaf. */
  lemma MarkedLeaf(t: Tree, u: Tree, i: nat, tag: nat, b: bool)
    requires Shape(t) && Shape(u) && Marked(t, u, i, tag, b) && At(i, 0) in t.nodes && tag < TAGS
    ensures NodeShape(t, At(i, 0))
    ensures u.nodes[At(i, 0)].tags ==
            t.nodes[At(i, 0)].tags[tag := t.nodes[At(i, 0)].tags[tag][Digit(i, 0) := b]]
  {
    var r := At(i, 0);
    assert NodeShape(t, r) && NodeShape(u, r);
    SplitIndex(i);
    var want := t.nodes[r].tags[tag := t.nodes[r].tags[tag][Digit(i, 0) := b]];
    forall g: nat | g < TAGS
      ensures u.nodes[r].tags[g] == want[g]
    {
      forall o: nat | o < CHUNK
        ensures u.nodes[r].tags[g][o] == want[g][o]
      {
        var j := r.block * CHUNK + o;
        BlockJoin(r.block, o);
        assert At(j, 0) == r;
        assert TagAt(u, j, g) <==> if j == i && g == tag then b else TagAt(t, j, g);
      }
    }
  }

  /** A plain tree stays in order when a tag changes, if an empty slot keeps the default tag. */
  lemma MarkPlain(t: Tree, u: Tree, i: nat, tag: nat, b: bool)
    requires Inv(t, false) && Shape(u) && TagsOk(u) && Marked(t, u, i, tag, b) && tag < TAGS
    requires Get(t, i).Empty? ==> b == Default(t, tag)
    ensures Inv(u, false)
  {
    MarkedNodesOk(t, u, false, i, tag, b, None);
    var r := At(i, 0);
    if r in t.nodes {
      MarkedLeaf(t, u, i, tag, b);
      assert NodeOk(t, false, r) && NodeShape(u, r);
      forall o: nat | o < CHUNK
        ensures LeafOk(u, false, u.nodes[r], o)
      {
        assert LeafOk(t, false, t.nodes[r], o);
      }
      assert NodeOk(u, false, r);
    }
    forall s | s in u.nodes
      ensures NodeOk(u, false, s)
    {
    }
  }

  /** A leaf of an IDR after one ID's entry became e and its free bit became !live. */
  lemma IdrLeafOk(t: Tree, u: Tree, i: nat, e: Entry, live: bool)
    requires Shape(t) && Shape(u) && t.trackFree && u.trackFree && At(i, 0) in t.nodes && At(i, 0) in u.nodes
    requires NodeOk(t, true, At(i, 0)) && NodeShape(t, At(i, 0)) && NodeShape(u, At(i, 0))
    requires live || e.Empty?
    requires var n, m, o := t.nodes[At(i, 0)], u.nodes[At(i, 0)], Digit(i, 0);
      && m.slots == n.slots[o := e]
      && m.tags == n.tags[0 := n.tags[0][o := !live]]
      && m.count == n.count + (if live then 1 else 0) - (if n.tags[0][o] then 0 else 1)
      && m.nrValues == n.nrValues + (if e.Value? then 1 else 0) - (if n.slots[o].Value? then 1 else 0)
    ensures NodeOk(u, true, At(i, 0))
  {
    var r, o := At(i, 0), Digit(i, 0);
    CountSet(t.nodes[r].slots, o, e);
    CountBit(t.nodes[r].tags[0], o, !live);
    forall p: nat | p < CHUNK
      ensures LeafOk(u, true, u.nodes[r], p)
    {
      assert LeafOk(t, true, t.nodes[r], p);
    }
  }

  lemma NodesOkJoin(t: Tree, idr: bool, r: Ref)
    requires Shape(t) && NodesOk(t, idr, Some(r)) && (r in t.nodes ==> NodeOk(t, idr, r))
    ensures NodesOk(t, idr, None)
  {
    forall s | s in t.nodes
      ensures NodeOk(t, idr, s)
    {
    }
  }

  // ----- the walk down that sets a tag (radix_tree_tag_set)

  /** The walk towards index has set the tag on every slot down to (node, o); the root's tag, which
      is set last, is counted as set. */
  ghost predicate Descent(t0: Tree, t: Tree, tag: nat, node: Option<Ref>, o: nat)
    requires Shape(t0) && tag < TAGS
  {
    && Shape(t) && BitsBut(t, tag, node, o) && SameButTags(t0, t) && t.rootTags[tag]
    && (forall g: nat :: g < TAGS && g != tag ==> t.rootTags[g] == t0.rootTags[g])
    && (node.Some? ==> node.value in t.nodes && o < CHUNK && NodeShape(t, node.value) && t.nodes[node.value].tags[tag][o])
  }

  lemma DescentBit(t0: Tree, t: Tree, tag: nat, node: Option<Ref>, o: nat, r: Ref, p: nat)
    requires Shape(t0) && tag < TAGS && Descent(t0, t, tag, node, o) && r in t.nodes && p < CHUNK && NodeShape(t, r)
    requires if node == None then t.head == Inner(r) else t.nodes[node.value].slots[o] == Inner(r)
    ensures Shape(PutBit(t, r, p, tag, true)) && Descent(t0, PutBit(t, r, p, tag, true), tag, Some(r), p)
  {
    var u := PutBit(t, r, p, tag, true);
    PutBitShape(t, r, p, tag, true);
    assert NodeShape(u, r) && u.nodes[r].tags[tag][p] in u.nodes[r].tags[tag];
    forall g: nat | g < TAGS
      ensures RootOk(u, g)
    {
      DescentRootOk(t0, t, tag, node, o, r, p, g);
    }
    forall s, q: nat, g: nat | s in u.nodes && s.level > 0 && q < CHUNK && g < TAGS && !(Some(s) == Some(r) && q == p && g == tag)
      ensures BitOk(u, s, q, g)
    {
      DescentBitOk(t0, t, tag, node, o, r, p, s, q, g);
    }
  }

  lemma DescentRootOk(t0: Tree, t: Tree, tag: nat, node: Option<Ref>, o: nat, r: Ref, p: nat, g: nat)
    requires Shape(t0) && tag < TAGS && Descent(t0, t, tag, node, o) && r in t.nodes && p < CHUNK && NodeShape(t, r)
    requires if node == None then t.head == Inner(r) else t.nodes[node.value].slots[o] == Inner(r)
    requires Shape(PutBit(t, r, p, tag, true)) && g < TAGS
    ensures RootOk(PutBit(t, r, p, tag, true), g)
  {
    var u := PutBit(t, r, p, tag, true);
    assert NodeShape(u, u.head.ref) && NodeShape(t, t.head.ref);
    assert !(g == tag && node == None) ==> RootOk(t, g);
    assert u.nodes[r].tags[tag][p] in u.nodes[r].tags[tag];
  }

  /** Only the slot the walk came from leads to r. */
  lemma DescentParent(t: Tree, node: Option<Ref>, o: nat, r: Ref, s: Ref, q: nat)
    requires Shape(t) && r in t.nodes && s in t.nodes && s.level > 0 && q < CHUNK && o < CHUNK && Child(s, q) == r
    requires node.Some? ==> node.value in t.nodes && NodeShape(t, node.value)
    requires if node == None then t.head == Inner(r) else t.nodes[node.value].slots[o] == Inner(r)
    ensures Some(s) == node && q == o
  {
    assert NodeShape(t, s);
  }

  lemma DescentBitOk(t0: Tree, t: Tree, tag: nat, node: Option<Ref>, o: nat, r: Ref, p: nat, s: Ref, q: nat, g: nat)
    requires Shape(t0) && tag < TAGS && Descent(t0, t, tag, node, o) && r in t.nodes && p < CHUNK && NodeShape(t, r)
    requires if node == None then t.head == Inner(r) else t.nodes[node.value].slots[o] == Inner(r)
    requires Shape(PutBit(t, r, p, tag, true))
    requires s in t.nodes && s.level > 0 && q < CHUNK && g < TAGS && !(s == r && q == p && g == tag)
    ensures BitOk(PutBit(t, r, p, tag, true), s, q, g)
  {
    if Child(s, q) == r {
      DescentBitAbove(t0, t, tag, node, o, r, p, s, q, g);
    } else {
      var u := PutBit(t, r, p, tag, true);
      assert NodeShape(t, s) && NodeShape(u, s);
      assert Child(s, q) in t.nodes ==> NodeShape(t, Child(s, q)) && NodeShape(u, Child(s, q));
      assert BitOk(t, s, q, g);
    }
  }

  lemma DescentBitAbove(t0: Tree, t: Tree, tag: nat, node: Option<Ref>, o: nat, r: Ref, p: nat, s: Ref, q: nat, g: nat)
    requires Shape(t0) && tag < TAGS && Descent(t0, t, tag, node, o) && r in t.nodes && p < CHUNK && NodeShape(t, r)
    requires if node == None then t.head == Inner(r) else t.nodes[node.value].slots[o] == Inner(r)
    requires Shape(PutBit(t, r, p, tag, true))
    requires s in t.nodes && s.level > 0 && q < CHUNK && g < TAGS && Child(s, q) == r
    ensures BitOk(PutBit(t, r, p, tag, true), s, q, g)
  {
    var u := PutBit(t, r, p, tag, true);
    assert NodeShape(t, s) && NodeShape(u, s);
    assert u.nodes[r].tags[tag][p] in u.nodes[r].tags[tag];
    DescentParent(t, node, if node == None then 0 else o, r, s, q);
    if g != tag { assert BitOk(t, s, q, g); }
  }
}
