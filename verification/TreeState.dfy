/** The tree shared by the radix tree (lib/radix-tree.c) and the XArray (lib/xarray.c):
    a head entry, three root tags and the memory that holds the nodes.

    Node memory is a map from addresses to node records. An address names the place the node
    was allocated for: its level (node->shift / 4) and the number of the block of indices it
    covers. Growing and shrinking never change either of them, because the old root always
    becomes slot 0. No operation looks inside an address; it is only followed, and every
    allocation is proved to use an address that is not in use. */
module TreeState {
  import opened Wrappers
  import opened Digits

  datatype Ref = Ref(level: nat, block: nat)

  /** A slot: NULL, a value entry, a user pointer, XA_ZERO_ENTRY, XA_RETRY_ENTRY or a node. */
  datatype Entry =
    | Empty
    | Value(v: nat)
    | Pointer(p: nat)
    | Zero
    | Retry
    | Inner(ref: Ref)
  {
    /** An entry that occupies an index. */
    predicate Item?() { Value? || Pointer? || Zero? }
  }

  datatype Node = Node(
    level: nat,          // shift / 4
    offset: nat,
    count: int,
    nrValues: int,
    parent: Option<Ref>,
    slots: seq<Entry>,
    tags: seq<seq<bool>>
  )

  const TAGS: nat := 3

  /** trackFree is is_idr() for a radix tree and xa_track_free() for an XArray. */
  datatype Tree = Tree(head: Entry, rootTags: seq<bool>, nodes: map<Ref, Node>, trackFree: bool)

  // ----- positions

  function Up(r: Ref): Ref { Ref(r.level + 1, r.block / CHUNK) }

  function Child(r: Ref, o: nat): Ref
    requires r.level > 0
  {
    Ref(r.level - 1, r.block * CHUNK + o)
  }

  /** The place of the node of level l on the path to index i. */
  function At(i: nat, l: nat): Ref { Ref(l, Block(i, l + 1)) }

  /** The largest index a tree with this head can hold (radix_tree_load_root, max_index). */
  function MaxIndex(e: Entry): nat {
    if e.Inner? then Pow(e.ref.level + 1) - 1 else 0
  }

  // ----- invariants

  predicate NodeShape(t: Tree, r: Ref)
    requires r in t.nodes
  {
    var n := t.nodes[r];
    && n.level == r.level
    && |n.slots| == CHUNK
    && |n.tags| == TAGS
    && (forall tag: nat :: tag < TAGS ==> |n.tags[tag]| == CHUNK)
    && t.head.Inner?
    && r.level <= t.head.ref.level
    && n.offset == r.block % CHUNK
    && (if t.head == Inner(r) then n.parent == None else Up(r) in t.nodes && n.parent == Some(Up(r)))
    && (forall o: nat :: o < CHUNK ==>
          if r.level == 0 then n.slots[o].Empty? || n.slots[o].Item?()
          else n.slots[o] == if Child(r, o) in t.nodes then Inner(Child(r, o)) else Empty)
  }

  /** Every link of the tree is two-way and every allocated node hangs off the head. */
  ghost predicate Shape(t: Tree) {
    && |t.rootTags| == TAGS
    && (t.head.Empty? || t.head.Item?() || t.head.Inner?)
    && (t.head.Inner? ==> t.head.ref in t.nodes && t.head.ref.block == 0 && t.head.ref.level < LEVELS)
    && forall r {:trigger NodeShape(t, r)} :: r in t.nodes ==> NodeShape(t, r)
  }

  /** The value of a tag where nothing is stored: free space is tagged, nothing else is. */
  predicate Default(t: Tree, tag: nat) { t.trackFree && tag == 0 }

  /** What the tag bit above entry e has to be. */
  predicate Summary(t: Tree, e: Entry, tag: nat)
    requires tag < TAGS
    requires e.Inner? ==> e.ref in t.nodes && |t.nodes[e.ref].tags| == TAGS
  {
    if e.Inner? then true in t.nodes[e.ref].tags[tag] else Default(t, tag)
  }

  ghost predicate BitOk(t: Tree, r: Ref, o: nat, tag: nat)
    requires Shape(t) && r in t.nodes && r.level > 0 && o < CHUNK && tag < TAGS
  {
    assert NodeShape(t, r);
    assert Child(r, o) in t.nodes ==> NodeShape(t, Child(r, o));
    t.nodes[r].tags[tag][o] == Summary(t, t.nodes[r].slots[o], tag)
  }

  ghost predicate RootOk(t: Tree, tag: nat)
    requires Shape(t) && tag < TAGS
  {
    assert t.head.Inner? ==> NodeShape(t, t.head.ref);
    t.head.Item?() || t.rootTags[tag] == Summary(t, t.head, tag)
  }

  /** Every inner tag bit and every root tag summarises what lies below it. */
  ghost predicate TagsOk(t: Tree)
    requires Shape(t)
  {
    && (forall tag: nat {:trigger RootOk(t, tag)} :: tag < TAGS ==> RootOk(t, tag))
    && (forall r, o: nat, tag: nat {:trigger BitOk(t, r, o, tag)} ::
          r in t.nodes && r.level > 0 && o < CHUNK && tag < TAGS ==> BitOk(t, r, o, tag))
  }

  // ----- contents

  /** The entry stored at index i. */
  ghost function Get(t: Tree, i: nat): Entry
    requires Shape(t)
  {
    if t.head.Inner? then
      if At(i, 0) in t.nodes then
        assert NodeShape(t, At(i, 0)); t.nodes[At(i, 0)].slots[Digit(i, 0)]
      else Empty
    else if i == 0 then t.head
    else Empty
  }

  /** Whether index i carries the tag. */
  ghost predicate TagAt(t: Tree, i: nat, tag: nat)
    requires Shape(t) && tag < TAGS
  {
    if t.head.Inner? then
      if At(i, 0) in t.nodes then
        assert NodeShape(t, At(i, 0)); t.nodes[At(i, 0)].tags[tag][Digit(i, 0)]
      else Default(t, tag)
    else if t.head.Item?() && i == 0 then t.rootTags[tag]
    else Default(t, tag)
  }

  // ----- paths

  lemma UpAt(i: nat, l: nat)
    ensures Up(At(i, l)) == At(i, l + 1)
    ensures l > 0 ==> Child(At(i, l), Digit(i, l)) == At(i, l - 1)
    ensures At(i, l).block % CHUNK == Digit(i, l + 1)
  {
  }

  /** Whoever has a node on the path to i has all the nodes above it. */
  lemma {:induction false} PathUp(t: Tree, i: nat, lo: nat, hi: nat)
    requires Shape(t) && t.head.Inner? && At(i, lo) in t.nodes
    requires lo <= hi <= t.head.ref.level
    ensures At(i, hi) in t.nodes
    decreases hi - lo
  {
    assert NodeShape(t, At(i, lo));
    if lo < hi {
      UpAt(i, lo);
      PathUp(t, i, lo + 1, hi);
    }
  }

  /** The head is the only node of its level. */
  lemma TopUnique(t: Tree, r: Ref)
    requires Shape(t) && r in t.nodes && t.head.Inner? && r.level == t.head.ref.level
    ensures t.head == Inner(r)
  {
    assert NodeShape(t, r);
    if t.head != Inner(r) {
      HigherIsOutside(t, Up(r));
    }
  }

  lemma HigherIsOutside(t: Tree, r: Ref)
    requires Shape(t) && t.head.Inner? && r.level > t.head.ref.level
    ensures r !in t.nodes
  {
    assert r in t.nodes ==> NodeShape(t, r);
  }

  /** Only indices up to the maximum have a leaf. */
  lemma LeafInRange(t: Tree, i: nat)
    requires Shape(t) && t.head.Inner? && At(i, 0) in t.nodes
    ensures i <= MaxIndex(t.head)
  {
    var top := t.head.ref.level;
    PathUp(t, i, 0, top);
    TopUnique(t, At(i, top));
    BlockZero(i, top + 1);
  }

  /** Below an empty slot there is no leaf. */
  lemma NoLeafBelow(t: Tree, r: Ref, o: nat, i: nat)
    requires Shape(t) && r in t.nodes && r.level > 0 && o < CHUNK
    requires NodeShape(t, r) && t.nodes[r].slots[o].Empty?
    requires Block(i, r.level) == r.block * CHUNK + o
    ensures At(i, 0) !in t.nodes
  {
    assert NodeShape(t, r);
    assert At(i, r.level - 1) == Child(r, o);
    if At(i, 0) in t.nodes {
      PathUp(t, i, 0, r.level - 1);
    }
  }

  /** The node of level l over index i, when the tree is that high, is the head or hangs below it. */
  lemma HeadCovers(t: Tree, i: nat)
    requires Shape(t) && t.head.Inner? && i <= MaxIndex(t.head)
    ensures At(i, t.head.ref.level) == t.head.ref
  {
    BlockZero(i, t.head.ref.level + 1);
  }

  // ----- what a tag bit says about the indices below it

  ghost predicate TaggedIn(t: Tree, q: nat, l: nat, tag: nat)
    requires Shape(t) && tag < TAGS
  {
    exists i: nat :: Block(i, l) == q && TagAt(t, i, tag)
  }

  /** An inner bit in terms of the child's bits. */
  lemma BitDef(t: Tree, r: Ref, o: nat, tag: nat)
    requires Shape(t) && TagsOk(t) && r in t.nodes && r.level > 0 && o < CHUNK && tag < TAGS
    ensures NodeShape(t, r)
    ensures Child(r, o) in t.nodes ==> NodeShape(t, Child(r, o))
    ensures t.nodes[r].slots[o] == if Child(r, o) in t.nodes then Inner(Child(r, o)) else Empty
    ensures t.nodes[r].tags[tag][o] <==>
              if Child(r, o) in t.nodes then true in t.nodes[Child(r, o)].tags[tag] else Default(t, tag)
  {
    assert NodeShape(t, r) && BitOk(t, r, o, tag);
    assert Child(r, o) in t.nodes ==> NodeShape(t, Child(r, o));
  }

  lemma {:induction false} BitImpliesTagged(t: Tree, r: Ref, o: nat, tag: nat) returns (i: nat)
    requires Shape(t) && TagsOk(t) && r in t.nodes && o < CHUNK && tag < TAGS
    requires NodeShape(t, r) && t.nodes[r].tags[tag][o]
    ensures Block(i, r.level) == r.block * CHUNK + o && TagAt(t, i, tag)
    decreases r.level
  {
    if r.level == 0 {
      i := r.block * CHUNK + o;
      BlockJoin(r.block, o);
    } else {
      BitDef(t, r, o, tag);
      var c := Child(r, o);
      if c in t.nodes {
        var p: nat :| p < CHUNK && t.nodes[c].tags[tag][p];
        i := BitImpliesTagged(t, c, p, tag);
        assert Block(i, r.level) == Block(i, r.level - 1) / CHUNK;
      } else {
        i := (r.block * CHUNK + o) * Pow(r.level);
        BlockStart(r.block * CHUNK + o, r.level);
        NoLeafBelow(t, r, o, i);
      }
    }
  }

  lemma {:induction false} TaggedImpliesBit(t: Tree, r: Ref, o: nat, tag: nat, i: nat)
    requires Shape(t) && TagsOk(t) && r in t.nodes && o < CHUNK && tag < TAGS
    requires Block(i, r.level) == r.block * CHUNK + o && TagAt(t, i, tag)
    ensures NodeShape(t, r) && t.nodes[r].tags[tag][o]
    decreases r.level
  {
    if r.level == 0 {
      assert NodeShape(t, r);
      assert At(i, 0) == r && Digit(i, 0) == o;
    } else {
      BitDef(t, r, o, tag);
      var c := Child(r, o);
      if c in t.nodes {
        var p := Digit(i, r.level - 1);
        assert Block(i, c.level) == c.block * CHUNK + p;
        TaggedImpliesBit(t, c, p, tag, i);
        assert t.nodes[c].tags[tag][p] in t.nodes[c].tags[tag];
      } else {
        NoLeafBelow(t, r, o, i);
      }
    }
  }

  /** A tag bit is set exactly when some index in the block of its slot carries the tag. With
      the free tag: it is clear exactly when every index of the block is in use. */
  lemma BitExact(t: Tree, r: Ref, o: nat, tag: nat)
    requires Shape(t) && TagsOk(t) && r in t.nodes && o < CHUNK && tag < TAGS
    ensures NodeShape(t, r)
    ensures t.nodes[r].tags[tag][o] <==> TaggedIn(t, r.block * CHUNK + o, r.level, tag)
  {
    assert NodeShape(t, r);
    if t.nodes[r].tags[tag][o] {
      var i := BitImpliesTagged(t, r, o, tag);
    }
    if TaggedIn(t, r.block * CHUNK + o, r.level, tag) {
      var i: nat :| Block(i, r.level) == r.block * CHUNK + o && TagAt(t, i, tag);
      TaggedImpliesBit(t, r, o, tag, i);
    }
  }

  /** A root tag is set exactly when some index up to the tree's maximum carries the tag. */
  lemma RootExact(t: Tree, tag: nat)
    requires Shape(t) && TagsOk(t) && tag < TAGS
    ensures t.rootTags[tag] <==> exists i: nat :: i <= MaxIndex(t.head) && TagAt(t, i, tag)
  {
    assert RootOk(t, tag);
    if t.head.Inner? {
      var h := t.head.ref;
      assert NodeShape(t, h);
      if t.rootTags[tag] {
        var o: nat :| o < CHUNK && t.nodes[h].tags[tag][o];
        var i := BitImpliesTagged(t, h, o, tag);
        BlockSplit(i, h.level);
        BlockZero(i, h.level + 1);
        assert i <= MaxIndex(t.head);
      }
      if exists i: nat :: i <= MaxIndex(t.head) && TagAt(t, i, tag) {
        var i: nat :| i <= MaxIndex(t.head) && TagAt(t, i, tag);
        HeadCovers(t, i);
        BlockSplit(i, h.level);
        TaggedImpliesBit(t, h, Digit(i, h.level), tag, i);
        assert t.nodes[h].tags[tag][Digit(i, h.level)] in t.nodes[h].tags[tag];
      }
    } else {
      assert TagAt(t, 0, tag) == t.rootTags[tag];
    }
  }
}
