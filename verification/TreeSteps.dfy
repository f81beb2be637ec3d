/** The structural steps both trees are built from: adding a root above the root, removing a
    root that has one leftmost child, linking a fresh node into an empty slot, and unlinking an
    empty node. None of them changes an entry or a tag of any index. */
module TreeSteps {
  import opened Wrappers
  import opened Digits
  import opened TreeState

  /** The two trees store the same entries and the same tags at every index. */
  ghost predicate SameContents(t: Tree, u: Tree)
    requires Shape(t) && Shape(u)
  {
    && (forall i: nat {:trigger Get(u, i)} :: Get(u, i) == Get(t, i))
    && (forall i: nat, tag: nat {:trigger TagAt(u, i, tag)} :: tag < TAGS ==> (TagAt(u, i, tag) <==> TagAt(t, i, tag)))
  }

  lemma SameTrans(t: Tree, u: Tree, v: Tree)
    requires Shape(t) && Shape(u) && Shape(v) && SameContents(t, u) && SameContents(u, v)
    ensures SameContents(t, v)
  {
    forall j: nat
      ensures Get(v, j) == Get(t, j)
    {
      assert Get(v, j) == Get(u, j);
    }
    forall j: nat, g: nat | g < TAGS
      ensures TagAt(v, j, g) <==> TagAt(t, j, g)
    {
      assert TagAt(v, j, g) <==> TagAt(u, j, g);
    }
  }

  function NoSlots(): (s: seq<Entry>)
    ensures |s| == CHUNK && forall o: nat :: o < CHUNK ==> s[o] == Empty
  {
    seq(CHUNK, _ => Empty)
  }

  function Filled(b: bool): (s: seq<bool>)
    ensures |s| == CHUNK && (forall o: nat :: o < CHUNK ==> s[o] == b) && (true in s <==> b)
  {
    var s := seq(CHUNK, _ => b);
    assert s[0] == b;
    s
  }

  function FreshTags(trackFree: bool): (s: seq<seq<bool>>)
    ensures |s| == TAGS
    ensures forall tag: nat :: tag < TAGS ==> s[tag] == Filled(trackFree && tag == 0)
  {
    [Filled(trackFree), Filled(false), Filled(false)]
  }

  /** radix_tree_node_alloc, xas_alloc. */
  function FreshNode(level: nat, offset: nat, parent: Option<Ref>, trackFree: bool): Node {
    Node(level, offset, 0, 0, parent, NoSlots(), FreshTags(trackFree))
  }

  // ----- a new root above the root

  function NewTop(e: Entry): Ref {
    if e.Inner? then Ref(e.ref.level + 1, 0) else Ref(0, 0)
  }

  function GrownTags(t: Tree): (s: seq<seq<bool>>)
    requires |t.rootTags| == TAGS
    ensures |s| == TAGS
    ensures forall tag: nat :: tag < TAGS ==> s[tag] == Filled(Default(t, tag))[0 := t.rootTags[tag]]
  {
    [Filled(t.trackFree)[0 := t.rootTags[0]],
     Filled(false)[0 := t.rootTags[1]],
     Filled(false)[0 := t.rootTags[2]]]
  }

  function Reparent(nodes: map<Ref, Node>, e: Entry, p: Option<Ref>): map<Ref, Node>
    requires e.Inner? ==> e.ref in nodes
  {
    if e.Inner? then nodes[e.ref := nodes[e.ref].(parent := p)] else nodes
  }

  function Grow(t: Tree): Tree
    requires |t.rootTags| == TAGS
    requires t.head.Inner? ==> t.head.ref in t.nodes
  {
    var r := NewTop(t.head);
    var n := Node(r.level, 0, 1, if t.head.Value? then 1 else 0, None, NoSlots()[0 := t.head], GrownTags(t));
    t.(head := Inner(r),
       rootTags := if t.trackFree then t.rootTags[0 := true] else t.rootTags,
       nodes := Reparent(t.nodes, t.head, Some(r))[r := n])
  }

  lemma GrowShape(t: Tree)
    requires Shape(t) && !t.head.Empty? && NewTop(t.head).level < LEVELS
    ensures NewTop(t.head) !in t.nodes
    ensures Shape(Grow(t))
  {
    var u, r := Grow(t), NewTop(t.head);
    assert r in t.nodes ==> NodeShape(t, r);
    forall s | s in u.nodes
      ensures NodeShape(u, s)
    {
      if s == r {
        if t.head.Inner? {
          assert Child(r, 0) == t.head.ref;
          forall o: nat | 0 < o < CHUNK
            ensures Child(r, o) !in t.nodes
          {
            if Child(r, o) in t.nodes {
              TopUnique(t, Child(r, o));
            }
          }
        }
      } else {
        assert NodeShape(t, s);
        assert s.level > 0 ==> forall o: nat :: o < CHUNK ==> Child(s, o) != r;
      }
    }
  }

  lemma GrowTags(t: Tree)
    requires Shape(t) && TagsOk(t) && !t.head.Empty? && NewTop(t.head).level < LEVELS
    requires Shape(Grow(t))
    ensures TagsOk(Grow(t))
  {
    var u, r := Grow(t), NewTop(t.head);
    assert NodeShape(u, r);
    forall tag: nat | tag < TAGS
      ensures RootOk(u, tag)
    {
      assert RootOk(t, tag);
      assert u.nodes[r].tags[tag][0] == t.rootTags[tag];
      assert u.nodes[r].tags[tag][1] == Default(t, tag);
    }
    forall s, o: nat, tag: nat | s in u.nodes && s.level > 0 && o < CHUNK && tag < TAGS
      ensures BitOk(u, s, o, tag)
    {
      assert NodeShape(u, s);
      if s == r {
        assert RootOk(t, tag);
        assert t.head.Inner? ==> NodeShape(t, t.head.ref);
      } else {
        assert NodeShape(t, s) && BitOk(t, s, o, tag);
        assert Child(s, o) in t.nodes ==> NodeShape(t, Child(s, o));
        assert Child(s, o) != r by { assert s.level <= t.head.ref.level; }
      }
    }
  }

  lemma GrowContents(t: Tree)
    requires Shape(t) && !t.head.Empty? && Shape(Grow(t))
    requires NewTop(t.head) !in t.nodes
    ensures SameContents(t, Grow(t))
  {
    var u, r := Grow(t), NewTop(t.head);
    if !t.head.Inner? {
      EmptyTree(t);
    }
    forall i: nat
      ensures Get(u, i) == Get(t, i)
    {
      SplitIndex(i);
      if At(i, 0) in u.nodes {
        assert NodeShape(u, At(i, 0));
        if At(i, 0) in t.nodes { assert NodeShape(t, At(i, 0)); }
      }
    }
    forall i: nat, tag: nat | tag < TAGS
      ensures TagAt(u, i, tag) <==> TagAt(t, i, tag)
    {
      SplitIndex(i);
      if At(i, 0) in u.nodes {
        assert NodeShape(u, At(i, 0));
        if At(i, 0) in t.nodes { assert NodeShape(t, At(i, 0)); }
      }
    }
  }

  lemma SplitIndex(i: nat)
    ensures At(i, 0).block * CHUNK + Digit(i, 0) == i
  {
    BlockSplit(i, 0);
  }

  // ----- removing a root with a single, leftmost child

  function Shrink(t: Tree): Tree
    requires t.head.Inner? && t.head.ref in t.nodes && NodeShape(t, t.head.ref) && |t.rootTags| == TAGS
    requires t.nodes[t.head.ref].slots[0].Inner? ==> t.nodes[t.head.ref].slots[0].ref in t.nodes
  {
    var h := t.head.ref;
    var n := t.nodes[h];
    t.(head := n.slots[0],
       rootTags := if t.trackFree && !n.tags[0][0] then t.rootTags[0 := false] else t.rootTags,
       nodes := Reparent(t.nodes, n.slots[0], None) - {h})
  }

  /** The root holds one entry, in slot 0, and nothing but default tags beside it. */
  ghost predicate Narrow(t: Tree)
    requires Shape(t) && t.head.Inner?
  {
    var n := t.nodes[t.head.ref];
    assert NodeShape(t, t.head.ref);
    && !n.slots[0].Empty?
    && (forall o: nat :: 0 < o < CHUNK ==> n.slots[o].Empty?)
    && (t.head.ref.level == 0 ==>
          forall o: nat, tag: nat :: 0 < o < CHUNK && tag < TAGS ==> n.tags[tag][o] == Default(t, tag))
  }

  lemma HeadChild(t: Tree)
    requires Shape(t) && t.head.Inner?
    ensures NodeShape(t, t.head.ref)
    ensures t.nodes[t.head.ref].slots[0].Inner? ==>
              t.head.ref.level > 0 && t.nodes[t.head.ref].slots[0] == Inner(Child(t.head.ref, 0))
              && Child(t.head.ref, 0) in t.nodes
  {
    assert NodeShape(t, t.head.ref);
  }

  /** Below a narrow root only the leftmost child's tree is left. */
  lemma NarrowTop(t: Tree, s: Ref)
    requires Shape(t) && t.head.Inner? && Narrow(t) && s in t.nodes && s != t.head.ref
    ensures t.head.ref.level > 0 && Child(t.head.ref, 0) in t.nodes
    ensures s.level < t.head.ref.level
    ensures s.level == t.head.ref.level - 1 ==> s == Child(t.head.ref, 0)
    ensures s != Child(t.head.ref, 0) ==> Up(s) != t.head.ref
  {
    var h := t.head.ref;
    assert NodeShape(t, h) && NodeShape(t, s);
    if s.level == h.level { TopUnique(t, s); }
    if s.level == h.level - 1 {
      TopUnique(t, Up(s));
      assert Child(h, s.block % CHUNK) == s;
    }
    if Child(h, 0) !in t.nodes { NoNodeUnderEmptyTop(t, s); }
  }

  lemma {:induction false} NoNodeUnderEmptyTop(t: Tree, s: Ref)
    requires Shape(t) && t.head.Inner? && Narrow(t) && s in t.nodes && s.level < t.head.ref.level
    ensures Child(t.head.ref, 0) in t.nodes
    decreases t.head.ref.level - s.level
  {
    var h := t.head.ref;
    assert NodeShape(t, h) && NodeShape(t, s);
    if s.level == h.level - 1 {
    } else {
      assert NodeShape(t, Up(s));
      NoNodeUnderEmptyTop(t, Up(s));
    }
  }

  lemma ShrinkShape(t: Tree)
    requires Shape(t) && t.head.Inner? && Narrow(t)
    ensures NodeShape(t, t.head.ref)
    ensures t.nodes[t.head.ref].slots[0].Inner? ==> t.nodes[t.head.ref].slots[0].ref in t.nodes
    ensures Shape(Shrink(t))
  {
    HeadChild(t);
    var h := t.head.ref;
    var u := Shrink(t);
    forall s | s in u.nodes
      ensures NodeShape(u, s)
    {
      assert NodeShape(t, s);
      NarrowTop(t, s);
      assert s.level > 0 ==> forall o: nat :: o < CHUNK ==> Child(s, o) != h;
    }
    if u.head.Inner? {
      assert NodeShape(t, Child(h, 0));
    }
  }

  lemma ShrinkTags(t: Tree)
    requires Shape(t) && TagsOk(t) && t.head.Inner? && Narrow(t)
    requires NodeShape(t, t.head.ref)
    requires t.nodes[t.head.ref].slots[0].Inner? ==> t.nodes[t.head.ref].slots[0].ref in t.nodes
    requires Shape(Shrink(t))
    ensures TagsOk(Shrink(t))
  {
    var h, u := t.head.ref, Shrink(t);
    HeadChild(t);
    forall tag: nat | tag < TAGS
      ensures RootOk(u, tag)
    {
      assert RootOk(t, tag);
      if h.level > 0 {
        BitDef(t, h, 0, tag);
        forall o: nat | 0 < o < CHUNK
          ensures t.nodes[h].tags[tag][o] == Default(t, tag)
        {
          BitDef(t, h, o, tag);
        }
        RowIsFirst(t.nodes[h].tags[tag], Default(t, tag));
      }
    }
    forall s, o: nat, tag: nat | s in u.nodes && s.level > 0 && o < CHUNK && tag < TAGS
      ensures BitOk(u, s, o, tag)
    {
      assert NodeShape(t, s) && NodeShape(u, s) && BitOk(t, s, o, tag);
      assert Child(s, o) in t.nodes ==> NodeShape(t, Child(s, o));
      NarrowTop(t, s);
    }
  }

  /** A row whose later bits all have the default value d is summarised by d or its first bit. */
  lemma RowIsFirst(s: seq<bool>, d: bool)
    requires |s| == CHUNK && forall o: nat :: 0 < o < CHUNK ==> s[o] == d
    ensures true in s <==> s[0] || d
  {
    assert s[1] == d && s[0] in s;
  }

  lemma ShrinkContents(t: Tree)
    requires Shape(t) && TagsOk(t) && t.head.Inner? && Narrow(t)
    requires NodeShape(t, t.head.ref)
    requires t.nodes[t.head.ref].slots[0].Inner? ==> t.nodes[t.head.ref].slots[0].ref in t.nodes
    requires Shape(Shrink(t))
    ensures SameContents(t, Shrink(t))
  {
    var h, u := t.head.ref, Shrink(t);
    HeadChild(t);
    forall i: nat
      ensures Get(u, i) == Get(t, i)
    {
      SplitIndex(i);
      if At(i, 0) in t.nodes { assert NodeShape(t, At(i, 0)); }
      if At(i, 0) in u.nodes { assert NodeShape(u, At(i, 0)); }
      if h.level == 0 {
        ShrinkLeafTags(t);
        if At(i, 0) in t.nodes { TopUnique(t, At(i, 0)); }
      }
    }
    forall i: nat, tag: nat | tag < TAGS
      ensures TagAt(u, i, tag) <==> TagAt(t, i, tag)
    {
      SplitIndex(i);
      if At(i, 0) in t.nodes { assert NodeShape(t, At(i, 0)); }
      if At(i, 0) in u.nodes { assert NodeShape(u, At(i, 0)); }
      if h.level == 0 {
        ShrinkLeafTags(t);
        if At(i, 0) in t.nodes { TopUnique(t, At(i, 0)); }
      }
    }
  }

  /** When the last node goes, its only entry's tags are the root tags. */
  lemma ShrinkLeafTags(t: Tree)
    requires Shape(t) && TagsOk(t) && t.head.Inner? && Narrow(t) && t.head.ref.level == 0
    requires NodeShape(t, t.head.ref)
    ensures forall tag: nat :: tag < TAGS ==> Shrink(t).rootTags[tag] == t.nodes[t.head.ref].tags[tag][0]
  {
    forall tag: nat | tag < TAGS
      ensures Shrink(t).rootTags[tag] == t.nodes[t.head.ref].tags[tag][0]
    {
      assert RootOk(t, tag);
      RowIsFirst(t.nodes[t.head.ref].tags[tag], Default(t, tag));
    }
  }

  // ----- linking a fresh node

  /** A fresh node in the empty slot o of node r. */
  function AddChild(t: Tree, r: Ref, o: nat): Tree
    requires r in t.nodes && r.level > 0 && o < |t.nodes[r].slots|
  {
    var n := t.nodes[r];
    var c := Child(r, o);
    t.(nodes := t.nodes[r := n.(slots := n.slots[o := Inner(c)], count := n.count + 1)]
                       [c := FreshNode(r.level - 1, o, Some(r), t.trackFree)])
  }

  /** A fresh node of the given level at the head of an empty tree. */
  function AddTop(t: Tree, level: nat): Tree {
    t.(head := Inner(Ref(level, 0)),
       nodes := t.nodes[Ref(level, 0) := FreshNode(level, 0, None, t.trackFree)])
  }

  lemma EmptyTree(t: Tree)
    requires Shape(t) && !t.head.Inner?
    ensures t.nodes == map[]
  {
    assert forall r :: r in t.nodes ==> NodeShape(t, r);
  }

  lemma AddTopOk(t: Tree, level: nat)
    requires Shape(t) && TagsOk(t) && t.head.Empty? && level < LEVELS
    ensures Ref(level, 0) !in t.nodes
    ensures Shape(AddTop(t, level)) && TagsOk(AddTop(t, level)) && SameContents(t, AddTop(t, level))
  {
    EmptyTree(t);
    var u := AddTop(t, level);
    assert NodeShape(u, Ref(level, 0)) by {
      assert level > 0 ==> forall o: nat :: o < CHUNK ==> Child(Ref(level, 0), o) !in u.nodes;
    }
    forall tag: nat | tag < TAGS
      ensures RootOk(u, tag)
    {
      assert RootOk(t, tag);
    }
  }

  lemma AddChildShape(t: Tree, r: Ref, o: nat)
    requires Shape(t) && r in t.nodes && r.level > 0 && o < CHUNK
    requires NodeShape(t, r) && t.nodes[r].slots[o].Empty?
    ensures Child(r, o) !in t.nodes
    ensures Shape(AddChild(t, r, o))
  {
    var c, u := Child(r, o), AddChild(t, r, o);
    forall s | s in u.nodes
      ensures NodeShape(u, s)
    {
      if s == c {
        if c.level > 0 {
          forall p: nat | p < CHUNK
            ensures Child(c, p) !in t.nodes
          {
            assert Up(Child(c, p)) == c;
            assert Child(c, p) in t.nodes ==> NodeShape(t, Child(c, p));
          }
        }
      } else {
        assert NodeShape(t, s);
        if s.level > 0 {
          assert forall p: nat :: p < CHUNK && Child(s, p) == c ==> s == r && p == o;
        }
      }
    }
  }

  lemma AddChildTags(t: Tree, r: Ref, o: nat)
    requires Shape(t) && TagsOk(t) && r in t.nodes && r.level > 0 && o < CHUNK
    requires NodeShape(t, r) && t.nodes[r].slots[o].Empty?
    requires Child(r, o) !in t.nodes && Shape(AddChild(t, r, o))
    ensures TagsOk(AddChild(t, r, o))
  {
    var c, u := Child(r, o), AddChild(t, r, o);
    forall tag: nat | tag < TAGS
      ensures RootOk(u, tag)
    {
      assert RootOk(t, tag) && NodeShape(t, t.head.ref) && NodeShape(u, u.head.ref);
    }
    forall s, p: nat, tag: nat | s in u.nodes && s.level > 0 && p < CHUNK && tag < TAGS
      ensures BitOk(u, s, p, tag)
    {
      assert NodeShape(u, s);
      assert Child(s, p) in u.nodes ==> NodeShape(u, Child(s, p));
      if s == c {
        assert u.nodes[c].tags[tag] == Filled(Default(t, tag));
      } else {
        BitDef(t, s, p, tag);
        assert Child(s, p) == c ==> s == r && p == o;
      }
    }
  }

  lemma AddChildContents(t: Tree, r: Ref, o: nat)
    requires Shape(t) && r in t.nodes && r.level > 0 && o < CHUNK && t.head.Inner?
    requires NodeShape(t, r) && Child(r, o) !in t.nodes && Shape(AddChild(t, r, o))
    ensures SameContents(t, AddChild(t, r, o))
  {
    var c, u := Child(r, o), AddChild(t, r, o);
    forall i: nat
      ensures Get(u, i) == Get(t, i)
    {
      if At(i, 0) in u.nodes {
        assert NodeShape(u, At(i, 0));
        if At(i, 0) in t.nodes { assert NodeShape(t, At(i, 0)); }
      }
    }
    forall i: nat, tag: nat | tag < TAGS
      ensures TagAt(u, i, tag) <==> TagAt(t, i, tag)
    {
      if At(i, 0) in u.nodes {
        assert NodeShape(u, At(i, 0));
        if At(i, 0) in t.nodes { assert NodeShape(t, At(i, 0)); }
      }
    }
  }

  // ----- unlinking an empty node

  /** Node r leaves the tree: its parent's slot, or the head, becomes NULL. */
  function DropNode(t: Tree, r: Ref): Tree
    requires r in t.nodes && NodeShape(t, r)
    requires t.head != Inner(r) ==> NodeShape(t, Up(r))
  {
    if t.head == Inner(r) then
      t.(head := Empty, nodes := t.nodes - {r})
    else
      var p := t.nodes[Up(r)];
      t.(nodes := t.nodes[Up(r) := p.(slots := p.slots[r.block % CHUNK := Empty], count := p.count - 1)] - {r})
  }

  /** Nothing is stored in node r, and its tags say so. */
  ghost predicate Blank(t: Tree, r: Ref)
    requires Shape(t) && r in t.nodes
  {
    assert NodeShape(t, r);
    && (forall o: nat :: o < CHUNK ==> t.nodes[r].slots[o].Empty?)
    && (forall o: nat, tag: nat :: o < CHUNK && tag < TAGS ==> t.nodes[r].tags[tag][o] == Default(t, tag))
  }

  lemma BlankRow(t: Tree, r: Ref, tag: nat)
    requires Shape(t) && r in t.nodes && tag < TAGS && Blank(t, r)
    ensures NodeShape(t, r)
    ensures true in t.nodes[r].tags[tag] <==> Default(t, tag)
  {
    assert NodeShape(t, r);
    assert t.nodes[r].tags[tag][0] == Default(t, tag);
  }

  lemma NoChildren(t: Tree, r: Ref, s: Ref)
    requires Shape(t) && r in t.nodes && Blank(t, r) && s in t.nodes && t.head != Inner(s)
    ensures Up(s) != r
  {
    assert NodeShape(t, s) && NodeShape(t, r);
    var o := s.block % CHUNK;
    if r.level > 0 {
      assert t.nodes[r].slots[o].Empty? && Child(r, o) !in t.nodes;
    }
  }

  lemma DropPre(t: Tree, r: Ref)
    requires Shape(t) && r in t.nodes
    ensures NodeShape(t, r)
    ensures t.head != Inner(r) ==> Up(r) in t.nodes && NodeShape(t, Up(r)) && t.nodes[Up(r)].slots[r.block % CHUNK] == Inner(r)
  {
    assert NodeShape(t, r);
    if t.head != Inner(r) {
      assert NodeShape(t, Up(r));
      assert Child(Up(r), r.block % CHUNK) == r;
    }
  }

  lemma DropTopAlone(t: Tree, s: Ref)
    requires Shape(t) && t.head.Inner? && Blank(t, t.head.ref) && s in t.nodes
    ensures s == t.head.ref
    decreases t.head.ref.level - s.level
  {
    assert NodeShape(t, s);
    if s != t.head.ref {
      DropTopAlone(t, Up(s));
      NoChildren(t, t.head.ref, s);
    }
  }

  lemma DropShape(t: Tree, r: Ref)
    requires Shape(t) && r in t.nodes && Blank(t, r)
    ensures NodeShape(t, r) && (t.head != Inner(r) ==> Up(r) in t.nodes && NodeShape(t, Up(r)))
    ensures Shape(DropNode(t, r))
  {
    DropPre(t, r);
    var u := DropNode(t, r);
    forall s | s in u.nodes
      ensures NodeShape(u, s)
    {
      assert NodeShape(t, s);
      if t.head == Inner(r) {
        DropTopAlone(t, s);
      } else {
        if t.head != Inner(s) { NoChildren(t, r, s); }
        if s.level > 0 {
          assert forall p: nat :: p < CHUNK && Child(s, p) == r ==> s == Up(r) && p == r.block % CHUNK;
        }
      }
    }
  }

  lemma DropTags(t: Tree, r: Ref)
    requires Shape(t) && TagsOk(t) && r in t.nodes && Blank(t, r)
    requires NodeShape(t, r) && (t.head != Inner(r) ==> Up(r) in t.nodes && NodeShape(t, Up(r)))
    requires Shape(DropNode(t, r))
    ensures TagsOk(DropNode(t, r))
  {
    var u := DropNode(t, r);
    DropPre(t, r);
    forall tag: nat | tag < TAGS
      ensures RootOk(u, tag)
    {
      assert RootOk(t, tag);
      BlankRow(t, r, tag);
      assert NodeShape(t, t.head.ref);
      assert u.head.Inner? ==> NodeShape(u, u.head.ref);
    }
    forall s, p: nat, tag: nat | s in u.nodes && s.level > 0 && p < CHUNK && tag < TAGS
      ensures BitOk(u, s, p, tag)
    {
      assert NodeShape(u, s);
      assert Child(s, p) in u.nodes ==> NodeShape(u, Child(s, p));
      BitDef(t, s, p, tag);
      BlankRow(t, r, tag);
    }
  }

  lemma DropContents(t: Tree, r: Ref)
    requires Shape(t) && TagsOk(t) && r in t.nodes && Blank(t, r)
    requires NodeShape(t, r) && (t.head != Inner(r) ==> Up(r) in t.nodes && NodeShape(t, Up(r)))
    requires Shape(DropNode(t, r))
    ensures SameContents(t, DropNode(t, r))
  {
    var u := DropNode(t, r);
    forall i: nat
      ensures Get(u, i) == Get(t, i)
    {
      if At(i, 0) in t.nodes { assert NodeShape(t, At(i, 0)); }
      if At(i, 0) in u.nodes { assert NodeShape(u, At(i, 0)); }
      if u.head.Empty? { EmptyTree(u); }
    }
    forall i: nat, tag: nat | tag < TAGS
      ensures TagAt(u, i, tag) <==> TagAt(t, i, tag)
    {
      if At(i, 0) in t.nodes { assert NodeShape(t, At(i, 0)); }
      if At(i, 0) in u.nodes { assert NodeShape(u, At(i, 0)); }
      if u.head.Empty? { EmptyTree(u); }
    }
  }
}
