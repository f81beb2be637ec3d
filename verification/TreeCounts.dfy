/** Slot counts, and the invariant of a whole tree.

    A node's count is the number of its occupied slots; in a leaf of an IDR it is the number of
    live IDs, whatever is stored for them. A node's nr_values is the number of value entries. */
module TreeCounts {
  import opened Wrappers
  import opened Digits
  import opened TreeState
  import opened TreeSteps

  function Cnt(s: seq<bool>): (n: nat)
    ensures n <= |s|
  {
    if s == [] then 0 else Cnt(s[..|s| - 1]) + (if s[|s| - 1] then 1 else 0)
  }

  lemma {:induction false} CntUpdate(s: seq<bool>, o: nat, b: bool)
    requires o < |s|
    ensures Cnt(s[o := b]) == Cnt(s) - (if s[o] then 1 else 0) + (if b then 1 else 0)
  {
    var m := |s| - 1;
    if o == m {
      assert s[o := b][..m] == s[..m];
    } else {
      assert s[o := b][..m] == s[..m][o := b];
      CntUpdate(s[..m], o, b);
    }
  }

  lemma {:induction false} CntZero(s: seq<bool>)
    ensures Cnt(s) == 0 <==> forall o: nat :: o < |s| ==> !s[o]
  {
    if s != [] {
      var m := |s| - 1;
      CntZero(s[..m]);
      assert forall o: nat :: o < m ==> s[..m][o] == s[o];
    }
  }

  /** A row with one true bit, which is bit o, has no other. */
  lemma CntOne(s: seq<bool>, o: nat)
    requires o < |s| && s[o] && Cnt(s) == 1
    ensures forall p: nat :: p < |s| && p != o ==> !s[p]
  {
    CntUpdate(s, o, false);
    CntZero(s[o := false]);
    assert forall p: nat :: p < |s| && p != o ==> s[p] == s[o := false][p];
  }

  function Occupied(slots: seq<Entry>): (s: seq<bool>)
    ensures |s| == |slots| && forall o: nat :: o < |slots| ==> s[o] == !slots[o].Empty?
  {
    seq(|slots|, o requires 0 <= o < |slots| => !slots[o].Empty?)
  }

  function Values(slots: seq<Entry>): (s: seq<bool>)
    ensures |s| == |slots| && forall o: nat :: o < |slots| ==> s[o] == slots[o].Value?
  {
    seq(|slots|, o requires 0 <= o < |slots| => slots[o].Value?)
  }

  function Negated(bits: seq<bool>): (s: seq<bool>)
    ensures |s| == |bits| && forall o: nat :: o < |bits| ==> s[o] == !bits[o]
  {
    seq(|bits|, o requires 0 <= o < |bits| => !bits[o])
  }

  lemma CountSet(slots: seq<Entry>, o: nat, e: Entry)
    requires o < |slots|
    ensures Cnt(Occupied(slots[o := e])) ==
            Cnt(Occupied(slots)) - (if slots[o].Empty? then 0 else 1) + (if e.Empty? then 0 else 1)
    ensures Cnt(Values(slots[o := e])) ==
            Cnt(Values(slots)) - (if slots[o].Value? then 1 else 0) + (if e.Value? then 1 else 0)
  {
    assert Occupied(slots[o := e]) == Occupied(slots)[o := !e.Empty?];
    assert Values(slots[o := e]) == Values(slots)[o := e.Value?];
    CntUpdate(Occupied(slots), o, !e.Empty?);
    CntUpdate(Values(slots), o, e.Value?);
  }

  lemma CountBit(bits: seq<bool>, o: nat, b: bool)
    requires o < |bits|
    ensures Cnt(Negated(bits[o := b])) ==
            Cnt(Negated(bits)) - (if bits[o] then 0 else 1) + (if b then 0 else 1)
  {
    assert Negated(bits[o := b]) == Negated(bits)[o := !b];
    CntUpdate(Negated(bits), o, !b);
  }

  lemma CountFresh()
    ensures Cnt(Occupied(NoSlots())) == 0 && Cnt(Values(NoSlots())) == 0 && Cnt(Negated(Filled(true))) == 0
  {
    CntZero(Occupied(NoSlots()));
    CntZero(Values(NoSlots()));
    CntZero(Negated(Filled(true)));
  }

  // ----- the invariant of one node

  /** The slots that hold something: for a leaf of an IDR, those whose ID is live. */
  function Used(t: Tree, idr: bool, r: Ref): (s: seq<bool>)
    requires r in t.nodes && NodeShape(t, r)
    ensures |s| == CHUNK
  {
    if idr && r.level == 0 then Negated(t.nodes[r].tags[0]) else Occupied(t.nodes[r].slots)
  }

  ghost predicate NodeOk(t: Tree, idr: bool, r: Ref)
    requires Shape(t) && r in t.nodes
  {
    assert NodeShape(t, r);
    var n := t.nodes[r];
    && n.count == Cnt(Used(t, idr, r))
    && n.nrValues == Cnt(Values(n.slots))
    && (r.level == 0 ==> forall o: nat :: o < CHUNK ==> LeafOk(t, idr, n, o))
  }

  /** An empty slot has no tags except the free tag. A free ID of an IDR has no pointer. */
  ghost predicate LeafOk(t: Tree, idr: bool, n: Node, o: nat)
    requires o < CHUNK == |n.slots| && |n.tags| == TAGS && forall tag: nat :: tag < TAGS ==> |n.tags[tag]| == CHUNK
  {
    && (idr ==> (n.tags[0][o] ==> n.slots[o].Empty?) && !n.tags[1][o] && !n.tags[2][o])
    && (!idr && n.slots[o].Empty? ==> forall tag: nat :: tag < TAGS ==> n.tags[tag][o] == Default(t, tag))
  }

  /** Every node but possibly one is in order. */
  ghost predicate NodesOk(t: Tree, idr: bool, skip: Option<Ref>)
    requires Shape(t)
  {
    forall r {:trigger NodeOk(t, idr, r)} :: r in t.nodes && Some(r) != skip ==> NodeOk(t, idr, r)
  }

  /** An IDR never stores an entry at the head, and uses no tag but IDR_FREE. */
  predicate IdrRoot(t: Tree, idr: bool) {
    |t.rootTags| == TAGS && (idr ==> t.trackFree && !t.head.Item?() && !t.rootTags[1] && !t.rootTags[2])
  }

  /** The invariant, with leave for one leaf whose count has run ahead of its tags. */
  ghost predicate Stable(t: Tree, idr: bool, skip: Option<Ref>) {
    && Shape(t)
    && TagsOk(t)
    && NodesOk(t, idr, skip)
    && IdrRoot(t, idr)
    && (skip.Some? ==> idr && skip.value in t.nodes && skip.value.level == 0)
  }

  ghost predicate Inv(t: Tree, idr: bool) {
    Stable(t, idr, None)
  }

  /** A node that counts nothing holds nothing. */
  lemma ZeroIsBlank(t: Tree, idr: bool, r: Ref)
    requires Shape(t) && TagsOk(t) && r in t.nodes && NodeOk(t, idr, r) && (idr ==> t.trackFree)
    requires t.nodes[r].count == 0
    ensures Blank(t, r)
  {
    assert NodeShape(t, r);
    CntZero(Used(t, idr, r));
    assert forall o: nat :: o < CHUNK ==> !Used(t, idr, r)[o];
    forall o: nat | o < CHUNK
      ensures t.nodes[r].slots[o].Empty?
    {
      assert r.level == 0 ==> LeafOk(t, idr, t.nodes[r], o);
    }
    forall o: nat, tag: nat | o < CHUNK && tag < TAGS
      ensures t.nodes[r].tags[tag][o] == Default(t, tag)
    {
      if r.level > 0 {
        BitDef(t, r, o, tag);
      } else {
        assert LeafOk(t, idr, t.nodes[r], o);
        assert tag == 0 || tag == 1 || tag == 2;
      }
    }
  }

  /** A root that counts one and has something in slot 0 is narrow, except for a leaf of an IDR. */
  lemma OneIsNarrow(t: Tree, idr: bool)
    requires Shape(t) && TagsOk(t) && t.head.Inner? && NodeOk(t, idr, t.head.ref)
    requires NodeShape(t, t.head.ref)
    requires t.nodes[t.head.ref].count == 1 && !t.nodes[t.head.ref].slots[0].Empty?
    requires !(idr && t.head.ref.level == 0)
    ensures Narrow(t)
  {
    var h := t.head.ref;
    CntOne(Used(t, idr, h), 0);
    assert forall o: nat :: 0 < o < CHUNK ==> !Used(t, idr, h)[o];
    if h.level == 0 {
      forall o: nat, tag: nat | 0 < o < CHUNK && tag < TAGS
        ensures t.nodes[h].tags[tag][o] == Default(t, tag)
      {
        assert LeafOk(t, idr, t.nodes[h], o);
      }
    }
  }

  // ----- the structural steps keep every node in order

  lemma SameNodeOk(t: Tree, u: Tree, idr: bool, r: Ref)
    requires Shape(t) && Shape(u) && r in t.nodes && r in u.nodes && t.trackFree == u.trackFree
    requires t.nodes[r].(parent := None) == u.nodes[r].(parent := None)
    requires NodeOk(t, idr, r)
    ensures NodeOk(u, idr, r)
  {
    assert NodeShape(t, r) && NodeShape(u, r);
    if r.level == 0 {
      forall o: nat | o < CHUNK
        ensures LeafOk(u, idr, u.nodes[r], o)
      {
        assert LeafOk(t, idr, t.nodes[r], o);
      }
    }
  }

  lemma FreshNodeOk(t: Tree, idr: bool, r: Ref)
    requires Shape(t) && r in t.nodes && (idr ==> t.trackFree)
    requires exists o, p :: t.nodes[r] == FreshNode(r.level, o, p, t.trackFree)
    ensures NodeOk(t, idr, r)
  {
    assert NodeShape(t, r);
    CountFresh();
  }

  lemma GrowTopOk(t: Tree, idr: bool)
    requires Inv(t, idr) && !t.head.Empty? && Shape(Grow(t))
    ensures NodeOk(Grow(t), idr, NewTop(t.head))
  {
    var u, r := Grow(t), NewTop(t.head);
    assert NodeShape(u, r);
    CountFresh();
    CountSet(NoSlots(), 0, t.head);
    if r.level == 0 {
      assert forall o: nat :: o < CHUNK ==> LeafOk(u, idr, u.nodes[r], o);
    }
  }

  /** t can grow a root: an IDR never has an entry at its head to move down. */
  lemma GrowInv(t: Tree, idr: bool)
    requires Inv(t, idr) && !t.head.Empty? && NewTop(t.head).level < LEVELS
    ensures NewTop(t.head) !in t.nodes
    ensures Inv(Grow(t), idr) && SameContents(t, Grow(t))
  {
    GrowShape(t);
    GrowTags(t);
    GrowContents(t);
    var u, r := Grow(t), NewTop(t.head);
    forall s | s in u.nodes
      ensures NodeOk(u, idr, s)
    {
      if s == r {
        GrowTopOk(t, idr);
      } else {
        assert NodeOk(t, idr, s);
        SameNodeOk(t, u, idr, s);
      }
    }
  }

  lemma ShrinkInv(t: Tree, idr: bool, skip: Option<Ref>)
    requires Shape(t) && TagsOk(t) && NodesOk(t, idr, skip) && t.head.Inner? && Narrow(t)
    ensures NodeShape(t, t.head.ref)
    ensures t.nodes[t.head.ref].slots[0].Inner? ==> t.nodes[t.head.ref].slots[0].ref in t.nodes
    ensures Shape(Shrink(t)) && TagsOk(Shrink(t)) && NodesOk(Shrink(t), idr, skip) && SameContents(t, Shrink(t))
  {
    ShrinkShape(t);
    ShrinkTags(t);
    ShrinkContents(t);
    var u := Shrink(t);
    forall s | s in u.nodes && Some(s) != skip
      ensures NodeOk(u, idr, s)
    {
      assert NodeOk(t, idr, s);
      SameNodeOk(t, u, idr, s);
    }
  }

  lemma AddTopInv(t: Tree, idr: bool, level: nat)
    requires Inv(t, idr) && t.head.Empty? && level < LEVELS
    ensures Ref(level, 0) !in t.nodes
    ensures Inv(AddTop(t, level), idr) && SameContents(t, AddTop(t, level))
  {
    AddTopOk(t, level);
    EmptyTree(t);
    var u, r := AddTop(t, level), Ref(level, 0);
    assert u.nodes[r] == FreshNode(r.level, 0, None, u.trackFree);
    FreshNodeOk(u, idr, r);
  }

  lemma AddChildInv(t: Tree, idr: bool, r: Ref, o: nat)
    requires Inv(t, idr) && r in t.nodes && r.level > 0 && o < CHUNK
    requires NodeShape(t, r) && t.nodes[r].slots[o].Empty?
    ensures Child(r, o) !in t.nodes
    ensures Inv(AddChild(t, r, o), idr) && SameContents(t, AddChild(t, r, o))
  {
    AddChildShape(t, r, o);
    AddChildTags(t, r, o);
    AddChildContents(t, r, o);
    var u, c := AddChild(t, r, o), Child(r, o);
    forall s | s in u.nodes
      ensures NodeOk(u, idr, s)
    {
      if s == c {
        assert u.nodes[c] == FreshNode(c.level, o, Some(r), u.trackFree);
        FreshNodeOk(u, idr, c);
      } else if s == r {
        assert NodeOk(t, idr, r) && NodeShape(u, r);
        CountSet(t.nodes[r].slots, o, Inner(c));
      } else {
        assert NodeOk(t, idr, s);
        SameNodeOk(t, u, idr, s);
      }
    }
  }

  lemma DropInv(t: Tree, idr: bool, r: Ref, skip: Option<Ref>)
    requires Shape(t) && TagsOk(t) && NodesOk(t, idr, skip) && r in t.nodes && Blank(t, r)
    requires skip == None || skip == Some(r)
    ensures NodeShape(t, r) && (t.head != Inner(r) ==> Up(r) in t.nodes && NodeShape(t, Up(r)))
    ensures Shape(DropNode(t, r)) && TagsOk(DropNode(t, r)) && NodesOk(DropNode(t, r), idr, None)
    ensures SameContents(t, DropNode(t, r))
  {
    DropShape(t, r);
    DropTags(t, r);
    DropContents(t, r);
    DropPre(t, r);
    var u := DropNode(t, r);
    forall s | s in u.nodes
      ensures NodeOk(u, idr, s)
    {
      assert NodeOk(t, idr, s);
      if t.head != Inner(r) && s == Up(r) {
        assert NodeShape(u, s);
        CountSet(t.nodes[s].slots, r.block % CHUNK, Empty);
      } else {
        SameNodeOk(t, u, idr, s);
      }
    }
  }
}
