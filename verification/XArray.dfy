/** lib/xarray.c without multi-index entries: the same tree, driven by a cursor (struct xa_state).

    Shifts are kept divided by XA_CHUNK_SHIFT. The flag XA_FLAGS_ZERO_BUSY is off. The marks of an
    index are its tags; with trackFree (XA_FLAGS_TRACK_FREE) mark 0 is XA_FREE_MARK. */
module XArray {
  import opened Wrappers
  import opened Digits
  import opened TreeState
  import opened TreeSteps
  import opened TreeCounts
  import opened TreeTags
  import opened TreeWalk
  import opened TreeFree
  import opened Bits

  datatype Errno = ENOMEM | EBUSY | EINVAL

  /** xa_node: XAS_RESTART, XAS_BOUNDS, an error, NULL (the head), or a node. */
  datatype Position = Restart | Bounds | Failed(err: Errno) | Head | In(ref: Ref)
  {
    /** xas_invalid. */
    predicate Invalid?() { Restart? || Bounds? || Failed? }

    /** xas_top. */
    predicate Top?() { Restart? || Bounds? || Head? }

    function Node(): Option<Ref> { if In? then Some(ref) else None }
  }

  /** In an allocating array the free mark is set exactly where nothing is stored. */
  ghost predicate Tracking(t: Tree)
    requires Shape(t)
  {
    t.trackFree ==> forall i: nat {:trigger Get(t, i)} :: TagAt(t, i, 0) <==> Get(t, i).Empty?
  }

  class XArray {
    var head: Entry             // xa_head
    var rootTags: seq<bool>     // the mark bits of xa_flags
    var nodes: map<Ref, Node>   // node memory
    const trackFree: bool
    var quick: nat              // how many node allocations under the lock succeed before one fails
    var slow: nat               // and how many of those that may wait; any numbers between calls

    ghost function View(): (t: Tree)
      reads this
    {
      Tree(head, rootTags, nodes, trackFree)
    }

    ghost predicate Valid()
      reads this
    {
      Inv(View(), false)
    }

    /** xa_init_flags: nothing is stored and, with XA_FLAGS_ALLOC, XA_FREE_MARK is set. */
    constructor (track: bool)
      ensures Valid() && trackFree == track && head.Empty?
      ensures forall i: nat :: Get(View(), i).Empty?
      ensures forall i: nat, mark: nat :: mark < TAGS ==> TagAt(View(), i, mark) == Default(View(), mark)
      ensures Tracking(View())
    {
      head := Empty;
      rootTags := [track, false, false];
      nodes := map[];
      trackFree := track;
      new;
      assert RootOk(View(), 0) && RootOk(View(), 1) && RootOk(View(), 2);
    }

    // ----- structure

    /** One round of xas_expand: a fresh node above the head, with the root's marks. */
    method PushRoot(level: nat)
      requires Valid() && !head.Empty? && NewTop(head).level == level && NewTop(head) !in nodes
      modifies this`head, this`rootTags, this`nodes
      ensures View() == Grow(old(View())) && |nodes| == |old(nodes)| + 1
    {
      ghost var t := View();
      var node := Ref(level, 0);
      var values := if head.Value? then 1 else 0;
      var marks := [Filled(false), Filled(false), Filled(false)];
      var mark := 0;
      while mark < TAGS
        invariant mark <= TAGS && |marks| == TAGS && head == t.head && nodes == t.nodes
        invariant rootTags == if trackFree && mark > 0 then t.rootTags[0 := true] else t.rootTags
        invariant forall g: nat :: g < TAGS ==>
                    marks[g] == if g < mark then Filled(Default(t, g))[0 := t.rootTags[g]] else Filled(false)
      {
        assert Filled(false)[0 := false] == Filled(false) && Filled(true)[0 := true] == Filled(true);
        if trackFree && mark == 0 {
          marks := marks[0 := Filled(true)];
          if !rootTags[0] {
            marks := marks[0 := marks[0][0 := false]];
            rootTags := rootTags[0 := true];
          }
          assert rootTags == t.rootTags[0 := true];
        } else if rootTags[mark] {
          marks := marks[mark := marks[mark][0 := true]];
        }
        mark := mark + 1;
      }
      assert marks == GrownTags(t);
      if head.Inner? {
        assert NodeShape(t, head.ref);
        nodes := nodes[head.ref := nodes[head.ref].(parent := Some(node))];
      }
      nodes := nodes[node := Node(level, 0, 1, values, None, NoSlots()[0 := head], marks)];
      head := Inner(node);
      assert View() == Grow(t);
    }

    /** One round of xas_shrink: slot 0 of the root becomes the head. */
    method PopRoot()
      requires Valid() && head.Inner? && Narrow(View()) && NodeShape(View(), head.ref)
      modifies this`head, this`rootTags, this`nodes
      ensures Valid() && SameContents(old(View()), View()) && head == old(nodes[head.ref].slots[0])
      ensures nodes.Keys == old(nodes.Keys) - {old(head.ref)}
      ensures head.Inner? ==> head.ref.level < old(head.ref).level
      ensures !head.Empty?
    {
      ghost var t := View();
      HeadChild(t);
      ShrinkInv(t, false, None);
      var node := head.ref;
      var child := nodes[node].slots[0];
      var free := nodes[node].tags[0][0];
      if child.Inner? {
        nodes := nodes[child.ref := nodes[child.ref].(parent := None)];
      }
      head := child;
      if trackFree && !free {
        rootTags := rootTags[0 := false];
      }
      nodes := nodes - {node};
      assert View() == Shrink(t);
    }

    /** One round of xas_delete_node: node r, which counts nothing, leaves its parent's slot, or the
        head, and is freed. */
    method Unlink(r: Ref) returns (parent: Option<Ref>)
      requires Valid() && r in nodes && nodes[r].count == 0
      modifies this`head, this`nodes
      ensures Valid() && SameContents(old(View()), View())
      ensures nodes.Keys == old(nodes.Keys) - {r}
      ensures if parent.Some? then parent.value == Up(r) && Up(r) in nodes && head == old(head) else head.Empty?
      ensures parent.Some? ==> r.block % CHUNK == old(nodes[r]).offset
    {
      ghost var t := View();
      assert NodeOk(t, false, r);
      ZeroIsBlank(t, false, r);
      DropInv(t, false, r, None);
      DropPre(t, r);
      parent := nodes[r].parent;
      if parent.Some? {
        var p := nodes[parent.value];
        nodes := nodes[parent.value := p.(slots := p.slots[nodes[r].offset := Empty], count := p.count - 1)];
      } else {
        head := Empty;
      }
      nodes := nodes - {r};
      assert View() == DropNode(t, r);
    }

    /** Link a fresh node of the given level over index, in the empty slot where the walk stands
        (xas_alloc and the store to *slot that follows it). */
    method LinkFresh(index: nat, level: nat, node: Option<Ref>, offset: nat)
      requires Valid() && level < LEVELS && Walked(View(), index, node, offset, level + 1)
      requires node == None ==> head.Empty?
      requires node.Some? ==> nodes[node.value].slots[offset].Empty?
      modifies this`head, this`nodes
      ensures Valid() && SameContents(old(View()), View()) && |nodes| == |old(nodes)| + 1
      ensures Walked(View(), index, node, offset, level + 1)
      ensures if node == None then head == Inner(At(index, level))
              else head == old(head) && nodes[node.value].slots[offset] == Inner(At(index, level))
      ensures At(index, level) !in old(nodes) && nodes.Keys == old(nodes.Keys) + {At(index, level)}
    {
      ghost var t := View();
      var r := At(index, level);
      if node == None {
        AddTopInv(t, false, level);
        nodes := nodes[r := FreshNode(level, 0, None, trackFree)];
        head := Inner(r);
      } else {
        AddChildInv(t, false, node.value, offset);
        UpAt(index, level + 1);
        var p := nodes[node.value];
        nodes := nodes[node.value := p.(slots := p.slots[offset := Inner(r)], count := p.count + 1)]
                      [r := FreshNode(level, offset, node, trackFree)];
        assert View() == AddChild(t, node.value, offset);
        assert NodeShape(View(), node.value);
      }
    }

    // ----- marks

    /** node_set_mark, node_clear_mark. */
    method WriteMark(r: Ref, mark: nat, o: nat, b: bool)
      requires r in nodes && mark < |nodes[r].tags| && o < |nodes[r].tags[mark]|
      modifies this`nodes
      ensures View() == PutBit(old(View()), r, o, mark, b)
    {
      var x := nodes[r];
      nodes := nodes[r := x.(tags := x.tags[mark := x.tags[mark][o := b]])];
    }

    /** xas_set_mark, on the slot (node, offset) of index i. */
    method SetMarkUp(node: Option<Ref>, mark: nat, offset: nat, ghost i: nat)
      requires Shape(View()) && TagsOk(View()) && SlotOf(View(), i, node, offset) && mark < TAGS
      requires node == None ==> head.Item?()
      modifies this`rootTags, this`nodes
      ensures Shape(View()) && TagsOk(View()) && Marked(old(View()), View(), i, mark, true)
    {
      ClimbStart(View(), mark, node, offset, i, true);
      var n: Option<Ref>, o: nat := node, offset;
      while n.Some?
        invariant Climb(old(View()), View(), mark, n, o, i, true)
        decreases if n.Some? && head.Inner? then head.ref.level - n.value.level + 1 else 0
      {
        var r := n.value;
        assert NodeShape(View(), r);
        var x := nodes[r];
        if x.tags[mark][o] {
          ClimbStop(old(View()), View(), mark, r, o, i, true);
          return;
        }
        ClimbStep(old(View()), View(), mark, r, o, i, true);
        WriteMark(r, mark, o, true);
        o, n := x.offset, x.parent;
      }
      ClimbRoot(old(View()), View(), mark, o, i, true);
      if !rootTags[mark] {
        rootTags := rootTags[mark := true];
      }
      assert rootTags == rootTags[mark := true];
    }

    /** xas_clear_mark, on the slot (node, offset) of index i. */
    method ClearMarkUp(node: Option<Ref>, mark: nat, offset: nat, ghost i: nat)
      requires Shape(View()) && TagsOk(View()) && SlotOf(View(), i, node, offset) && mark < TAGS
      requires node == None ==> head.Item?()
      modifies this`rootTags, this`nodes
      ensures Shape(View()) && TagsOk(View()) && Marked(old(View()), View(), i, mark, false)
    {
      ClimbStart(View(), mark, node, offset, i, false);
      var n: Option<Ref>, o: nat := node, offset;
      while n.Some?
        invariant Climb(old(View()), View(), mark, n, o, i, false)
        decreases if n.Some? && head.Inner? then head.ref.level - n.value.level + 1 else 0
      {
        var r := n.value;
        assert NodeShape(View(), r);
        var x := nodes[r];
        if !x.tags[mark][o] {
          ClimbStop(old(View()), View(), mark, r, o, i, false);
          return;
        }
        ClimbStep(old(View()), View(), mark, r, o, i, false);
        WriteMark(r, mark, o, false);
        if true in nodes[r].tags[mark] {
          return;
        }
        o, n := x.offset, x.parent;
      }
      ClimbRoot(old(View()), View(), mark, o, i, false);
      if rootTags[mark] {
        rootTags := rootTags[mark := false];
      }
      assert rootTags == rootTags[mark := false];
    }

    // ----- freeing the array

    /** From the end of node c to the slot after it, freeing it. live is the set of nodes not yet freed;
        None means that c was the root's. */
    method FreeOne(c: Ref, top: Ref, ghost t: Tree, ghost live0: set<Ref>, ghost log0: seq<Ref>)
      returns (node: Option<Ref>, offset: nat, ghost live: set<Ref>, ghost log: seq<Ref>)
      requires Shape(t) && t.head == Inner(top) && Walk(t, live0, c, CHUNK, log0) && Digging(t, nodes, live0, c, CHUNK)
      modifies this`nodes
      ensures node == None ==> live == {} && AllFreed(t, log) && Digging(t, nodes, {}, top, CHUNK)
      ensures node.Some? ==> Walk(t, live, node.value, offset, log) && Digging(t, nodes, live, node.value, offset) && live < live0
    {
      live, log := WalkUp(t, live0, c, log0);
      DigFree(t, nodes, live0, c);
      node, offset := nodes[c].parent, nodes[c].offset + 1;
      nodes := nodes[c := nodes[c].(count := 0, nrValues := 0)];
      if c == top { return None, offset, live, log; }
      DigMove(t, nodes, live, c, CHUNK, node.value, offset);
    }

    /** The inner loop of xas_free_nodes: from the end of a node up its parent links. live is the set of
        nodes not yet freed; None means that the root's node was freed. */
    method FreeUp(node0: Ref, offset0: nat, top: Ref, ghost t: Tree, ghost live0: set<Ref>, ghost log0: seq<Ref>)
      returns (node: Option<Ref>, offset: nat, ghost live: set<Ref>, ghost log: seq<Ref>)
      requires Shape(t) && t.head.Inner? && Walk(t, live0, node0, offset0, log0) && t.head == Inner(top) && Digging(t, nodes, live0, node0, offset0)
      modifies this`nodes
      ensures node == None ==> live == {} && AllFreed(t, log) && Digging(t, nodes, {}, top, CHUNK)
      ensures node.Some? ==>
                && Walk(t, live, node.value, offset, log) && Digging(t, nodes, live, node.value, offset) && offset < CHUNK
                && (live < live0 || (live == live0 && node.value == node0 && offset == offset0))
    {
      node, offset, live, log := Some(node0), offset0, live0, log0;
      while offset == CHUNK
        invariant node.Some? && Walk(t, live, node.value, offset, log) && Digging(t, nodes, live, node.value, offset)
        invariant live < live0 || (live == live0 && node.value == node0 && offset == offset0)
        decreases live
      {
        node, offset, live, log := FreeOne(node.value, top, t, live, log);
        if node == None { return; }
      }
    }

    /** xas_free_nodes on the node that was the root's, now cut off. Only nodes not yet freed are
        written to; log is the order in which they were freed. */
    method FreeNodes(top: Ref, ghost t: Tree) returns (ghost log: seq<Ref>)
      requires Shape(t) && t.head == Inner(top) && nodes == t.nodes
      modifies this`nodes
      ensures AllFreed(t, log)
      ensures nodes.Keys == t.nodes.Keys && forall r :: r in nodes ==> nodes[r] == Buried(t.nodes[r])
    {
      var node: Ref, offset: nat := top, 0;
      ghost var live := t.nodes.Keys;
      log := [];
      WalkStart(t);
      DigStart(t);
      while true
        invariant Walk(t, live, node, offset, log) && offset < CHUNK && Digging(t, nodes, live, node, offset)
        decreases live, Ahead(top, node, offset), node.level
      {
        node, offset := Visit(node, offset, t, live, log);
        var next;
        next, offset, live, log := FreeUp(node, offset, top, t, live, log);
        if next == None { return; }
        node := next.value;
      }
    }

    /** One slot: down into a node, or the slot is cleared and left behind. */
    method Visit(node: Ref, offset: nat, ghost t: Tree, ghost live: set<Ref>, ghost log: seq<Ref>) returns (next: Ref, o: nat)
      requires Shape(t) && t.head.Inner? && Walk(t, live, node, offset, log) && offset < CHUNK && Digging(t, nodes, live, node, offset)
      modifies this`nodes
      ensures Walk(t, live, next, o, log) && Digging(t, nodes, live, next, o)
      ensures var was, now := Ahead(t.head.ref, node, offset), Ahead(t.head.ref, next, o);
        now < was || (now == was && next.level < node.level)
    {
      WalkHere(t, live, node, offset, log);
      DigNext(t, nodes, live, node, offset);
      var entry := nodes[node].slots[offset];
      if nodes[node].level > 0 && entry.Inner? {
        WalkInto(t, live, node, offset, log);
        DigMove(t, nodes, live, node, offset, entry.ref, 0);
        return entry.ref, 0;
      }
      WalkOn(t, live, node, offset, log);
      if !entry.Empty? {
        nodes := nodes[node := nodes[node].(slots := nodes[node].slots[offset := Retry])];
      }
      WalkHere(t, live, node, offset + 1, log);
      return node, offset + 1;
    }

    /** xa_destroy. buried is what is left in the memory of the nodes, for walkers still in there. */
    method Destroy() returns (ghost log: seq<Ref>, ghost buried: map<Ref, Node>)
      requires Valid()
      modifies this
      ensures Valid() && nodes == map[] && head.Empty?
      ensures forall i: nat :: Get(View(), i).Empty?
      ensures forall i: nat, mark: nat :: mark < TAGS ==> TagAt(View(), i, mark) == Default(View(), mark)
      ensures Tracking(View()) && AllFreed(old(View()), log)
      ensures buried.Keys == old(nodes.Keys) && forall r :: r in buried ==> buried[r] == Buried(old(nodes)[r])
    {
      ghost var t := View();
      var entry := head;
      head := Empty;
      var mark := 0;
      while mark < TAGS
        invariant mark <= TAGS && |rootTags| == TAGS && head == Empty && nodes == t.nodes
        invariant forall g: nat :: g < mark ==> rootTags[g] == Default(t, g)
      {
        rootTags := rootTags[mark := trackFree && mark == 0];
        mark := mark + 1;
      }
      log := [];
      if entry.Inner? {
        log := FreeNodes(entry.ref, t);
      } else {
        EmptyTree(t);
      }
      buried := nodes;
      nodes := map[];
      assert RootOk(View(), 0) && RootOk(View(), 1) && RootOk(View(), 2);
    }
  }
}
