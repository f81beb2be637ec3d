/** lib/radix-tree.c: the variable-height tree, as a plain index and as the tree under an IDR.

    Shifts are kept divided by RADIX_TREE_MAP_SHIFT, so `levels` stands for a shift of
    4 * levels. */
module RadixTree {
  import opened Wrappers
  import opened Digits
  import opened TreeState
  import opened TreeSteps
  import opened TreeCounts
  import opened TreeTags
  import opened TreeWalk
  import opened TreeSearch
  import opened TreeFree
  import opened Bits

  datatype FreeResult = Found(index: nat, node: Ref, offset: nat) | NoSpace | NoMem

  datatype WalkResult = Landed(node: Ref, offset: nat) | Above | Full | OutOfMemory

  datatype InsertResult = Inserted | Exists | NoMemory

  class Root {
    var head: Entry             // xa_head
    var rootTags: seq<bool>     // the tag bits of xa_flags
    var nodes: map<Ref, Node>   // node memory
    var spare: nat              // how many node allocations succeed before one fails; any number between calls
    const idr: bool             // ROOT_IS_IDR
    const lowest: bool          // whether __ffs() finds the lowest set bit, as its callers expect

    ghost function View(): (t: Tree)
      reads this
    {
      Tree(head, rootTags, nodes, idr)
    }

    ghost predicate Valid()
      reads this
    {
      Inv(View(), idr)
    }

    /** RADIX_TREE_INIT, IDR_INIT: an IDR starts with IDR_FREE set on its root. */
    constructor (isIdr: bool, lowestFfs: bool)
      ensures Valid() && idr == isIdr && lowest == lowestFfs
      ensures forall i: nat :: Get(View(), i).Empty?
      ensures forall i: nat, tag: nat :: tag < TAGS ==> TagAt(View(), i, tag) == (isIdr && tag == 0)
    {
      head := Empty;
      rootTags := [isIdr, false, false];
      nodes := map[];
      idr := isIdr;
      lowest := lowestFfs;
      new;
      assert RootOk(View(), 0) && RootOk(View(), 1) && RootOk(View(), 2);
    }

    /** radix_tree_node_alloc, less what is put into the node. */
    method NodeAlloc() returns (ok: bool)
      modifies this`spare
      ensures ok <==> old(spare) > 0
      ensures spare == if ok then old(spare) - 1 else 0
    {
      ok := spare > 0;
      if ok { spare := spare - 1; }
    }

    // ----- growing and shrinking

    /** One round of radix_tree_extend: a fresh node above the head. */
    method PushRoot(shift: nat)
      requires Valid() && !head.Empty? && NewTop(head).level == shift && NewTop(head) !in nodes
      modifies this`head, this`rootTags, this`nodes
      ensures View() == Grow(old(View())) && |nodes| == |old(nodes)| + 1 && old(nodes.Keys) <= nodes.Keys
    {
      ghost var t := View();
      var node := Ref(shift, 0);
      var tags := [Filled(false), Filled(false), Filled(false)];
      if idr {
        tags := tags[0 := Filled(true)];
        if !rootTags[0] {
          tags := tags[0 := tags[0][0 := false]];
          rootTags := rootTags[0 := true];
        }
      } else {
        var tag := 0;
        while tag < TAGS
          invariant tag <= TAGS && |tags| == TAGS && rootTags == t.rootTags
          invariant forall g: nat :: g < TAGS ==>
                      tags[g] == if g < tag then Filled(false)[0 := t.rootTags[g]] else Filled(false)
        {
          assert Filled(false)[0 := false] == Filled(false);
          if rootTags[tag] { tags := tags[tag := tags[tag][0 := true]]; }
          tag := tag + 1;
        }
      }
      assert tags == GrownTags(t) by {
        assert Filled(false)[0 := false] == Filled(false) && Filled(true)[0 := true] == Filled(true);
      }
      var values := 0;
      if head.Inner? {
        assert NodeShape(t, head.ref);
        nodes := nodes[head.ref := nodes[head.ref].(parent := Some(node))];
      } else if head.Value? {
        values := 1;
      }
      nodes := nodes[node := Node(shift, 0, 1, values, None, NoSlots()[0 := head], tags)];
      head := Inner(node);
      assert View() == Grow(t);
    }

    /** radix_tree_extend: make room for index. None is -ENOMEM. */
    method Extend(index: nat, levels: nat) returns (res: Option<nat>)
      requires Valid() && MaxIndex(head) < index < WORD
      requires levels == if head.Inner? then head.ref.level + 1 else 0
      modifies this
      ensures Valid() && SameContents(old(View()), View())
      ensures old(head).Empty? ==> res.Some? && View() == old(View())
      ensures !old(head).Empty? ==> !head.Empty?
      ensures res.Some? ==> 0 < res.value <= LEVELS && index < Pow(res.value)
      ensures res.Some? && !old(head).Empty? ==> head.Inner? && head.ref.level + 1 == res.value
      ensures |nodes| + spare == old(|nodes| + spare) && (res == None ==> spare == 0) && old(spare) <= spare + LEVELS
      ensures old(nodes.Keys) <= nodes.Keys
      ensures old(spare) >= LEVELS ==> res.Some?
    {
      if head.Inner? { RoomAbove(index, levels); }
      var maxlevels := HeightFor(index, levels);
      var entry := head;
      assert RootOk(View(), 0);
      if entry.Empty? && (!idr || rootTags[0]) {
        return Some(maxlevels + 1);
      }
      var shift := levels;
      while shift <= maxlevels
        invariant Valid() && SameContents(old(View()), View())
        invariant entry == head && !head.Empty?
        invariant levels <= shift <= maxlevels + 1 && NewTop(head).level == shift
        invariant |nodes| + spare == old(|nodes| + spare) && spare == old(spare) - (shift - levels)
        invariant old(nodes.Keys) <= nodes.Keys
      {
        var ok := NodeAlloc();
        if !ok { return None; }
        GrowInv(View(), idr);
        PushRoot(shift);
        entry := head;
        shift := shift + 1;
      }
      return Some(maxlevels + 1);
    }

    /** The height radix_tree_extend goes for, less one. */
    method HeightFor(index: nat, levels: nat) returns (maxlevels: nat)
      requires index < WORD && levels < LEVELS
      ensures levels <= maxlevels < LEVELS && index < Pow(maxlevels + 1)
    {
      PowWord();
      maxlevels := levels;
      while index > Pow(maxlevels + 1) - 1
        invariant levels <= maxlevels < LEVELS
        decreases LEVELS - maxlevels
      {
        assert maxlevels + 1 != LEVELS;
        maxlevels := maxlevels + 1;
      }
    }

    /** A tree that cannot hold an index is not of full height. */
    lemma RoomAbove(index: nat, levels: nat)
      requires Pow(levels) <= index < WORD
      ensures levels < LEVELS
    {
      PowWord();
      if levels >= LEVELS { PowMono(LEVELS, levels); }
    }

    /** One round of radix_tree_shrink: the root's only child becomes the head. */
    method PopRoot(ghost skip: Option<Ref>)
      requires Stable(View(), idr, skip) && head.Inner? && Narrow(View()) && !(idr && head.ref.level == 0)
      modifies this
      ensures Stable(View(), idr, skip) && SameContents(old(View()), View())
      ensures nodes.Keys == old(nodes.Keys) - {old(head.ref)}
      ensures forall r :: r in nodes ==> nodes[r].count == old(nodes)[r].count
      ensures head.Inner? ==> head.ref.level < old(head.ref).level
      ensures skip.Some? ==> nodes[skip.value].(parent := None) == old(nodes[skip.value]).(parent := None)
    {
      ghost var t := View();
      HeadChild(t);
      ShrinkInv(t, idr, skip);
      var node := head.ref;
      var child := nodes[node].slots[0];
      var free := nodes[node].tags[0][0];
      if child.Inner? {
        nodes := nodes[child.ref := nodes[child.ref].(parent := None)];
      }
      head := child;
      if idr && !free {
        rootTags := rootTags[0 := false];
      }
      nodes := nodes - {node};
      assert View() == Shrink(t);
    }

    /** The root is needed: it counts more than one, or its one entry is not in slot 0, or it is a leaf
        of an IDR. */
    ghost predicate Lowest()
      reads this
    {
      head.Inner? ==>
        && head.ref in nodes && |nodes[head.ref].slots| == CHUNK
        && (nodes[head.ref].count != 1 || nodes[head.ref].slots[0].Empty? || (idr && head.ref.level == 0))
    }

    /** radix_tree_shrink. */
    method ShrinkTree(ghost skip: Option<Ref>) returns (shrunk: bool)
      requires Stable(View(), idr, skip)
      modifies this
      ensures Stable(View(), idr, skip) && SameContents(old(View()), View()) && Lowest()
      ensures nodes.Keys <= old(nodes.Keys) && forall r :: r in nodes ==> nodes[r].count == old(nodes)[r].count
      ensures skip.Some? ==> nodes[skip.value].(parent := None) == old(nodes[skip.value]).(parent := None)
    {
      shrunk := false;
      while true
        invariant Stable(View(), idr, skip) && SameContents(old(View()), View())
        invariant nodes.Keys <= old(nodes.Keys) && forall r :: r in nodes ==> nodes[r].count == old(nodes)[r].count
        invariant skip.Some? ==> nodes[skip.value].(parent := None) == old(nodes[skip.value]).(parent := None)
        decreases if head.Inner? then head.ref.level + 1 else 0
      {
        if !head.Inner? { break; }
        var node := head.ref;
        HeadChild(View());
        if nodes[node].count != 1 { break; }
        var child := nodes[node].slots[0];
        if child.Empty? { break; }
        if node.level == 0 && idr { break; }
        assert NodeOk(View(), idr, node);
        OneIsNarrow(View(), idr);
        PopRoot(skip);
        shrunk := true;
      }
    }

    /** Node r, which counts nothing, leaves its parent's slot, or the head, and is freed. */
    method Unlink(r: Ref) returns (parent: Option<Ref>)
      requires Valid() && r in nodes && nodes[r].count == 0
      modifies this
      ensures Valid() && SameContents(old(View()), View())
      ensures nodes.Keys == old(nodes.Keys) - {r}
      ensures if parent.Some? then parent.value == Up(r) && Up(r) in nodes else nodes == map[]
    {
      ghost var t := View();
      assert NodeOk(t, idr, r);
      ZeroIsBlank(t, idr, r);
      DropInv(t, idr, r, None);
      DropPre(t, r);
      parent := nodes[r].parent;
      if parent.Some? {
        var p := nodes[parent.value];
        nodes := nodes[parent.value := p.(slots := p.slots[nodes[r].offset := Empty], count := p.count - 1)];
      } else {
        assert RootOk(DropNode(t, r), 0) && RootOk(DropNode(t, r), 1) && RootOk(DropNode(t, r), 2);
        if !idr { rootTags := [false, false, false]; }
        head := Empty;
      }
      nodes := nodes - {r};
      assert View() == DropNode(t, r);
      if head.Empty? { EmptyTree(View()); }
    }

    /** delete_node: drop node if it counts nothing, then its parents, then lower the tree. */
    method DeleteNode(node: Ref, ghost skip: Option<Ref>) returns (deleted: bool)
      requires Stable(View(), idr, skip) && node in nodes
      requires skip.Some? ==> skip.value == node && nodes[node].count > 0
      modifies this
      ensures Stable(View(), idr, skip) && SameContents(old(View()), View())
      ensures skip.Some? ==> nodes[node].(parent := None) == old(nodes[node]).(parent := None)
      ensures old(nodes[node]).count == 0 ==> deleted && node !in nodes
      ensures old(nodes[node]).count == 0 && Up(node) in nodes ==> nodes[Up(node)].count != 0
      ensures old(nodes[node]).count != 0 && old(head) == Inner(node) ==> Lowest()
    {
      deleted := false;
      var cur := Some(node);
      while cur.Some?
        invariant Stable(View(), idr, skip) && SameContents(old(View()), View())
        invariant cur.Some? ==> cur.value in nodes
        invariant cur != Some(node) ==> deleted && node !in nodes && skip == None
        invariant cur != Some(node) && cur != Some(Up(node)) ==> Up(node) !in nodes
        invariant old(nodes[node]).count != 0 ==> cur == Some(node)
        invariant cur == Some(node) ==> View() == old(View())
        decreases |nodes.Keys|
      {
        var r := cur.value;
        if nodes[r].count != 0 {
          if head == Inner(r) {
            var shrunk := ShrinkTree(skip);
            deleted := deleted || shrunk;
          }
          return;
        }
        ghost var keys := nodes.Keys;
        cur := Unlink(r);
        assert keys == nodes.Keys + {r};
        deleted := true;
      }
    }

    // ----- tags

    /** tag_set, tag_clear. */
    method WriteTag(r: Ref, tag: nat, o: nat, b: bool)
      requires r in nodes && tag < |nodes[r].tags| && o < |nodes[r].tags[tag]|
      modifies this`nodes
      ensures View() == PutBit(old(View()), r, o, tag, b)
    {
      var x := nodes[r];
      nodes := nodes[r := x.(tags := x.tags[tag := x.tags[tag][o := b]])];
    }

    /** node_tag_set: set the tag of index i, whose slot is (node, offset), and of all above it. */
    method NodeTagSet(node: Option<Ref>, tag: nat, offset: nat, ghost i: nat)
      requires Shape(View()) && TagsOk(View()) && SlotOf(View(), i, node, offset) && tag < TAGS
      requires node == None ==> head.Item?()
      modifies this
      ensures Shape(View()) && TagsOk(View()) && Marked(old(View()), View(), i, tag, true)
    {
      ClimbStart(View(), tag, node, offset, i, true);
      var n: Option<Ref>, o: nat := node, offset;
      while n.Some?
        invariant Climb(old(View()), View(), tag, n, o, i, true)
        decreases if n.Some? && head.Inner? then head.ref.level - n.value.level + 1 else 0
      {
        var r := n.value;
        assert NodeShape(View(), r);
        var x := nodes[r];
        if x.tags[tag][o] {
          ClimbStop(old(View()), View(), tag, r, o, i, true);
          return;
        }
        ClimbStep(old(View()), View(), tag, r, o, i, true);
        WriteTag(r, tag, o, true);
        o, n := x.offset, x.parent;
      }
      ClimbRoot(old(View()), View(), tag, o, i, true);
      if !rootTags[tag] {
        rootTags := rootTags[tag := true];
      }
      assert rootTags == rootTags[tag := true];
    }

    /** node_tag_clear: clear the tag of index i and of every node above it that has none left. */
    method NodeTagClear(node: Option<Ref>, tag: nat, offset: nat, ghost i: nat)
      requires Shape(View()) && TagsOk(View()) && SlotOf(View(), i, node, offset) && tag < TAGS
      requires node == None ==> head.Item?()
      modifies this
      ensures Shape(View()) && TagsOk(View()) && Marked(old(View()), View(), i, tag, false)
    {
      ClimbStart(View(), tag, node, offset, i, false);
      var n: Option<Ref>, o: nat := node, offset;
      while n.Some?
        invariant Climb(old(View()), View(), tag, n, o, i, false)
        decreases if n.Some? && head.Inner? then head.ref.level - n.value.level + 1 else 0
      {
        var r := n.value;
        assert NodeShape(View(), r);
        var x := nodes[r];
        if !x.tags[tag][o] {
          ClimbStop(old(View()), View(), tag, r, o, i, false);
          return;
        }
        ClimbStep(old(View()), View(), tag, r, o, i, false);
        WriteTag(r, tag, o, false);
        if true in nodes[r].tags[tag] {
          return;
        }
        o, n := x.offset, x.parent;
      }
      ClimbRoot(old(View()), View(), tag, o, i, false);
      if rootTags[tag] {
        rootTags := rootTags[tag := false];
      }
      assert rootTags == rootTags[tag := false];
    }

    // ----- finding and making a slot

    /** __radix_tree_lookup. found is whether a slot was reported at all; a slot above the leaves
        is reported when it is empty. RADIX_TREE_RETRY is only ever written to freed nodes, so
        the walk never restarts. */
    method LookupSlot(index: nat) returns (entry: Entry, found: bool, node: Option<Ref>, offset: nat)
      requires Valid()
      ensures entry == Get(View(), index)
      ensures found <==> index <= MaxIndex(head)
      ensures found ==> ReachedSlot(View(), index, node, offset) && SlotEntry(View(), node, offset) == entry
    {
      node, offset, entry := None, 0, head;
      var maxindex := MaxIndex(head);
      if index > maxindex {
        if head.Inner? && At(index, 0) in nodes { LeafInRange(View(), index); }
        return Empty, false, None, 0;
      }
      found := true;
      if head.Inner? { HeadCovers(View(), index); }
      while entry.Inner?
        invariant node == None ==> entry == head && (head.Inner? || index == 0)
        invariant node.Some? ==> node.value in nodes && node.value.level > 0 && NodeShape(View(), node.value)
                                 && node.value == At(index, node.value.level) && offset == Digit(index, node.value.level)
                                 && SlotEntry(View(), node, offset) == entry
        invariant entry.Inner? ==> entry.ref in nodes && entry.ref == At(index, entry.ref.level)
        decreases if entry.Inner? then entry.ref.level + 1 else 0
      {
        node := Some(entry.ref);
        assert NodeShape(View(), entry.ref);
        offset := Digit(index, entry.ref.level);
        entry := nodes[entry.ref].slots[offset];
        if node.value.level == 0 { break; }
        UpAt(index, node.value.level);
      }
      if node.Some? && node.value.level > 0 {
        BlockSplit(index, node.value.level);
        NoLeafBelow(View(), node.value, offset, index);
      }
    }

    /** radix_tree_lookup. */
    method Lookup(index: nat) returns (entry: Entry)
      requires Valid()
      ensures entry == Get(View(), index)
    {
      var found, node, offset;
      entry, found, node, offset := LookupSlot(index);
    }

    /** Link a fresh node of the given level over index, in the empty slot where the walk stands. */
    method LinkFresh(index: nat, level: nat, node: Option<Ref>, offset: nat)
      requires Valid() && level < LEVELS && Walked(View(), index, node, offset, level + 1)
      requires node == None ==> head.Empty?
      requires node.Some? ==> nodes[node.value].slots[offset].Empty?
      modifies this`head, this`nodes
      ensures Valid() && SameContents(old(View()), View()) && |nodes| == |old(nodes)| + 1 && old(nodes.Keys) <= nodes.Keys
      ensures Walked(View(), index, node, offset, level + 1)
      ensures if node == None then head == Inner(At(index, level))
              else head == old(head) && nodes[node.value].slots[offset] == Inner(At(index, level))
    {
      ghost var t := View();
      var r := At(index, level);
      NoLeafThere(t, index, node, offset, level);
      if node == None {
        AddTopInv(t, idr, level);
        nodes := nodes[r := FreshNode(level, 0, None, idr)];
        head := Inner(r);
      } else {
        AddChildInv(t, idr, node.value, offset);
        var p := nodes[node.value];
        nodes := nodes[node.value := p.(slots := p.slots[offset := Inner(r)], count := p.count + 1)]
                      [r := FreshNode(level, offset, node, idr)];
        assert View() == AddChild(t, node.value, offset);
        assert NodeShape(View(), node.value);
      }
    }

    /** One level down towards index: into the child in the slot where the walk stands, or, when
        the slot is empty, into a fresh one. None is a failed allocation. */
    method EnterChild(index: nat, level: nat, node: Option<Ref>, offset: nat) returns (r: Option<Ref>)
      requires Valid() && level < LEVELS && Walked(View(), index, node, offset, level + 1)
      modifies this
      ensures Valid() && SameContents(old(View()), View())
      ensures r.Some? ==> r.value == At(index, level) && Walked(View(), index, r, Digit(index, level), level)
      ensures r.Some? ==> head == if node == None then Inner(r.value) else old(head)
      ensures r == None ==> SlotEntry(old(View()), node, offset).Empty?
      ensures !SlotEntry(old(View()), node, offset).Empty? ==> View() == old(View())
      ensures |nodes| + spare == old(|nodes| + spare) && (if r == None then spare == old(spare) == 0 else old(spare) <= spare + 1)
      ensures old(nodes.Keys) <= nodes.Keys && (r == None ==> At(index, 0) !in nodes)
    {
      var child := if node == None then head else nodes[node.value].slots[offset];
      NoLeafThere(View(), index, node, offset, level);
      if child.Empty? {
        var ok := NodeAlloc();
        if !ok { return None; }
        LinkFresh(index, level, node, offset);
        child := Inner(At(index, level));
      }
      assert child.Inner? by { assert node.Some? ==> NodeShape(View(), node.value); }
      WalkDown(View(), index, node, offset, level);
      r := Some(child.ref);
    }

    /** __radix_tree_create: the slot for index, made if necessary. Not ok is -ENOMEM. */
    method Create(index: nat) returns (ok: bool, node: Option<Ref>, offset: nat)
      requires Valid() && !idr && index < WORD
      modifies this
      ensures Valid() && SameContents(old(View()), View())
      ensures ok ==> SlotOf(View(), index, node, offset)
      ensures !Get(old(View()), index).Empty? ==> ok && View() == old(View())
      ensures if old(head.Inner?) then At(index, 0) in old(nodes) ==> ok else index == 0 ==> ok
      ensures |nodes| + spare == old(|nodes| + spare) && (!ok ==> spare == 0)
      ensures old(spare) >= 32 ==> ok
    {
      var levels: nat := if head.Inner? then head.ref.level + 1 else 0;
      if index > MaxIndex(head) {
        NothingBeyond(View(), index);
        if head.Inner? && At(index, 0) in nodes { LeafInRange(View(), index); }
        var res := Extend(index, levels);
        if res == None { return false, None, 0; }
        levels := res.value;
      }
      BlockZero(index, levels);
      ghost var t := View();
      assert !Get(old(View()), index).Empty? ==> !Get(t, index).Empty?;
      ok, node, offset := CreateBelow(index, levels);
      SameTrans(old(View()), t, View());
    }

    /** The loop of __radix_tree_create, in a tree that is high enough. */
    method CreateBelow(index: nat, levels0: nat) returns (ok: bool, node: Option<Ref>, offset: nat)
      requires Valid() && !idr && index < WORD && levels0 <= LEVELS && Walked(View(), index, None, 0, levels0)
      modifies this
      ensures Valid() && SameContents(old(View()), View())
      ensures ok ==> SlotOf(View(), index, node, offset)
      ensures !Get(old(View()), index).Empty? ==> ok && View() == old(View())
      ensures At(index, 0) in old(nodes) || levels0 == 0 ==> ok
      ensures |nodes| + spare == old(|nodes| + spare) && (!ok ==> spare == 0)
      ensures old(spare) >= LEVELS ==> ok
    {
      var levels: nat := levels0;
      node, offset := None, 0;
      while levels > 0
        invariant |nodes| + spare == old(|nodes| + spare) && old(spare) <= spare + levels0 - levels
        invariant At(index, 0) in old(nodes) ==> View() == old(View())
        invariant levels <= LEVELS && Valid() && SameContents(old(View()), View())
        invariant !Get(old(View()), index).Empty? ==> View() == old(View())
        invariant Walked(View(), index, node, offset, levels)
      {
        levels := levels - 1;
        EmptySlotBelow(View(), index, node, offset, levels);
        NoLeafThere(View(), index, node, offset, levels);
        node := EnterChild(index, levels, node, offset);
        if node == None { return false, None, 0; }
        offset := Digit(index, levels);
      }
      ok := true;
    }

    /** insert_entries: fill the slot of index unless it is taken. */
    method InsertEntries(node: Option<Ref>, offset: nat, item: Entry, ghost index: nat) returns (ok: bool)
      requires Valid() && !idr && (item.Pointer? || item.Value?) && SlotOf(View(), index, node, offset)
      modifies this`head, this`nodes
      ensures Valid() && |nodes| == |old(nodes)|
      ensures ok <==> Get(old(View()), index).Empty?
      ensures !ok ==> View() == old(View())
      ensures ok ==> SlotOf(View(), index, node, offset)
      ensures ok ==> forall j: nat :: Get(View(), j) == if j == index then item else Get(old(View()), j)
      ensures forall j: nat, g: nat :: g < TAGS ==> (TagAt(View(), j, g) <==> TagAt(old(View()), j, g))
    {
      ghost var t := View();
      match node {
        case None =>
          if !head.Empty? { return false; }
          PutHeadOk(t, idr, item);
          head := item;
          assert View() == t.(head := item);
        case Some(r) =>
          var n := nodes[r];
          assert NodeShape(t, r);
          if !n.slots[offset].Empty? { return false; }
          PutSlotPlain(t, index, item);
          nodes := nodes[r := n.(slots := n.slots[offset := item], count := n.count + 1,
                                 nrValues := n.nrValues + (if item.Value? then 1 else 0))];
          assert View() == PutSlot(t, r, offset, item, 1, if item.Value? then 1 else 0);
      }
      return true;
    }

    /** radix_tree_insert. Its BUG_ON checks, that a slot just filled had no tags, are asserted. */
    method Insert(index: nat, item: Entry) returns (res: InsertResult)
      requires Valid() && !idr && index < WORD && (item.Pointer? || item.Value?)
      modifies this
      ensures Valid()
      ensures res == Exists <==> !Get(old(View()), index).Empty?
      ensures res == Inserted ==> Items(View()) == Items(old(View()))[index := item]
      ensures res != Inserted ==> Items(View()) == Items(old(View()))
      ensures forall i: nat, tag: nat :: tag < TAGS ==> (TagAt(View(), i, tag) <==> TagAt(old(View()), i, tag))
      // out of memory: every node that was to be had is in the tree, and the slot was not there
      ensures |nodes| + spare == old(|nodes| + spare) && (res == NoMemory ==> spare == 0)
      ensures if old(head.Inner?) then At(index, 0) in old(nodes) ==> res != NoMemory else index == 0 ==> res != NoMemory
      ensures old(spare) >= 32 ==> res != NoMemory
    {
      ghost var t0 := View();
      var ok, node, offset := Create(index);
      ItemsSame(t0, View());
      if !ok { return NoMemory; }
      EmptyIsDefault(View(), index);
      var inserted := InsertEntries(node, offset, item, index);
      if !inserted { return Exists; }
      ItemsPut(t0, View(), index, item);
      NewSlotTags(index, node, offset);
      if node.Some? {
        assert !nodes[node.value].tags[0][offset];
        assert !nodes[node.value].tags[1][offset];
        assert !nodes[node.value].tags[2][offset];
      } else {
        assert !rootTags[0] && !rootTags[1] && !rootTags[2];
      }
      return Inserted;
    }

    lemma NewSlotTags(index: nat, node: Option<Ref>, offset: nat)
      requires Valid() && !idr && SlotOf(View(), index, node, offset) && !Get(View(), index).Empty?
      requires !TagAt(View(), index, 0) && !TagAt(View(), index, 1) && !TagAt(View(), index, 2)
      ensures node.Some? ==> node.value in nodes && NodeShape(View(), node.value)
      ensures forall g: nat :: g < TAGS ==> if node.Some? then !nodes[node.value].tags[g][offset] else !rootTags[g]
    {
      assert node.Some? ==> NodeShape(View(), node.value);
    }

    // ----- replacing and deleting

    /** node_tag_get. */
    method NodeTagGet(node: Option<Ref>, tag: nat, offset: nat) returns (b: bool)
      requires tag < |rootTags|
      requires node.Some? ==> node.value in nodes && tag < |nodes[node.value].tags| && offset < |nodes[node.value].tags[tag]|
      ensures b == if node == None then rootTags[tag] else nodes[node.value].tags[tag][offset]
    {
      b := if node == None then rootTags[tag] else nodes[node.value].tags[tag][offset];
    }

    /** __radix_tree_replace: store item in the slot of index i. For an IDR this is also the first
        half of an allocation; then the leaf counts one ID more than its tags show. */
    method Replace(node: Option<Ref>, offset: nat, item: Entry, ghost i: nat)
      requires Valid() && SlotOf(View(), i, node, offset) && (idr ==> node.Some?)
      requires item.Empty? || item.Value? || item.Pointer?
      requires !idr && item.Empty? ==> forall tag: nat :: tag < TAGS ==> !TagAt(View(), i, tag)
      modifies this
      ensures Stable(View(), idr, if idr && TagAt(old(View()), i, 0) then node else None)
      ensures forall j: nat :: Get(View(), j) == if j == i then item else Get(old(View()), j)
      ensures forall j: nat, g: nat :: g < TAGS ==> (TagAt(View(), j, g) <==> TagAt(old(View()), j, g))
      ensures idr && TagAt(old(View()), i, 0) ==>
                && node.value in old(nodes) && NodeShape(old(View()), node.value)
                && nodes[node.value].(parent := None)
                   == PutSlot(old(View()), node.value, offset, item, 1, if item.Value? then 1 else 0)
                      .nodes[node.value].(parent := None)
    {
      ghost var t := View();
      if node == None {
        var values := 0;
        assert forall g: nat :: g < TAGS && head.Empty? ==> RootOk(t, g);
        PutHeadPre(t, i, item);
        PutHeadOk(t, idr, item);
        head := item;
        assert View() == t.(head := item);
        return;
      }
      var r := node.value;
      assert NodeShape(t, r) && NodeOk(t, idr, r) && (r.level == 0 ==> LeafOk(t, idr, t.nodes[r], offset));
      var n := nodes[r];
      var was := n.slots[offset];
      var free := n.tags[0][offset];
      var values := (if item.Value? then 1 else 0) - (if was.Value? then 1 else 0);
      var count := if idr && !free then 0
                   else if idr && was.Empty? then 1
                   else (if item.Empty? then 0 else 1) - (if was.Empty? then 0 else 1);
      nodes := nodes[r := n.(slots := n.slots[offset := item], count := n.count + count, nrValues := n.nrValues + values)];
      assert View() == PutSlot(t, r, offset, item, count, values);
      PutSlotOk(t, idr, i, item, count, values, None);
      ghost var skip := if idr && free then node else None;
      if idr && !free {
        assert NodeShape(View(), r) && n.tags[0] == n.tags[0][offset := false] && n.tags == n.tags[0 := n.tags[0]];
        IdrLeafOk(t, View(), i, item, true);
        NodesOkJoin(View(), idr, r);
      } else if !idr {
        PutSlotPlain(t, i, item);
      }
      var deleted := DeleteNode(r, skip);
    }

    /** replace_slot on a node. */
    method ReplaceSlot(r: Ref, offset: nat, item: Entry, count: int, values: int)
      requires r in nodes && offset < |nodes[r].slots|
      modifies this`nodes
      ensures View() == PutSlot(old(View()), r, offset, item, count, values)
    {
      var n := nodes[r];
      nodes := nodes[r := n.(slots := n.slots[offset := item], count := n.count + count, nrValues := n.nrValues + values)];
    }

    /** __radix_tree_delete in an IDR: the ID becomes free, then its pointer goes. */
    method DeleteLive(r: Ref, offset: nat, ghost i: nat) returns (deleted: bool)
      requires Valid() && idr && SlotOf(View(), i, Some(r), offset) && Held(View(), idr, i)
      modifies this
      ensures Valid() && Removed(old(View()), View(), i)
    {
      ghost var t := View();
      HeldSlot(t, idr, i, Some(r), offset);
      var values := if nodes[r].slots[offset].Value? then -1 else 0;
      NodeTagSet(Some(r), 0, offset, i);
      ghost var u := View();
      DeleteIdrSlot(t, u, i);
      ReplaceSlot(r, offset, Empty, -1, values);
      ghost var v := View();
      deleted := DeleteNode(r, None);
      assert SameContents(v, View());
    }

    /** __radix_tree_delete in a plain tree: the tags go, then the entry. */
    method DeleteEntry(node: Option<Ref>, offset: nat, ghost i: nat) returns (deleted: bool)
      requires Valid() && !idr && SlotOf(View(), i, node, offset) && Held(View(), idr, i)
      modifies this
      ensures Valid() && Removed(old(View()), View(), i)
    {
      HeldSlot(View(), idr, i, node, offset);
      var was := if node == None then head else nodes[node.value].slots[offset];
      ClearTags(node, offset, i);
      ghost var u := View();
      if node == None {
        PutHeadPre(u, i, Empty);
        PutHeadOk(u, idr, Empty);
        head := Empty;
        assert View() == u.(head := Empty);
        return false;
      }
      assert NodeShape(u, node.value);
      PutSlotPlain(u, i, Empty);
      ReplaceSlot(node.value, offset, Empty, -1, if was.Value? then -1 else 0);
      ghost var v := View();
      deleted := DeleteNode(node.value, None);
      assert SameContents(v, View());
    }

    /** __radix_tree_delete on the slot of index i. */
    method DeleteSlot(node: Option<Ref>, offset: nat, ghost i: nat) returns (deleted: bool)
      requires Valid() && SlotOf(View(), i, node, offset) && Held(View(), idr, i)
      modifies this
      ensures Valid() && Removed(old(View()), View(), i)
    {
      if idr {
        HeldSlot(View(), idr, i, node, offset);
        deleted := DeleteLive(node.value, offset, i);
      } else {
        deleted := DeleteEntry(node, offset, i);
      }
    }

    /** The tag loop of __radix_tree_delete in a plain tree. */
    method ClearTags(node: Option<Ref>, offset: nat, ghost i: nat)
      requires Valid() && !idr && SlotOf(View(), i, node, offset) && (node == None ==> head.Item?())
      modifies this
      ensures Valid() && SameButTags(old(View()), View()) && SlotOf(View(), i, node, offset)
      ensures forall j: nat :: Get(View(), j) == Get(old(View()), j)
      ensures forall j: nat, g: nat :: g < TAGS ==> (TagAt(View(), j, g) <==> j != i && TagAt(old(View()), j, g))
    {
      var tag := 0;
      while tag < TAGS
        invariant tag <= TAGS && Valid() && SameButTags(old(View()), View()) && SlotOf(View(), i, node, offset)
        invariant forall j: nat :: Get(View(), j) == Get(old(View()), j)
        invariant forall j: nat, g: nat :: g < TAGS ==>
                    (TagAt(View(), j, g) <==> !(j == i && g < tag) && TagAt(old(View()), j, g))
      {
        ghost var t := View();
        NodeTagClear(node, tag, offset, i);
        MarkPlain(t, View(), i, tag, false);
        SameButTagsGet(t, View());
        tag := tag + 1;
      }
    }

    /** radix_tree_delete_item: remove the entry at index if there is one and, when item is not
        NULL, if it is item. In an IDR a live ID is removed even when its pointer is NULL. */
    method DeleteItem(index: nat, item: Entry) returns (entry: Entry)
      requires Valid()
      modifies this
      ensures Valid()
      ensures var hit := Held(old(View()), idr, index) && (item.Empty? || Get(old(View()), index) == item);
        && entry == (if hit then Get(old(View()), index) else Empty)
        && (if hit then Removed(old(View()), View(), index) else View() == old(View()))
    {
      var found, node, offset;
      entry, found, node, offset := LookupSlot(index);
      ReachedHeld(View(), idr, index, found, node, offset);
      if !found { return Empty; }
      assert node.Some? ==> NodeShape(View(), node.value);
      var free := NodeTagGet(node, 0, offset);
      if entry.Empty? && (!idr || free) { return Empty; }
      if !item.Empty? && entry != item { return Empty; }
      var deleted := DeleteSlot(node, offset, index);
    }

    /** The end of an ID allocation (radix_tree_iter_replace, radix_tree_iter_tag_clear): ptr goes
        into the free slot of index, then the ID stops being free. */
    method TakeSlot(node: Ref, offset: nat, ptr: Entry, ghost index: nat)
      requires Valid() && idr && SlotOf(View(), index, Some(node), offset) && TagAt(View(), index, 0)
      requires ptr.Empty? || ptr.Value? || ptr.Pointer?
      modifies this
      ensures Valid() && Taken(old(View()), View(), index, ptr)
    {
      ghost var t := View();
      HeldNot(t, index, node, offset);
      Replace(Some(node), offset, ptr, index);
      ghost var u := View();
      assert NodeShape(u, node);
      NodeTagClear(Some(node), 0, offset, index);
      TakeIdrSlot(t, u, View(), index, ptr);
    }

    // ----- tags of an index

    /** radix_tree_tag_get. */
    method GetTag(index: nat, tag: nat) returns (b: bool)
      requires Valid() && tag < TAGS
      ensures b <==> index <= MaxIndex(head) && TagAt(View(), index, tag)
    {
      RootExact(View(), tag);
      if !rootTags[tag] { return false; }
      var maxindex := MaxIndex(head);
      if index > maxindex { return false; }
      if head.Inner? { HeadCovers(View(), index); }
      var entry := head;
      assert RootOk(View(), tag);
      while entry.Inner?
        invariant entry.Inner? ==> entry.ref in nodes && entry.ref == At(index, entry.ref.level)
        invariant !entry.Inner? ==> TagAt(View(), index, tag)
        decreases if entry.Inner? then entry.ref.level + 1 else 0
      {
        var r := entry.ref;
        TagDown(View(), index, r, tag);
        var offset := Digit(index, r.level);
        entry := nodes[r].slots[offset];
        if !nodes[r].tags[tag][offset] { return false; }
      }
      return true;
    }

    /** One round of radix_tree_tag_set: the tag of the slot in node r, and the entry below. */
    method TagDownTo(index: nat, tag: nat, r: Ref, ghost t0: Tree, ghost node: Option<Ref>, ghost o: nat) returns (entry: Entry, offset: nat)
      requires Shape(t0) && tag < |rootTags| == TAGS
      requires DescentAt(t0, View().(rootTags := rootTags[tag := true]), tag, index, Inner(r), node, o)
      modifies this`nodes
      ensures DescentAt(t0, View().(rootTags := rootTags[tag := true]), tag, index, entry, Some(r), offset)
      ensures entry.Inner? ==> entry.ref.level < r.level
    {
      ghost var t := View().(rootTags := rootTags[tag := true]);
      assert NodeShape(t, r);
      offset := Digit(index, r.level);
      DescentDown(t0, t, tag, index, Inner(r), node, o);
      entry := nodes[r].slots[offset];
      assert !entry.Empty?;     // BUG_ON(!node)
      if !nodes[r].tags[tag][offset] {
        WriteTag(r, tag, offset, true);
      } else {
        PutBitSame(t, r, offset, tag);
      }
      assert View().(rootTags := rootTags[tag := true]) == PutBit(t, r, offset, tag, true);
    }

    /** radix_tree_tag_set. Tagging an index that holds nothing is a bug of the caller (BUG_ON). */
    method SetTag(index: nat, tag: nat) returns (entry: Entry)
      requires Valid() && !idr && tag < TAGS && !Get(View(), index).Empty?
      modifies this
      ensures Valid() && entry == Get(old(View()), index)
      ensures Items(View()) == Items(old(View()))
      ensures forall j: nat, g: nat :: g < TAGS ==>
                (TagAt(View(), j, g) <==> (j == index && g == tag) || TagAt(old(View()), j, g))
    {
      ghost var t0 := View();
      if index > MaxIndex(head) { NothingBeyond(View(), index); }
      if head.Inner? { HeadCovers(View(), index); }
      entry := head;
      ghost var node: Option<Ref>, o: nat := None, 0;
      assert DescentAt(t0, View().(rootTags := rootTags[tag := true]), tag, index, entry, node, o) by {
        DescentStart(t0, tag, index);
      }
      while entry.Inner?
        invariant rootTags == t0.rootTags && head == t0.head
        invariant DescentAt(t0, View().(rootTags := rootTags[tag := true]), tag, index, entry, node, o)
        decreases if entry.Inner? then entry.ref.level + 1 else 0
      {
        var parent := entry.ref;
        entry, o := TagDownTo(index, tag, parent, t0, node, o);
        node := Some(parent);
      }
      if !rootTags[tag] {
        rootTags := rootTags[tag := true];
      }
      assert rootTags == rootTags[tag := true];
      DescentEnd(t0, View(), tag, index, entry, node, o);
    }

    /** radix_tree_tag_clear. */
    method ClearTag(index: nat, tag: nat) returns (entry: Entry)
      requires Valid() && !idr && tag < TAGS
      modifies this
      ensures Valid() && entry == Get(old(View()), index)
      ensures Items(View()) == Items(old(View()))
      ensures forall j: nat, g: nat :: g < TAGS ==>
                (TagAt(View(), j, g) <==> !(j == index && g == tag) && TagAt(old(View()), j, g))
    {
      var found, node, offset;
      ghost var t := View();
      entry, found, node, offset := LookupSlot(index);
      EmptyIsDefault(t, index);
      if !entry.Empty? {
        if !found { NothingBeyond(t, index); }
        ReachedHeld(t, idr, index, found, node, offset);
        assert node == None ==> head.Item?();
        NodeTagClear(node, tag, offset, index);
        MarkPlain(t, View(), index, tag, false);
        SameButTagsGet(t, View());
      }
    }

    // ----- the ID allocator

    /** From the end of node r, the slot that comes next: one to the right in the parent, or higher
        up. to is the first index after r. */
    method NextSlotUp(r: Ref, ghost to: nat) returns (node: Option<Ref>, offset: nat)
      requires Valid() && r in nodes && to == SlotIndex(r, CHUNK) && head.Inner?
      ensures node.Some? ==> node.value in nodes && 0 < node.value.level < LEVELS
                             && Walked(View(), to, node, offset, node.value.level)
      ensures var height := head.ref.level + 1;
        r.level < height && Carry(to, r.level, height) == if node.Some? then node.value.level else height
    {
      node, offset := Some(r), CHUNK;
      ghost var height := head.ref.level + 1;
      UpSlot(View(), r);
      assert NodeShape(View(), r);
      CarryAt(r, CHUNK, height);
      while offset == CHUNK
        invariant node.Some? && node.value in nodes && 0 < offset <= CHUNK && to == SlotIndex(node.value, offset)
        invariant offset < CHUNK ==> 0 < node.value.level
        invariant node.value.level < height
        invariant Carry(to, r.level, height) == if offset < CHUNK then node.value.level else Carry(to, node.value.level + 1, height)
        decreases if node.Some? && head.Inner? then head.ref.level - node.value.level + 1 else 0
      {
        UpSlot(View(), node.value);
        assert NodeShape(View(), node.value);
        offset := nodes[node.value].offset + 1;
        node := nodes[node.value].parent;
        if node == None { return; }
        CarryAt(node.value, offset, height);
      }
      SlotStart(View(), node.value, offset, to);
    }

    /** Take the search past the full slot of index start in node r: to the next slot of r with
        something free below, or, when r has none, to the slot after r, as high up as needed.
        No node means the search has left the tree at the end; full, that it has passed max. */
    method JumpOver(start: nat, max: nat, r: Ref, ghost t0: Tree) returns (to: nat, full: bool, node: Option<Ref>, offset: nat)
      requires Valid() && idr && Shape(t0) && SameContents(t0, View()) && start <= max < WORD
      requires r in nodes && r == At(start, r.level) && r.level < LEVELS && head.Inner?
      ensures full <==> JumpTo(t0, start, r.level, lowest) > max
      ensures !full ==> start < to <= max && to == JumpTo(t0, start, r.level, lowest)
      ensures !full && node.Some? ==> node.value in nodes && node.value.level < LEVELS
                                      && Walked(View(), to, node, offset, node.value.level)
                                      && (node.value.level == 0 ==> NodeShape(View(), node.value) && nodes[node.value].tags[0][offset])
      ensures r.level < head.ref.level + 1
      ensures !full ==> Carry(to, r.level, head.ref.level + 1) == if node.Some? then node.value.level else head.ref.level + 1
    {
      RowIsFree(t0, View(), r);
      assert NodeShape(View(), r);
      offset := NextBit(nodes[r].tags[0], Digit(start, r.level) + 1, lowest);
      WrapTo(start, r, offset);
      to := NextIndex(start, nodes[r].level, offset);
      node := Some(r);
      if to > max || to == 0 { return to, true, node, offset; }
      if offset == CHUNK {
        node, offset := NextSlotUp(r, to);
      } else {
        SlotStart(View(), r, offset, to);
        CarryAt(r, offset, head.ref.level + 1);
      }
      full := false;
    }

    /** A walk in a tree of the given height has come down to a slot that spans levels. */
    ghost predicate Seeking(height: nat, start: nat, node: Option<Ref>, offset: nat, levels: nat)
      reads this
    {
      && Valid() && idr && levels <= height <= LEVELS && Walked(View(), start, node, offset, levels)
      && (head.Inner? ==> head.ref.level + 1 == height) && (node == None ==> levels == height > 0)
      && (levels == 0 ==> node.Some? && nodes[node.value].tags[0][offset])
    }

    /** The node below the slot, whose bit for the index tells whether something is free there. */
    method SeekChild(height: nat, index: nat, level: nat, node0: Option<Ref>, offset0: nat, max: nat, ghost t0: Tree, ghost goal: Option<nat>)
      returns (r: Option<Ref>)
      requires Seeking(height, index, node0, offset0, level + 1) && Shape(t0) && SameContents(t0, View())
      requires goal == Search(t0, height, index, level + 1, max, lowest)
      modifies this
      ensures Valid() && SameContents(t0, View()) && (goal.Some? || View() == old(View()))
      ensures r.Some? ==>
        && head.Inner? && head.ref.level + 1 == height && r.value == At(index, level)
        && Walked(View(), index, r, Digit(index, level), level)
        && (nodes[r.value].tags[0][Digit(index, level)] <==> TaggedIn(t0, Block(index, level), level, 0))
      ensures r == None ==> goal == Some(index) && spare == 0 && At(index, 0) !in nodes
      ensures |nodes| + spare == old(|nodes| + spare) && old(nodes.Keys) <= nodes.Keys
    {
      FreeUnderEmpty(t0, View(), index, node0, offset0, level);
      if TagAt(t0, index, 0) { StartFree(t0, height, index, level + 1, max, lowest); }
      r := EnterChild(index, level, node0, offset0);
      if r.Some? {
        RowIsFree(t0, View(), r.value);
        BlockSplit(index, level);
      }
    }

    /** Over a full slot, and on from the next one. Without a node the walk is over: above the tree, or
        past max. */
    method SeekOver(height: nat, from: nat, level: nat, r: Ref, max: nat, ghost t0: Tree, ghost goal: Option<nat>)
      returns (start: nat, full: bool, node: Option<Ref>, offset: nat, levels: nat)
      requires Valid() && idr && Shape(t0) && SameContents(t0, View()) && from <= max < WORD
      requires head.Inner? && head.ref.level + 1 == height <= LEVELS && r in nodes && r == At(from, level) && level < height
      requires !TaggedIn(t0, Block(from, level), level, 0) && goal == Search(t0, height, from, level + 1, max, lowest)
      ensures full ==> goal == None
      ensures !full && node == None ==> goal == Some(start) && from < start <= max
      ensures !full && node.Some? ==>
        && Seeking(height, start, node, offset, levels) && from < start <= max
        && goal == Search(t0, height, start, levels, max, lowest)
    {
      start, full, node, offset := JumpOver(from, max, r, t0);
      levels := if !full && node.Some? then nodes[node.value].level else 0;
    }

    /** The walk of idr_get_free from the head, until it needs a higher tree. */
    method FindBelow(from: nat, max: nat, height: nat, ghost t0: Tree, ghost goal: Option<nat>) returns (start: nat, walk: WalkResult)
      requires Seeking(height, from, None, 0, height) && Shape(t0) && SameContents(t0, View()) && from <= max < WORD
      requires goal == Search(t0, height, from, height, max, lowest)
      modifies this
      ensures Valid() && SameContents(t0, View()) && (goal.Some? || View() == old(View()))
      ensures match walk
        case Landed(node, offset) => goal == Some(start) && SlotOf(View(), start, Some(node), offset)
        case Above => goal == Some(start) && from < start <= max
        case Full => goal == None
        case OutOfMemory => goal.Some? && spare == 0 && At(goal.value, 0) !in old(nodes)
      ensures |nodes| + spare == old(|nodes| + spare) && old(nodes.Keys) <= nodes.Keys
    {
      start := from;
      ghost var t := View();
      var node: Option<Ref>, offset: nat, levels: nat := None, 0, height;
      while levels > 0
        invariant Seeking(height, start, node, offset, levels) && SameContents(t0, View()) && from <= start <= max
        invariant goal == Search(t0, height, start, levels, max, lowest) && (goal.Some? || View() == t)
        invariant |nodes| + spare == old(|nodes| + spare) && old(nodes.Keys) <= nodes.Keys
        decreases WORD - start, levels
      {
        levels := levels - 1;
        node := SeekChild(height, start, levels, node, offset, max, t0, goal);
        if node == None { return start, OutOfMemory; }
        offset := Digit(start, levels);
        if !nodes[node.value].tags[0][offset] {
          var full;
          start, full, node, offset, levels := SeekOver(height, start, levels, node.value, max, t0, goal);
          if full { return start, Full; }
          if node == None { return start, Above; }
        }
      }
      walk := Landed(node.value, offset);
    }

    /** The test at label grow: where the search goes on, given the root's free flag. */
    method SkipFullTree(from: nat, ghost t0: Tree, max: nat, ghost goal: Option<nat>) returns (start: nat)
      requires Valid() && idr && Inv(t0, true) && SameContents(t0, View()) && from < WORD
      requires Pursues(t0, head, from, max, lowest, goal)
      ensures from <= start < WORD && Pursues(t0, head, start, max, lowest, goal)
    {
      start := from;
      if !rootTags[0] {
        var beyond := (MaxIndex(head) + 1) % WORD;
        if beyond > start {
          FullBelow(t0, View(), start, beyond, max, lowest, goal);
          start := beyond;
        }
      }
    }

    /** The tree is extended if it cannot hold start. The height it has; None is -ENOMEM. */
    method HighEnough(start: nat, max: nat, ghost t0: Tree, ghost goal: Option<nat>) returns (height: Option<nat>)
      requires Valid() && idr && Inv(t0, true) && SameContents(t0, View()) && start <= max < WORD
      requires Pursues(t0, head, start, max, lowest, goal)
      modifies this
      ensures Valid() && SameContents(t0, View()) && (goal.Some? || View() == old(View()))
      ensures height.Some? ==> Seeking(height.value, start, None, 0, height.value)
                               && goal == Search(t0, height.value, start, height.value, max, lowest)
      ensures height == None ==> goal == Some(start) && spare == 0 && At(start, 0) !in old(nodes)
      ensures |nodes| + spare == old(|nodes| + spare) && old(nodes.Keys) <= nodes.Keys
    {
      var levels: nat := if head.Inner? then head.ref.level + 1 else 0;
      ghost var was := head;
      if start > MaxIndex(head) {
        FreeBeyond(t0, View(), start);
        if head.Inner? && At(start, 0) in nodes { LeafInRange(View(), start); }
        assert !head.Inner? ==> forall r :: r in nodes ==> NodeShape(View(), r);
        PursuesFree(t0, head, start, max, lowest, goal);
        var got := Extend(start, levels);
        if got == None { return None; }
        levels := got.value;
      }
      if start == 0 && levels == 0 { levels := 1; }
      BlockZero(start, levels);
      PursuesDown(t0, was, start, max, lowest, goal, levels);
      return Some(levels);
    }

    /** idr_get_free: the slot of the index that TreeSearch describes, whose free index lies between
        start0 and max. */
    method GetFree(start0: nat, max: nat) returns (res: FreeResult)
      requires Valid() && idr && start0 < WORD && max < WORD
      modifies this
      ensures Valid() && SameContents(old(View()), View())
      ensures var goal := FreeIndex(old(View()), start0, max, lowest);
        match res
        case Found(index, node, offset) => goal == Some(index) && SlotOf(View(), index, Some(node), offset)
        case NoSpace => goal == None
        case NoMem => goal.Some? && spare == 0 && At(goal.value, 0) !in old(nodes)
      ensures |nodes| + spare == old(|nodes| + spare)
      ensures res.NoSpace? ==> View() == old(View())
    {
      ghost var t0 := View();
      ghost var goal := FreeIndex(t0, start0, max, lowest);
      var start := start0;
      while true
        invariant Valid() && SameContents(t0, View()) && start < WORD
        invariant Pursues(t0, head, start, max, lowest, goal)
        invariant View() == t0 || goal.Some?
        invariant |nodes| + spare == old(|nodes| + spare) && old(nodes.Keys) <= nodes.Keys
        decreases WORD - start
      {
        start := SkipFullTree(start, t0, max, goal);
        if start > max { return NoSpace; }
        var levels := HighEnough(start, max, t0, goal);
        if levels == None { return NoMem; }
        var walk;
        start, walk := FindBelow(start, max, levels.value, t0, goal);
        match walk {
          case Above => FreeIndexExact(t0, start0, max, lowest);
          case Landed(node, offset) => return Found(start, node, offset);
          case Full => return NoSpace;
          case OutOfMemory => return NoMem;
        }
      }
    }

    // ----- freeing the tree

    /** What is left in memory is as it was. */
    ghost predicate Left(t: Tree)
      reads this
    {
      nodes.Keys <= t.nodes.Keys && forall r :: r in nodes ==> nodes[r] == t.nodes[r]
    }

    /** From the end of node c to the slot after it, freeing it. None means that c was the root's. */
    method FreeOne(c: Ref, node: Ref, ghost t: Tree, ghost log0: seq<Ref>)
      returns (child: Option<Ref>, offset: nat, ghost log: seq<Ref>)
      requires Shape(t) && t.head.Inner? && Walk(t, nodes.Keys, c, CHUNK, log0) && t.head == Inner(node) && Left(t)
      modifies this`nodes
      ensures child == None ==> nodes == map[] && AllFreed(t, log)
      ensures child.Some? ==> Walk(t, nodes.Keys, child.value, offset, log) && Left(t) && nodes.Keys < old(nodes.Keys)
    {
      ghost var left;
      left, log := WalkUp(t, nodes.Keys, c, log0);
      offset := nodes[c].offset + 1;
      child := nodes[c].parent;
      nodes := nodes - {c};
      assert nodes.Keys == left;
      if c == node { child := None; }
    }

    /** The inner loop of radix_tree_free_nodes: from the end of a node up its parent links. */
    method FreeUp(child0: Ref, offset0: nat, node: Ref, ghost t: Tree, ghost log0: seq<Ref>)
      returns (child: Option<Ref>, offset: nat, ghost log: seq<Ref>)
      requires Shape(t) && t.head.Inner? && Walk(t, nodes.Keys, child0, offset0, log0) && t.head == Inner(node) && Left(t)
      modifies this`nodes
      ensures child == None ==> nodes == map[] && AllFreed(t, log)
      ensures child.Some? ==>
                && Walk(t, nodes.Keys, child.value, offset, log) && offset < CHUNK && Left(t)
                && (nodes.Keys < old(nodes.Keys) || (nodes == old(nodes) && child.value == child0 && offset == offset0))
    {
      child, offset, log := Some(child0), offset0, log0;
      while offset == CHUNK
        invariant child.Some? && Walk(t, nodes.Keys, child.value, offset, log) && Left(t)
        invariant nodes.Keys < old(nodes.Keys) || (nodes == old(nodes) && child.value == child0 && offset == offset0)
        decreases nodes.Keys
      {
        child, offset, log := FreeOne(child.value, node, t, log);
        if child == None { return; }
      }
    }

    /** radix_tree_free_nodes on the root's node. Nothing is read from a node after it was freed; log
        is the order in which the nodes were freed. */
    method FreeNodes(node: Ref) returns (ghost log: seq<Ref>)
      requires Valid() && head == Inner(node)
      modifies this`nodes
      ensures nodes == map[]
      ensures AllFreed(old(View()), log)
    {
      ghost var t := View();
      var child: Ref, offset: nat := node, 0;
      log := [];
      WalkStart(t);
      while true
        invariant Walk(t, nodes.Keys, child, offset, log) && offset < CHUNK
        invariant Left(t)
        decreases nodes.Keys, Ahead(node, child, offset), child.level
      {
        child, offset := Visit(child, offset, t, log);
        var next;
        next, offset, log := FreeUp(child, offset, node, t, log);
        if next == None { return; }
        child := next.value;
      }
    }

    /** One slot of a node: down into its node, or past it. */
    method Visit(child: Ref, offset: nat, ghost t: Tree, ghost log: seq<Ref>) returns (next: Ref, o: nat)
      requires Shape(t) && t.head.Inner? && Walk(t, nodes.Keys, child, offset, log) && offset < CHUNK && Left(t)
      ensures Walk(t, nodes.Keys, next, o, log)
      ensures var was, now := Ahead(t.head.ref, child, offset), Ahead(t.head.ref, next, o);
        now < was || (now == was && next.level < child.level)
    {
      WalkHere(t, nodes.Keys, child, offset, log);
      var entry := nodes[child].slots[offset];
      if entry.Inner? && nodes[child].level > 0 {
        WalkInto(t, nodes.Keys, child, offset, log);
        return entry.ref, 0;
      }
      WalkOn(t, nodes.Keys, child, offset, log);
      WalkHere(t, nodes.Keys, child, offset + 1, log);
      return child, offset + 1;
    }

    /** idr_destroy. */
    method Destroy()
      requires Valid() && idr
      modifies this
      ensures Valid() && nodes == map[]
      ensures forall i: nat :: Get(View(), i).Empty?
      ensures forall i: nat, tag: nat :: tag < TAGS ==> TagAt(View(), i, tag) == (tag == 0)
    {
      assert RootOk(View(), 0);
      if head.Inner? {
        ghost var log := FreeNodes(head.ref);
      } else {
        EmptyTree(View());
      }
      head := Empty;
      rootTags := rootTags[0 := true];
      assert RootOk(View(), 0) && RootOk(View(), 1) && RootOk(View(), 2);
    }
  }
}
