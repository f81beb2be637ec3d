/** The cursor operations of lib/xarray.c: loading, creating, storing and deleting at the index of a
    struct xa_state, and the retry after a failed allocation. */
module XArrayCursor {
  import opened Wrappers
  import opened Digits
  import opened TreeState
  import opened TreeSteps
  import opened TreeCounts
  import opened TreeTags
  import opened TreeWalk
  import opened Bits
  import opened MarkSearch
  import opened XArray

  // ----- room for new nodes

  /** How many of the lowest l nodes on the way to index i are in memory. */
  function Have(keys: set<Ref>, i: nat, l: nat): (n: nat)
    ensures n <= l
  {
    if l == 0 then 0 else Have(keys, i, l - 1) + (if At(i, l - 1) in keys then 1 else 0)
  }

  /** How many nodes may still be added on the ways to index i and to index 0. */
  function Room(keys: set<Ref>, i: nat): nat {
    2 * LEVELS - Have(keys, i, LEVELS) - Have(keys, 0, LEVELS)
  }

  lemma {:induction false} HaveGrows(keys: set<Ref>, more: set<Ref>, i: nat, l: nat, at: nat)
    requires keys <= more
    ensures Have(keys, i, l) <= Have(more, i, l)
    ensures at < l && At(i, at) in more && At(i, at) !in keys ==> Have(keys, i, l) < Have(more, i, l)
  {
    if l > 0 { HaveGrows(keys, more, i, l - 1, at); }
  }

  /** A new node on either way leaves less room. */
  lemma RoomShrinks(keys: set<Ref>, more: set<Ref>, i: nat, at: nat)
    requires keys <= more && at < LEVELS
    requires (At(i, at) in more && At(i, at) !in keys) || (At(0, at) in more && At(0, at) !in keys)
    ensures Room(more, i) < Room(keys, i)
  {
    HaveGrows(keys, more, i, LEVELS, at);
    HaveGrows(keys, more, 0, LEVELS, at);
  }

  /** The lowest l nodes on the way to index i. */
  function Way(i: nat, l: nat): (way: set<Ref>)
    ensures |way| <= l
    ensures forall k: nat :: k < l ==> At(i, k) in way
  {
    if l == 0 then {} else Way(i, l - 1) + {At(i, l - 1)}
  }

  /** The new nodes lie on the ways to index i and to index 0. */
  ghost predicate OnWays(keys: set<Ref>, more: set<Ref>, i: nat) {
    keys <= more && forall r {:trigger r in more} :: r in more && r !in keys ==> r.level < LEVELS && (r == At(i, r.level) || r == At(0, r.level))
  }

  /** No more nodes can have been added than lie on those ways. */
  lemma NoMoreThanWays(keys: set<Ref>, more: set<Ref>, i: nat)
    requires OnWays(keys, more, i)
    ensures |more| <= |keys| + 32
  {
    var a, b := Way(i, LEVELS), Way(0, LEVELS);
    Subset(more - keys, a + b);
    assert more == keys + (more - keys) && |a + b| <= |a| + |b|;
  }

  lemma {:induction false} Subset(a: set<Ref>, b: set<Ref>)
    requires a <= b
    ensures |a| <= |b|
  {
    if a != {} {
      var x :| x in a;
      Subset(a - {x}, b - {x});
    }
  }

  lemma TopOfZero(l: nat)
    ensures At(0, l) == Ref(l, 0)
  {
    BlockZero(0, l + 1);
  }

  /** Nodes were only added, on those ways, and if the spare node was used up (was, and not now) at least one was. */
  ghost predicate Added(keys: set<Ref>, more: set<Ref>, i: nat, was: bool, now: bool) {
    OnWays(keys, more, i) && (was == now || (was && Room(more, i) < Room(keys, i)))
  }

  lemma AddedTrans(a: set<Ref>, b: set<Ref>, c: set<Ref>, i: nat, x: bool, y: bool, z: bool)
    requires Added(a, b, i, x, y) && Added(b, c, i, y, z)
    ensures Added(a, c, i, x, z)
  {
    HaveGrows(a, b, i, LEVELS, 0);
    HaveGrows(a, b, 0, LEVELS, 0);
    HaveGrows(b, c, i, LEVELS, 0);
    HaveGrows(b, c, 0, LEVELS, 0);
  }

  /** The tree is no taller than it was or than index i needs. */
  ghost predicate NotTaller(t: Tree, u: Tree, i: nat) {
    u.head.Inner? ==>
      || u.head.ref.level == 0
      || Pow(u.head.ref.level) <= i
      || (t.head.Inner? && u.head.ref.level <= t.head.ref.level)
  }

  /** Making room changed no entry and no mark; the tree has only nodes that were there or were needed. */
  ghost predicate Grew(t: Tree, u: Tree, i: nat, was: bool, now: bool) {
    && Shape(t) && Shape(u) && SameContents(t, u)
    && Added(t.nodes.Keys, u.nodes.Keys, i, was, now)
    && NotTaller(t, u, i)
  }

  lemma GrewTrans(a: Tree, b: Tree, c: Tree, i: nat, x: bool, y: bool, z: bool)
    requires Grew(a, b, i, x, y) && Grew(b, c, i, y, z)
    ensures Grew(a, c, i, x, z)
  {
    AddedTrans(a.nodes.Keys, b.nodes.Keys, c.nodes.Keys, i, x, y, z);
    if c.head.Inner? && b.head.Inner? && c.head.ref.level <= b.head.ref.level {
      PowMono(c.head.ref.level, b.head.ref.level);
    }
    forall j: nat
      ensures Get(c, j) == Get(a, j)
    {
      assert Get(c, j) == Get(b, j);
    }
    forall j: nat, g: nat | g < TAGS
      ensures TagAt(c, j, g) <==> TagAt(a, j, g)
    {
      assert TagAt(c, j, g) <==> TagAt(b, j, g);
    }
  }

  /** One more node. */
  lemma GrewOne(t: Tree, u: Tree, i: nat, level: nat, was: bool, now: bool)
    requires Shape(t) && Shape(u) && SameContents(t, u) && NotTaller(t, u, i) && level < LEVELS && (was == now || was)
    requires exists r :: r !in t.nodes && u.nodes.Keys == t.nodes.Keys + {r} && (r == At(i, level) || r == At(0, level))
    ensures Grew(t, u, i, was, now)
  {
    RoomShrinks(t.nodes.Keys, u.nodes.Keys, i, level);
  }

  /** There is no slot for index i: no leaf over it, and no head that could hold it. The head of an empty
      array holds an entry at index 0, but not a reserved one. */
  ghost predicate SlotMissing(t: Tree, i: nat, reserved: bool) {
    At(i, 0) !in t.nodes && (i == 0 && !t.head.Inner? ==> t.head.Empty? && reserved)
  }

  /** Index i now holds e, and nothing else changed; with NULL its marks become the default ones. */
  ghost predicate Stored(t: Tree, u: Tree, i: nat, e: Entry)
    requires Shape(t) && Shape(u)
  {
    && u.trackFree == t.trackFree
    && (forall j: nat {:trigger Get(u, j)} :: Get(u, j) == if j == i then e else Get(t, j))
    && (forall j: nat, g: nat {:trigger TagAt(u, j, g)} :: g < TAGS ==>
          (TagAt(u, j, g) <==> if j == i && e.Empty? then Default(t, g) else TagAt(t, j, g)))
  }

  /** One round of xas_find_marked: found, beyond the maximum, go on, or out of the tree. */
  datatype Seek = Hit | Past | On | Out

  class XaState {
    const xa: XArray
    var index: nat        // xa_index
    var at: Position      // xa_node
    var offset: nat       // xa_offset
    var alloc: bool       // xa_alloc holds a spare node

    /** A cursor at a node stands on the way to its index. */
    ghost predicate OnPath()
      reads this, xa
    {
      && xa.Valid()
      && index < WORD
      && (at.In? ==> xa.head.Inner? && at.ref in xa.nodes && at.ref == At(index, at.ref.level)
                     && offset == Digit(index, at.ref.level) && NodeShape(xa.View(), at.ref))
    }

    /** Between operations; then a cursor at the head has no node below it. */
    ghost predicate Valid()
      reads this, xa
    {
      OnPath() && (at.Head? ==> !xa.head.Inner? && index == 0)
    }

    /** Standing at the slot of its index. */
    ghost predicate AtSlot()
      reads this, xa
    {
      Valid() && (at.In? || at.Head?) && SlotOf(xa.View(), index, at.Node(), offset)
    }

    /** XA_STATE. */
    constructor (xa: XArray, index: nat)
      requires xa.Valid() && index < WORD
      ensures Valid() && this.xa == xa && this.index == index && at == Restart && !alloc
    {
      this.xa, this.index, at, offset, alloc := xa, index, Restart, 0, false;
    }

    /** The nodes there are, or that can be had. */
    ghost function Memory(): nat
      reads this, xa
    {
      |xa.nodes| + xa.quick + xa.slow + if alloc then 1 else 0
    }

    // ----- loading

    /** xas_reload. */
    method Reload() returns (entry: Entry)
      requires OnPath() && (at.In? || at.Head?)
      ensures entry == SlotEntry(xa.View(), at.Node(), offset)
    {
      entry := if at.In? then xa.nodes[at.ref].slots[offset] else xa.head;
    }

    /** xas_start. */
    method Start() returns (entry: Entry)
      requires Valid()
      modifies this`at
      ensures OnPath()
      ensures old(at).Failed? ==> at == old(at) && entry.Empty?
      ensures old(at).In? || old(at).Head? ==> at == old(at)
      ensures at.In? || at.Head? ==> entry == SlotEntry(xa.View(), at.Node(), offset)
      ensures at.Head? ==> index <= MaxIndex(xa.head)
      ensures at.Bounds? ==> entry.Empty? && index > MaxIndex(xa.head)
      ensures !at.Restart? && (at.Failed? ==> old(at).Failed?) && (at.In? ==> old(at).In?)
    {
      if !at.Invalid?() {
        entry := Reload();
        return;
      }
      if at.Failed? { return Empty; }
      entry := xa.head;
      if !entry.Inner? {
        if index != 0 {
          at := Bounds;
          return Empty;
        }
      } else {
        assert NodeShape(xa.View(), entry.ref);
        BlockZero(index, entry.ref.level + 1);
        if Block(index, xa.nodes[entry.ref].level) > CHUNK - 1 {
          at := Bounds;
          return Empty;
        }
      }
      at := Head;
    }

    /** A walk towards index has come to the slot the cursor stands at, which holds entry. */
    ghost predicate Walking(entry: Entry)
      reads this, xa
    {
      && OnPath() && (at.In? || at.Head?)
      && entry == SlotEntry(xa.View(), at.Node(), offset)
      && (entry.Inner? ==> entry.ref in xa.nodes && entry.ref == At(index, entry.ref.level))
    }

    lemma WalkingSlot(entry: Entry)
      requires OnPath() && (at.In? || at.Head?) && entry == SlotEntry(xa.View(), at.Node(), offset)
      requires at.Head? ==> index <= MaxIndex(xa.head)
      ensures Walking(entry)
    {
      if at.In? {
        if at.ref.level > 0 { UpAt(index, at.ref.level); }
      } else if xa.head.Inner? {
        HeadCovers(xa.View(), index);
      }
    }

    /** xas_descend. */
    method Descend(r: Ref) returns (entry: Entry)
      requires xa.Valid() && index < WORD && xa.head.Inner? && r in xa.nodes && r == At(index, r.level)
      modifies this`at, this`offset
      ensures Walking(entry) && at == In(r)
      ensures entry.Inner? ==> entry.ref.level < r.level
    {
      assert NodeShape(xa.View(), r);
      at, offset := In(r), Digit(index, xa.nodes[r].level);
      entry := xa.nodes[r].slots[offset];
      WalkingSlot(entry);
    }

    /** Where a walk ends is where its index is, or where nothing is stored below. */
    lemma WalkEnds(entry: Entry)
      requires Walking(entry) && !entry.Inner? && (at.Head? ==> index <= MaxIndex(xa.head))
      ensures Valid() && entry == Get(xa.View(), index)
      ensures ReachedSlot(xa.View(), index, at.Node(), offset) && SlotEntry(xa.View(), at.Node(), offset) == entry
    {
      if at.In? && at.ref.level > 0 {
        BlockSplit(index, at.ref.level);
        NoLeafBelow(xa.View(), at.ref, offset, index);
      }
    }

    /** xas_load. */
    method Load() returns (entry: Entry)
      requires Valid()
      modifies this`at, this`offset
      ensures Valid() && !at.Restart?
      ensures if old(at).Failed? then at == old(at) && entry.Empty? else !at.Failed? && entry == Get(xa.View(), index)
      ensures at.Bounds? ==> entry.Empty? && index > MaxIndex(xa.head)
      ensures !entry.Empty? ==> AtSlot()
      ensures at.In? || at.Head? ==>
                ReachedSlot(xa.View(), index, at.Node(), offset) && SlotEntry(xa.View(), at.Node(), offset) == entry
    {
      entry := Start();
      if at.Bounds? { NothingBeyond(xa.View(), index); }
      if !at.Invalid?() { WalkingSlot(entry); }
      while entry.Inner?
        invariant if at.Invalid?() then
                    && Valid() && entry.Empty? && !at.Restart? && (old(at).Failed? <==> at.Failed?) && (at.Failed? ==> at == old(at))
                    && (at.Bounds? ==> index > MaxIndex(xa.head) && Get(xa.View(), index).Empty?)
                  else
                    !old(at).Failed? && Walking(entry) && (at.Head? ==> index <= MaxIndex(xa.head))
        decreases if entry.Inner? then entry.ref.level + 1 else 0
      {
        var r := entry.ref;
        entry := Descend(r);
        if xa.nodes[r].level == 0 { break; }
      }
      if !at.Invalid?() { WalkEnds(entry); }
    }

    // ----- making a slot

    /** xas_alloc, up to linking the node: the spare node, or a fresh allocation. */
    method Alloc() returns (ok: bool)
      modifies this`at, this`alloc, xa`quick
      ensures ok ==> at == old(at) && Memory() == old(Memory()) - 1
      ensures !ok ==> at == Failed(ENOMEM) && !old(alloc) && xa.quick == old(xa.quick) == 0
      ensures alloc != old(alloc) ==> ok && old(alloc)
    {
      if alloc {
        alloc := false;
        return true;
      }
      ok := xa.quick > 0;
      if ok { xa.quick := xa.quick - 1; } else { at := Failed(ENOMEM); }
    }

    /** The levels an empty tree needs for index. */
    method LevelsFor(index: nat) returns (levels: nat)
      requires 0 < index < WORD
      ensures 0 < levels <= LEVELS && index < Pow(levels) && (levels == 1 || Pow(levels - 1) <= index)
    {
      var shift := 0;
      PowWord();
      while Block(index, shift) >= CHUNK
        invariant shift < LEVELS && Pow(shift) <= index
        decreases LEVELS - shift
      {
        BlockSplit(index, shift);
        BlockZero(index, shift + 1);
        shift := shift + 1;
      }
      BlockSplit(index, shift);
      BlockZero(index, shift + 1);
      levels := shift + 1;
    }

    /** xas_expand has raised the tree, which was t0, to levels levels. */
    ghost predicate Raising(t0: Tree, was: bool, head: Entry, levels: nat)
      reads this, xa
    {
      && xa.Valid() && Grew(t0, xa.View(), index, was, alloc)
      && at == Head && head == xa.head && !head.Empty? && levels == NewTop(head).level <= LEVELS
    }

    /** One round of xas_expand, which began with tree t0. */
    method PushAlloc(shift: nat, ghost t0: Tree, ghost was: bool) returns (ok: bool)
      requires xa.Valid() && at == Head && !xa.head.Empty? && shift == NewTop(xa.head).level < LEVELS
      requires MaxIndex(xa.head) < index < WORD && Grew(t0, xa.View(), index, was, alloc)
      modifies this`at, this`alloc, xa
      ensures xa.Valid() && Grew(t0, xa.View(), index, was, alloc)
      ensures Memory() == old(Memory()) && (!ok ==> xa.quick == 0)
      ensures ok ==> at == Head && xa.head == Inner(Ref(shift, 0))
      ensures !ok ==> at == Failed(ENOMEM) && !alloc && xa.head == old(xa.head) && Get(t0, index).Empty? && At(index, 0) !in xa.nodes
    {
      ghost var t, now := xa.View(), alloc;
      NotYetThere(t0, t);
      ok := Alloc();
      if ok {
        ghost var next := alloc;
        PushFresh(shift, now);
        GrewTrans(t0, t, xa.View(), index, was, now, next);
      }
    }

    /** There, with the new node allocated. */
    method PushFresh(shift: nat, ghost was: bool)
      requires xa.Valid() && !xa.head.Empty? && shift == NewTop(xa.head).level < LEVELS
      requires MaxIndex(xa.head) < index < WORD && (was == alloc || was)
      modifies xa
      ensures xa.Valid() && Grew(old(xa.View()), xa.View(), index, was, alloc) && xa.head == Inner(Ref(shift, 0))
      ensures Memory() == old(Memory()) + 1
    {
      ghost var t := xa.View();
      GrowInv(t, false);
      xa.PushRoot(shift);
      TopOfZero(shift);
      GrewOne(t, xa.View(), index, shift, was, alloc);
    }

    /** A tree that cannot hold the index is not of full height. */
    lemma RoomAbove(head: Entry)
      requires index < WORD && index > MaxIndex(head) && NewTop(head).level <= LEVELS
      ensures NewTop(head).level < LEVELS && index > 0
    {
      PowWord();
    }

    /** Nothing is stored at an index beyond the tree, nor was before the tree grew. */
    lemma NotYetThere(t0: Tree, t: Tree)
      requires Shape(t0) && Shape(t) && SameContents(t0, t) && index > MaxIndex(t.head)
      requires Inv(t, false)
      ensures Get(t0, index).Empty? && At(index, 0) !in t.nodes
    {
      NothingBeyond(t, index);
      assert Get(t, index) == Get(t0, index);
      if t.head.Inner? && At(index, 0) in t.nodes { LeafInRange(t, index); }
      assert !t.head.Inner? ==> forall r :: r in t.nodes ==> NodeShape(t, r);
    }

    /** xas_expand: raise the tree until it can hold index. None is -ENOMEM. */
    method Expand() returns (levels: Option<nat>)
      requires OnPath() && at.Head?
      modifies this`at, this`alloc, xa
      ensures xa.Valid() && Grew(old(xa.View()), xa.View(), index, old(alloc), alloc)
      ensures levels == None ==> at == Failed(ENOMEM) && !alloc && Get(old(xa.View()), index).Empty?
      ensures levels == None ==> At(index, 0) !in xa.nodes && index > 0
      ensures Memory() == old(Memory()) && (levels == None ==> xa.quick == 0)
      ensures levels.Some? && index == 0 && !old(xa.head.Inner?) ==> levels.value == 0 && xa.head == old(xa.head)
      ensures levels.Some? ==> levels.value <= LEVELS && Walked(xa.View(), index, None, 0, levels.value)
      ensures levels.Some? ==> if old(xa.head).Empty? then at == Head && xa.head.Empty?
                               else !xa.head.Empty? && (levels.value == 0 ==> at == Head) && !at.Invalid?()
      ensures levels.Some? && xa.head.Empty? ==> levels.value <= 1 || Pow(levels.value - 1) <= index
    {
      var head := xa.head;
      if head.Empty? {
        if index == 0 {
          BlockZero(index, 0);
          return Some(0);
        }
        var shift := LevelsFor(index);
        BlockZero(index, shift);
        return Some(shift);
      }
      levels := Raise(xa.View(), alloc);
      if levels.Some? { BlockZero(index, levels.value); }
    }

    /** The loop of xas_expand, which began with tree t0: from the old root up to one that can hold index. */
    method Raise(ghost t0: Tree, ghost was: bool) returns (levels: Option<nat>)
      requires Raising(t0, was, xa.head, NewTop(xa.head).level) && index < WORD
      modifies this`at, this`alloc, xa
      ensures xa.Valid() && Grew(t0, xa.View(), index, was, alloc) && !xa.head.Empty?
      ensures levels == None ==> at == Failed(ENOMEM) && !alloc && Get(t0, index).Empty? && At(index, 0) !in xa.nodes && index > 0
      ensures index == 0 ==> xa.head == old(xa.head)
      ensures Memory() == old(Memory()) && (levels == None ==> xa.quick == 0)
      ensures levels.Some? ==> levels.value == NewTop(xa.head).level <= LEVELS && index <= MaxIndex(xa.head)
      ensures levels.Some? ==> at == if xa.head.Inner? then In(xa.head.ref) else Head
    {
      var head, node, shift := xa.head, None, 0;
      if head.Inner? {
        assert NodeShape(xa.View(), head.ref);
        node := Some(head.ref);
        shift := xa.nodes[head.ref].level + 1;
      }
      while index > MaxIndex(head)
        invariant index == 0 ==> xa.head == old(xa.head)
        invariant Memory() == old(Memory())
        invariant Raising(t0, was, head, shift) && node == if head.Inner? then Some(head.ref) else None
        decreases LEVELS - shift
      {
        RoomAbove(head);
        var ok := PushAlloc(shift, t0, was);
        if !ok { return None; }
        node := Some(Ref(shift, 0));
        head := xa.head;
        shift := shift + 1;
      }
      at := if node.Some? then In(node.value) else Head;
      return Some(shift);
    }

    /** One round of the loop of xas_create: one level down, into the child in the slot where the walk
        stands or into a fresh one. */
    method EnterChild(level: nat, slot: Option<Ref>, entry0: Entry) returns (ok: bool, entry: Entry)
      requires xa.Valid() && index < WORD && level < LEVELS && Walked(xa.View(), index, slot, offset, level + 1)
      requires entry0 == SlotEntry(xa.View(), slot, offset) && !at.Invalid?()
      requires slot == None && entry0.Empty? ==> level == 0 || Pow(level) <= index
      modifies this`at, this`offset, this`alloc, xa
      ensures xa.Valid() && Grew(old(xa.View()), xa.View(), index, old(alloc), alloc)
      ensures ok ==> Walking(entry) && at == In(At(index, level))
      ensures Memory() == old(Memory()) && (!ok ==> xa.quick == 0)
      ensures !ok ==> at == Failed(ENOMEM) && !alloc && entry.Empty? && entry0.Empty? && At(index, 0) !in xa.nodes
    {
      ghost var t := xa.View();
      var r;
      entry := entry0;
      NoLeafThere(t, index, slot, offset, level);
      if entry.Empty? {
        ok := Alloc();
        if !ok { return; }
        xa.LinkFresh(index, level, slot, offset);
        GrewOne(t, xa.View(), index, level, old(alloc), alloc);
        r := At(index, level);
      } else {
        assert entry.Inner? by { assert slot.Some? ==> NodeShape(t, slot.value); }
        r := entry.ref;
      }
      WalkDown(xa.View(), index, slot, offset, level);
      entry := Descend(r);
      ok := true;
    }

    /** xas_create has come to the slot (slot, offset), or to the head, with shift levels to go; the
        slot holds entry. The tree was t0, and was tells whether there was a spare node. */
    ghost predicate Making(t0: Tree, was: bool, slot: Option<Ref>, shift: nat, entry: Entry)
      reads this, xa
    {
      && shift <= LEVELS && xa.Valid() && index < WORD && !at.Invalid?()
      && Grew(t0, xa.View(), index, was, alloc)
      && match slot
         case Some(r) => at == In(r) && Walking(entry) && r.level == shift
         case None =>
           && entry == xa.head
           && (shift == 0 ==> at == Head)
           && (entry.Item?() ==> at == Head && index == 0)
           && (!entry.Item?() ==> Walked(xa.View(), index, None, 0, shift))
           && (entry.Empty? ==> shift <= 1 || Pow(shift - 1) <= index)
    }

    lemma MadeSlot(t0: Tree, was: bool, slot: Option<Ref>, shift: nat, entry: Entry)
      requires Making(t0, was, slot, shift, entry) && (shift == 0 || entry.Item?())
      ensures AtSlot() && entry == Get(t0, index)
    {
      assert entry == Get(xa.View(), index);
    }

    lemma MakingEmpty(t0: Tree, was: bool, slot: Option<Ref>, shift: nat, entry: Entry)
      requires Making(t0, was, slot, shift, entry) && shift > 0 && entry.Empty?
      ensures Get(t0, index).Empty?
    {
      EmptySlotBelow(xa.View(), index, slot, offset, shift - 1);
      assert Get(xa.View(), index).Empty?;
    }

    /** Where xas_create begins: at the cursor, or at the head of a tree that is high enough. */
    method CreateStart(allowRoot: bool) returns (ok: bool, slot: Option<Ref>, shift: nat, entry: Entry)
      requires Valid() && !at.Failed?
      modifies this`at, this`alloc, xa
      ensures ok ==> Making(old(xa.View()), old(alloc), slot, shift, entry)
      ensures !ok ==> Valid() && at == Failed(ENOMEM) && !alloc && Get(old(xa.View()), index).Empty?
      ensures !ok ==> At(index, 0) !in xa.nodes && index > 0
      ensures Memory() == old(Memory()) && (!ok ==> xa.quick == 0)
      ensures ok && index == 0 && !old(xa.head.Inner?) && (allowRoot || !old(xa.head.Empty?)) ==> shift == 0 || entry.Item?()
      ensures Grew(old(xa.View()), xa.View(), index, old(alloc), alloc)
    {
      ok, slot := true, at.Node();
      if at.Top?() {
        at := Head;
        var levels := Expand();
        if levels == None { return false, None, 0, Empty; }
        shift := levels.value;
        if shift == 0 && !allowRoot {
          shift := 1;
          BlockSplit(index, 0);
        }
        entry := xa.head;
      } else {
        shift := xa.nodes[at.ref].level;
        entry := Reload();
        WalkingSlot(entry);
      }
    }

    /** One round of the loop of xas_create. */
    method MakeRound(slot: Option<Ref>, shift: nat, entry0: Entry, ghost t0: Tree, ghost was: bool)
      returns (ok: bool, entry: Entry)
      requires Making(t0, was, slot, shift + 1, entry0) && !entry0.Item?()
      modifies this`at, this`offset, this`alloc, xa
      ensures ok ==> Making(t0, was, at.Node(), shift, entry) && at.In?
      ensures !ok ==> Valid() && at == Failed(ENOMEM) && !alloc && entry.Empty? && Grew(t0, xa.View(), index, was, alloc)
                      && Get(t0, index).Empty? && At(index, 0) !in xa.nodes
      ensures Memory() == old(Memory()) && (!ok ==> xa.quick == 0)
    {
      ghost var t, now := xa.View(), alloc;
      if entry0.Empty? { MakingEmpty(t0, was, slot, shift + 1, entry0); }
      ok, entry := EnterChild(shift, slot, entry0);
      GrewTrans(t0, t, xa.View(), index, was, now, alloc);
      if ok { Entered(t0, was, shift, entry); }
    }

    lemma Entered(t0: Tree, was: bool, shift: nat, entry: Entry)
      requires shift < LEVELS && Walking(entry) && at == In(At(index, shift)) && Grew(t0, xa.View(), index, was, alloc)
      ensures Making(t0, was, at.Node(), shift, entry)
    {
    }

    /** xas_create: the slot for index, made if necessary, and what it holds. */
    method Create(allowRoot: bool) returns (entry: Entry)
      requires Valid()
      modifies this`at, this`offset, this`alloc, xa
      ensures Valid() && Grew(old(xa.View()), xa.View(), index, old(alloc), alloc)
      ensures old(at).Failed? ==> at == old(at) && entry.Empty?
      ensures at.Failed? && !old(at).Failed? ==>
                at == Failed(ENOMEM) && !alloc && entry.Empty? && Get(old(xa.View()), index).Empty?
      ensures at.Failed? && !old(at).Failed? ==> SlotMissing(old(xa.View()), index, !allowRoot)
      ensures Memory() == old(Memory()) && (at.Failed? && !old(at).Failed? ==> xa.quick == 0)
      ensures !at.Failed? ==> AtSlot() && entry == Get(old(xa.View()), index)
    {
      if at.Failed? { return Empty; }
      var ok, slot, shift;
      ok, slot, shift, entry := CreateStart(allowRoot);
      if !ok { return Empty; }
      entry := CreateDown(slot, shift, entry, old(xa.View()), old(alloc));
    }

    /** The loop of xas_create, which began with tree t0. */
    method CreateDown(slot0: Option<Ref>, shift0: nat, entry0: Entry, ghost t0: Tree, ghost was: bool) returns (entry: Entry)
      requires Making(t0, was, slot0, shift0, entry0)
      modifies this`at, this`offset, this`alloc, xa
      ensures Valid() && Grew(t0, xa.View(), index, was, alloc) && Memory() == old(Memory())
      ensures at.Failed? ==>
                && at == Failed(ENOMEM) && !alloc && xa.quick == 0 && entry.Empty? && Get(t0, index).Empty?
                && At(index, 0) !in xa.nodes && !(shift0 == 0 || entry0.Item?())
      ensures !at.Failed? ==> AtSlot() && entry == Get(t0, index)
    {
      var slot, shift := slot0, shift0;
      entry := entry0;
      while shift > 0
        invariant Making(t0, was, slot, shift, entry) && Memory() == old(Memory())
        invariant shift0 == 0 || entry0.Item?() ==> shift == shift0 && entry == entry0
      {
        if entry.Item?() { break; }
        shift := shift - 1;
        var ok;
        ok, entry := MakeRound(slot, shift, entry, t0, was);
        if !ok { return; }
        slot := at.Node();
      }
      MadeSlot(t0, was, slot, shift, entry);
    }

    /** xas_nomem: after -ENOMEM, get the spare node for another try. */
    method Nomem() returns (again: bool)
      modifies this`at, this`alloc, xa`slow
      ensures again <==> old(at) == Failed(ENOMEM) && old(xa.slow) > 0
      ensures again ==> at == Restart && alloc && (!old(alloc) ==> Memory() == old(Memory()))
      ensures !again ==> at == old(at) && xa.slow == old(xa.slow)
      ensures at == Failed(ENOMEM) ==> alloc == old(alloc)
    {
      if at != Failed(ENOMEM) {
        alloc := false;
        return false;
      }
      again := xa.slow > 0;
      if again {
        xa.slow := xa.slow - 1;
        alloc := true;
        at := Restart;
      }
    }

    // ----- removing nodes

    /** The root is needed: it counts more than one, or its one entry is not in slot 0. */
    ghost predicate Lowest()
      reads this, xa
    {
      xa.head.Inner? ==>
        && xa.head.ref in xa.nodes && |xa.nodes[xa.head.ref].slots| == CHUNK
        && (xa.nodes[xa.head.ref].count != 1 || xa.nodes[xa.head.ref].slots[0].Empty?)
    }

    /** xas_shrink: while the root holds one entry, in slot 0, that becomes the head. */
    method Shrink()
      requires Valid() && at.In? && xa.head == Inner(at.ref)
      modifies this`at, xa
      ensures xa.Valid() && SameContents(old(xa.View()), xa.View()) && NotTaller(old(xa.View()), xa.View(), index)
      ensures at == Bounds || (at == old(at) && xa.View() == old(xa.View()))
      ensures Lowest()
    {
      var node := at.ref;
      while true
        invariant xa.Valid() && SameContents(old(xa.View()), xa.View()) && NotTaller(old(xa.View()), xa.View(), index)
        invariant xa.head == Inner(node)
        invariant at == Bounds || (at == old(at) && xa.View() == old(xa.View()))
        decreases node.level
      {
        HeadChild(xa.View());
        if xa.nodes[node].count != 1 { break; }
        var entry := xa.nodes[node].slots[0];
        if entry.Empty? { break; }
        if !entry.Inner? && node.level > 0 { break; }
        assert NodeOk(xa.View(), false, node);
        OneIsNarrow(xa.View(), false);
        at := Bounds;
        xa.PopRoot();
        if !entry.Inner? { break; }
        node := entry.ref;
      }
    }

    /** xas_delete_node: free the node if it counts nothing, then its parents, then lower the tree. */
    method DeleteNode()
      requires Valid() && at.In?
      modifies this`at, this`offset, xa
      ensures Valid() && SameContents(old(xa.View()), xa.View()) && NotTaller(old(xa.View()), xa.View(), index)
      ensures at.In? || at.Bounds?
      ensures at.In? ==> xa.nodes[at.ref].count != 0 && (xa.nodes[at.ref].parent == None ==> Lowest())
      ensures at.Bounds? ==> Lowest()
    {
      while true
        invariant Valid() && at.In?
        invariant SameContents(old(xa.View()), xa.View()) && xa.head == old(xa.head)
        decreases |xa.nodes.Keys|
      {
        var node := at.ref;
        if xa.nodes[node].count != 0 { break; }
        ghost var keys := xa.nodes.Keys;
        offset := xa.nodes[node].offset;
        var parent := xa.Unlink(node);
        assert keys == xa.nodes.Keys + {node};
        UpAt(index, node.level);
        if parent == None {
          at := Bounds;
          return;
        }
        at := In(parent.value);
        assert NodeShape(xa.View(), parent.value);
      }
      if xa.nodes[at.ref].parent == None { Shrink(); }
    }

    // ----- marks

    /** xas_set_mark. */
    method SetMark(mark: nat)
      requires AtSlot() && mark < TAGS && (at.Head? ==> xa.head.Item?())
      modifies xa`rootTags, xa`nodes
      ensures Shape(xa.View()) && TagsOk(xa.View()) && Marked(old(xa.View()), xa.View(), index, mark, true)
    {
      xa.SetMarkUp(at.Node(), mark, offset, index);
    }

    /** xas_clear_mark. Nothing happens without a slot. */
    method ClearMark(mark: nat)
      requires xa.Valid() && mark < TAGS && (!at.Invalid?() ==> AtSlot() && (at.Head? ==> xa.head.Item?()))
      modifies xa`rootTags, xa`nodes
      ensures Shape(xa.View()) && TagsOk(xa.View())
      ensures if at.Invalid?() then xa.View() == old(xa.View())
              else Marked(old(xa.View()), xa.View(), index, mark, false)
      ensures xa.nodes.Keys == old(xa.nodes.Keys)
    {
      if !at.Invalid?() {
        xa.ClearMarkUp(at.Node(), mark, offset, index);
      }
    }

    /** xas_init_marks. */
    method InitMarks()
      requires AtSlot() && (at.Head? ==> xa.head.Item?())
      modifies xa`rootTags, xa`nodes
      ensures AtSlot() && SameButTags(old(xa.View()), xa.View())
      ensures forall j: nat :: Get(xa.View(), j) == Get(old(xa.View()), j)
      ensures forall j: nat, g: nat :: g < TAGS ==>
                (TagAt(xa.View(), j, g) <==> if j == index then Default(xa.View(), g) else TagAt(old(xa.View()), j, g))
    {
      var mark := 0;
      while mark < TAGS
        invariant mark <= TAGS && AtSlot() && SameButTags(old(xa.View()), xa.View())
        invariant forall j: nat :: Get(xa.View(), j) == Get(old(xa.View()), j)
        invariant forall j: nat, g: nat :: g < TAGS ==>
                    (TagAt(xa.View(), j, g) <==> if j == index && g < mark then Default(xa.View(), g) else TagAt(old(xa.View()), j, g))
      {
        ghost var t := xa.View();
        if xa.trackFree && mark == 0 {
          SetMark(mark);
        } else {
          ClearMark(mark);
        }
        MarkPlain(t, xa.View(), index, mark, Default(t, mark));
        SameButTagsGet(t, xa.View());
        KeepsSlot(t);
        mark := mark + 1;
      }
    }

    /** A change of tags leaves the cursor where it is. */
    lemma KeepsSlot(t: Tree)
      requires Shape(t) && xa.Valid() && SameButTags(t, xa.View()) && index < WORD && (at.In? || at.Head?)
      requires SlotOf(t, index, at.Node(), offset)
      ensures AtSlot()
    {
      if at.In? { assert NodeShape(xa.View(), at.ref); }
    }

    // ----- storing

    /** The write to a node's slot, and the counts of update_node. */
    method WriteSlot(entry: Entry, count: int, values: int)
      requires at.In? && at.ref in xa.nodes && offset < |xa.nodes[at.ref].slots|
      modifies xa`nodes
      ensures xa.View() == PutSlot(old(xa.View()), at.ref, offset, entry, count, values)
    {
      var n := xa.nodes[at.ref];
      xa.nodes := xa.nodes[at.ref := n.(slots := n.slots[offset := entry], count := n.count + count, nrValues := n.nrValues + values)];
    }

    /** The write of xas_store, with update_node: entry replaces first in the slot. */
    method PutEntry(entry: Entry, first: Entry)
      requires AtSlot() && (entry.Empty? || entry.Item?()) && first == Get(xa.View(), index) && first != entry
      requires entry.Empty? ==> forall g: nat :: g < TAGS ==> TagAt(xa.View(), index, g) == Default(xa.View(), g)
      modifies this`at, this`offset, xa
      ensures Valid() && Stored(old(xa.View()), xa.View(), index, entry) && NotTaller(old(xa.View()), xa.View(), index)
      ensures !at.Failed? && !at.Restart? && (!entry.Empty? ==> AtSlot() && at == old(at))
      ensures entry.Empty? && at.In? ==> xa.nodes[at.ref].count != 0 && (xa.nodes[at.ref].parent == None ==> Lowest())
    {
      ghost var t := xa.View();
      if at.Head? {
        PutHeadPre(t, index, entry);
        PutHeadOk(t, false, entry);
        xa.head := entry;
        assert xa.View() == t.(head := entry);
        return;
      }
      var node := at.ref;
      var count := (if entry.Empty? then 0 else 1) - (if first.Empty? then 0 else 1);
      var values := (if entry.Value? then 1 else 0) - (if first.Value? then 1 else 0);
      PutSlotPlain(t, index, entry);
      WriteSlot(entry, count, values);
      ghost var u := xa.View();
      assert NodeShape(u, node);
      assert Stored(t, u, index, entry);
      if count < 0 {
        DeleteNode();
        StoredSame(t, u, xa.View(), index, entry);
      }
    }

    /** How xas_store finds the slot: xas_create for an entry, xas_load for NULL. */
    method Locate(entry: Entry) returns (first: Entry)
      requires Valid() && (entry.Empty? || entry.Item?())
      modifies this`at, this`offset, this`alloc, xa
      ensures Valid() && Grew(old(xa.View()), xa.View(), index, old(alloc), alloc)
      ensures old(at).Failed? ==> at == old(at) && first.Empty?
      ensures at.Failed? && !old(at).Failed? ==>
                at == Failed(ENOMEM) && !alloc && first.Empty? && !entry.Empty? && Get(old(xa.View()), index).Empty?
      ensures at.Failed? && !old(at).Failed? ==> SlotMissing(old(xa.View()), index, entry.Zero?)
      ensures Memory() == old(Memory()) && (at.Failed? && !old(at).Failed? ==> xa.quick == 0)
      ensures !at.Failed? ==> first == Get(old(xa.View()), index) && (first != entry ==> AtSlot())
      ensures !at.Failed? && !entry.Empty? ==> AtSlot()
    {
      if !entry.Empty? {
        first := Create(!entry.Zero?);
      } else {
        first := Load();
        if !first.Empty? && at.In? { assert NodeShape(xa.View(), at.ref); }
        if at.Bounds? { NothingBeyond(xa.View(), index); }
      }
    }

    /** xas_store. */
    method Store(entry: Entry) returns (first: Entry)
      requires Valid() && (entry.Empty? || entry.Item?())
      modifies this`at, this`offset, this`alloc, xa
      ensures Valid() && NotTaller(old(xa.View()), xa.View(), index)
      ensures old(at).Failed? ==> at == old(at) && first.Empty? && Grew(old(xa.View()), xa.View(), index, old(alloc), alloc)
      ensures at.Failed? && !old(at).Failed? ==>
                && at == Failed(ENOMEM) && !alloc && first.Empty? && !entry.Empty? && Get(old(xa.View()), index).Empty?
                && Grew(old(xa.View()), xa.View(), index, old(alloc), alloc) && SlotMissing(old(xa.View()), index, entry.Zero?)
      ensures at.Failed? ==> Memory() == old(Memory()) && (!old(at).Failed? ==> xa.quick == 0)
      ensures !at.Failed? ==> first == Get(old(xa.View()), index) && Stored(old(xa.View()), xa.View(), index, entry)
      ensures !at.Failed? && !entry.Empty? ==> AtSlot()
      ensures entry.Empty? && at.In? && !first.Empty? ==>
                xa.nodes[at.ref].count != 0 && (xa.nodes[at.ref].parent == None ==> Lowest())
    {
      ghost var t := xa.View();
      first := Locate(entry);
      ghost var u := xa.View();
      if at.Failed? { return; }
      EmptyIsDefault(u, index);
      if at.Invalid?() || first == entry {
        StoredNone(t, u, index, entry);
        return;
      }
      assert Get(u, index) == first;
      if entry.Empty? { InitMarks(); }
      ghost var v := xa.View();
      PutEntry(entry, first);
      StoredAfter(t, u, v, xa.View(), index, entry);
      NotTallerTrans(t, u, v, xa.View(), index);
    }

    // ----- finding

    /** xas_move_index, for the slot the cursor is being moved to. */
    method MoveIndex(o: nat)
      requires at.In? && at.ref in xa.nodes && xa.nodes[at.ref].level == at.ref.level
      modifies this`index
      ensures index == NextIndex(old(index), at.ref.level, o) < WORD
    {
      var level := xa.nodes[at.ref].level;
      index := (Block(index, level + 1) * Pow(level + 1) + o * Pow(level)) % WORD;
    }

    /** The search of xas_find that began at s has come to slot (node, offset), where index to begins. */
    ghost predicate Finding(s: nat, to: nat)
      reads this, xa
    {
      && xa.Valid() && s <= to <= WORD && index == to % WORD
      && at.In? && at.ref in xa.nodes && offset <= CHUNK && to == SlotIndex(at.ref, offset)
      && NoneStored(xa.View(), s, to)
    }

    /** xas_advance, from a slot with nothing more to find. */
    method Advance(ghost s: nat) returns (ghost to: nat)
      requires OnPath() && at.In? && s <= index + 1 && NoneStored(xa.View(), s, index)
      requires xa.nodes[at.ref].slots[offset].Empty? || (s == index + 1 && at.ref.level == 0)
      modifies this`index, this`offset
      ensures Finding(s, to) && to > old(index)
    {
      var r := at.ref;
      assert NodeShape(xa.View(), r);
      to := SlotIndex(r, offset + 1);
      SkipTo(index, r, offset + 1);
      BlockSplit(index, r.level);
      if xa.nodes[r].slots[offset].Empty? {
        PassEmpty(xa.View(), r, offset, index);
      }
      assert NoneStored(xa.View(), s, to) by {
        if s == index + 1 && r.level == 0 { assert to == index + 1; }
      }
      offset := offset + 1;
      MoveIndex(offset);
    }

    /** One round of the loop of xas_find: up from the end of a node, down into a child, or on past an
        empty slot. An entry ends the search. */
    method FindRound(ghost s: nat, ghost to: nat) returns (entry: Entry, ghost next: nat)
      requires Finding(s, to)
      modifies this`index, this`at, this`offset
      ensures !entry.Empty? ==> next == to == index == old(index) && AtSlot() && entry == Get(xa.View(), index) && !entry.Inner?
      ensures entry.Empty? && at.In? ==> Finding(s, next) && to <= next
      ensures entry.Empty? && at.In? && next == to ==> Phase(at.ref, offset) < Phase(old(at.ref), old(offset))
      ensures entry.Empty? && !at.In? ==> at.Head? && next == to == MaxIndex(xa.head) + 1 && index == old(index)
    {
      next := to;
      var r := at.ref;
      UpSlot(xa.View(), r);
      if offset == CHUNK {
        offset := xa.nodes[r].offset + 1;
        at := if xa.nodes[r].parent.Some? then In(xa.nodes[r].parent.value) else Head;
        return Empty, next;
      }
      SlotStart(xa.View(), r, offset, to);
      NodeInRange(xa.View(), r);
      SlotInWord(to, r, offset);
      entry := xa.nodes[r].slots[offset];
      if entry.Inner? {
        ChildStart(to, r, offset);
        at, offset := In(entry.ref), 0;
        return Empty, next;
      }
      if !entry.Empty? {
        assert to == index && r.level == 0;
        return entry, next;
      }
      next := Advance(s);
      entry := Empty;
    }

    /** The first index xas_find looks at: the current one for a fresh cursor, the one after it for a
        cursor that has been there. */
    ghost function SearchFrom(): nat
      reads this
    {
      if at.In? || at.Head? then index + 1 else index
    }

    /** xas_find: the next entry up to max. The cursor is fresh or has been moved only by these methods. */
    method Find(max: nat) returns (entry: Entry)
      requires Valid() && max < WORD
      requires at.In? ==> at.ref.level == 0 || xa.nodes[at.ref].slots[offset].Empty?
      modifies this`index, this`at, this`offset
      ensures xa.Valid()
      ensures old(at).Failed? || old(at).Bounds? ==> entry.Empty? && at == old(at) && index == old(index)
      ensures !entry.Empty? ==>
                && AtSlot() && old(SearchFrom()) <= index <= max && entry == Get(xa.View(), index)
                && NoneStored(xa.View(), old(SearchFrom()), index)
      ensures entry.Empty? && !old(at).Failed? && !old(at).Bounds? ==>
                NoneStored(xa.View(), old(SearchFrom()), max + 1)
    {
      ghost var s := SearchFrom();
      if at.Failed? || at.Bounds? { return Empty; }
      if index > max {
        at := Bounds;
        return Empty;
      }
      if at.Head? {
        NoneBeyond(xa.View(), s, max + 1);
        index, at := 1, Bounds;
        return Empty;
      }
      if at.Restart? {
        entry := Load();
        if !entry.Empty? || !at.In? {
          if entry.Empty? { NoneBeyondSlot(s, max + 1); }
          return;
        }
      }
      ghost var to := Advance(s);
      entry := FindOn(max, s, to);
    }

    /** The loop of xas_find, from the slot where index to begins. */
    method FindOn(max: nat, ghost s: nat, ghost to0: nat) returns (entry: Entry)
      requires Finding(s, to0) && max < WORD
      modifies this`index, this`at, this`offset
      ensures xa.Valid()
      ensures !entry.Empty? ==>
                AtSlot() && s <= index <= max && entry == Get(xa.View(), index) && NoneStored(xa.View(), s, index)
      ensures entry.Empty? ==> NoneStored(xa.View(), s, max + 1)
    {
      ghost var to := to0;
      while at.In? && index <= max
        invariant if at.In? then Finding(s, to)
                  else at.Head? && xa.Valid() && NoneStored(xa.View(), s, to) && to == MaxIndex(xa.head) + 1
        decreases WORD - to, if at.In? then 1 + Phase(at.ref, offset) else 0
      {
        entry, to := FindRound(s, to);
        if !entry.Empty? { return; }
      }
      if at.Head? {
        at := Bounds;
        NoneBeyond(xa.View(), to, max + 1);
        JoinNone(xa.View(), s, to, max + 1);
      }
      entry := Empty;
    }

    // ----- finding marks

    /** The search of xas_find_marked that began at s has come to index to. While advance is set the
        slot of the cursor itself, a leaf's, has been passed already. */
    ghost predicate Seeking(mark: nat, s: nat, to: nat, advance: bool)
      reads this, xa
    {
      && mark < TAGS && xa.Valid() && s <= to && NoneTagged(xa.View(), s, to, mark)
      && at.In? && at.ref in xa.nodes && offset <= CHUNK
      && (if advance then OnPath() && offset < CHUNK && at.ref.level == 0 && to == index + 1
          else if offset == CHUNK then index == to == SlotIndex(at.ref, CHUNK)
          else OnPath() && to == index)
    }

    /** What the search has not read yet is sound where it will be read. */
    ghost predicate Ahead(mark: nat, to: nat, advance: bool, max: nat)
      requires xa.Valid() && at.In? && at.ref in xa.nodes && mark < TAGS
      reads this, xa
    {
      var m, last := Marks(xa.View(), mark), MaxIndex(xa.head);
      assert NodeShape(xa.View(), at.ref);
      if advance then SoundUp(m, last, to, 0, max)
      else if offset == CHUNK then SoundUp(m, last, to, at.ref.level, max)
      else SoundRows(m, last, to, at.ref.level + 1, max)
    }

    /** xas_find_chunk, with find_next_bit() doing what it is meant to do. exact tells whether it does as
        written, whatever follows the row in memory. */
    method FindChunk(advance: bool, mark: nat) returns (o: nat, ghost exact: bool)
      requires at.In? && at.ref in xa.nodes && mark < |xa.nodes[at.ref].tags|
      ensures var row, b := xa.nodes[at.ref].tags[mark], if advance then offset + 1 else offset;
        o == NextBit(row, b, true) && exact == WrittenInRow(row, b)
    {
      var b := if advance then offset + 1 else offset;
      o := NextBit(xa.nodes[at.ref].tags[mark], b, true);
      exact := WrittenInRow(xa.nodes[at.ref].tags[mark], b);
    }

    /** Move on to slot o of the node, unless that is beyond max. Mind the wrap. */
    method JumpTo(max: nat, o: nat, ghost mark: nat, ghost s: nat) returns (past: bool, ghost next: nat)
      requires OnPath() && at.In? && offset < o <= CHUNK && mark < TAGS && s <= index + 1 && max < WORD
      requires NoneTagged(xa.View(), s, SlotIndex(at.ref, o), mark)
      modifies this`index, this`offset
      ensures next == SlotIndex(at.ref, o) > old(index)
      ensures past ==> next > max && index < WORD && (index > max || (index == 0 && MaxIndex(xa.head) == WORD - 1))
      ensures !past ==> Seeking(mark, s, next, false) && next <= max && offset == o
    {
      var r := at.ref;
      SlotInRange(xa.View(), r, o);
      WrapTo(index, r, o);
      next := SlotIndex(r, o);
      MoveIndex(o);
      past := (if index == 0 then WORD - 1 else index - 1) >= max;
      if !past {
        offset := o;
        if o < CHUNK { SlotStart(xa.View(), r, o, next); }
      }
    }

    /** The middle of the loop of xas_find_marked: on to the next marked slot of the node. */
    method SkipChunk(max: nat, mark: nat, ghost s: nat, ghost to: nat, advance: bool)
      returns (past: bool, ghost next: nat, ghost exact: bool)
      requires Seeking(mark, s, to, advance) && offset < CHUNK && index <= max < WORD
      modifies this`index, this`offset
      ensures old(Ahead(mark, to, advance, max)) <==>
                exact && (past || if offset < CHUNK then SoundRows(Marks(xa.View(), mark), MaxIndex(xa.head), next, at.ref.level, max)
                                  else SoundUp(Marks(xa.View(), mark), MaxIndex(xa.head), next, at.ref.level, max))
      ensures past ==> NoneTagged(xa.View(), s, max + 1, mark) && index < WORD && (index > max || (index == 0 && MaxIndex(xa.head) == WORD - 1))
      ensures !past ==> Seeking(mark, s, next, false) && to <= next <= max
      ensures !past && offset < CHUNK ==> xa.nodes[at.ref].tags[mark][offset]
      ensures !past && offset == CHUNK ==> advance || to < next
    {
      assert NodeShape(xa.View(), at.ref);
      var o;
      o, exact := FindChunk(advance, mark);
      past, next := false, to;
      ChunkAhead(mark, s, to, advance, max, o);
      if o > offset {
        SkipMarks(mark, s, to, advance, o);
        past, next := JumpTo(max, o, mark, s);
      }
    }

    /** What the row that is read next has to do with what follows. */
    lemma ChunkAhead(mark: nat, s: nat, to: nat, advance: bool, max: nat, o: nat)
      requires Seeking(mark, s, to, advance) && offset < CHUNK && NodeShape(xa.View(), at.ref)
      requires o == NextBit(xa.nodes[at.ref].tags[mark], if advance then offset + 1 else offset, true)
      ensures var m, last, next := Marks(xa.View(), mark), MaxIndex(xa.head), SlotIndex(at.ref, o);
        at.ref.level < LEVELS &&
        var exact := WrittenInRow(xa.nodes[at.ref].tags[mark], if advance then offset + 1 else offset);
        Ahead(mark, to, advance, max) <==>
          exact &&
          if o == offset then SoundRows(m, last, to, at.ref.level, max)
          else next > max || if o < CHUNK then SoundRows(m, last, next, at.ref.level, max)
                             else SoundUp(m, last, next, at.ref.level, max)
    {
      WrittenExactly(xa.nodes[at.ref].tags[mark], if advance then offset + 1 else offset);
      if advance { ChunkAdvance(mark, s, to, max, o); } else { ChunkHere(mark, s, to, max, o); }
    }

    lemma ChunkHere(mark: nat, s: nat, to: nat, max: nat, o: nat)
      requires Seeking(mark, s, to, false) && offset < CHUNK && NodeShape(xa.View(), at.ref)
      requires o == NextBit(xa.nodes[at.ref].tags[mark], offset, true)
      ensures at.ref.level < LEVELS
      ensures var m, last, next := Marks(xa.View(), mark), MaxIndex(xa.head), SlotIndex(at.ref, o);
        Ahead(mark, to, false, max) <==>
          RowSound(xa.nodes[at.ref].tags[mark], offset) &&
          if o == offset then SoundRows(m, last, to, at.ref.level, max)
          else next > max || if o < CHUNK then SoundRows(m, last, next, at.ref.level, max)
                             else SoundUp(m, last, next, at.ref.level, max)
    {
      RowIsMarks(xa.View(), at.ref, mark);
      EndOfNode(xa.View(), at.ref);
      RowStep(Marks(xa.View(), mark), MaxIndex(xa.head), index, at.ref.level, o, max);
    }

    lemma ChunkAdvance(mark: nat, s: nat, to: nat, max: nat, o: nat)
      requires Seeking(mark, s, to, true) && NodeShape(xa.View(), at.ref)
      requires o == NextBit(xa.nodes[at.ref].tags[mark], offset + 1, true)
      ensures at.ref.level < LEVELS
      ensures Ahead(mark, to, true, max) <==>
                && RowSound(xa.nodes[at.ref].tags[mark], offset + 1)
                && (SlotIndex(at.ref, o) > max || o < CHUNK || SoundUp(Marks(xa.View(), mark), MaxIndex(xa.head), SlotIndex(at.ref, o), 0, max))
    {
      RowIsMarks(xa.View(), at.ref, mark);
      EndOfNode(xa.View(), at.ref);
      BlockSplit(index, 0);
      assert Pow(0) == 1 && SlotIndex(at.ref, offset) == index;
      AdvanceStep(Marks(xa.View(), mark), MaxIndex(xa.head), at.ref, offset, to, o, max);
    }

    /** What the bits that were skipped say. */
    lemma SkipMarks(mark: nat, s: nat, to: nat, advance: bool, o: nat)
      requires Seeking(mark, s, to, advance) && offset < o <= CHUNK
      requires NodeShape(xa.View(), at.ref)
      requires forall p: nat :: (if advance then offset + 1 else offset) <= p < o ==> !xa.nodes[at.ref].tags[mark][p]
      ensures NoneTagged(xa.View(), s, SlotIndex(at.ref, o), mark) && to <= SlotIndex(at.ref, o)
      ensures SlotIndex(at.ref, o) <= SlotIndex(at.ref, CHUNK)
    {
      var r := at.ref;
      BlockSplit(index, r.level);
      MulMono(r.block * CHUNK + o, r.block * CHUNK + CHUNK, Pow(r.level));
      if advance {
        BlockSplit(index, 0);
        PassClear(xa.View(), mark, r, offset + 1, o, to);
      } else {
        PassClear(xa.View(), mark, r, offset, o, to);
        BlockAbove(index, r.level, r.block * CHUNK + o);
      }
    }

    /** Where a marked slot has no node below it, its index carries the mark; only the free mark can
        be on an empty slot. */
    lemma MarkedHere(mark: nat, entry: Entry)
      requires OnPath() && at.In? && mark < TAGS && xa.nodes[at.ref].tags[mark][offset]
      requires entry == xa.nodes[at.ref].slots[offset] && !entry.Inner?
      ensures Valid() && ReachedSlot(xa.View(), index, at.Node(), offset) && entry == Get(xa.View(), index)
      ensures TagAt(xa.View(), index, mark) && (if entry.Empty? then xa.trackFree && mark == 0 else AtSlot())
    {
      TagDown(xa.View(), index, at.ref, mark);
      WalkingSlot(entry);
      WalkEnds(entry);
      EmptyIsDefault(xa.View(), index);
    }

    /** A round of the loop of xas_find_marked at the end of a node: on to the next slot of its parent. */
    method SeekUp(max: nat, mark: nat, ghost s: nat, ghost to: nat) returns (out: bool)
      requires Seeking(mark, s, to, false) && index <= max < WORD && offset == CHUNK
      modifies this`at, this`offset
      ensures xa.Valid()
      ensures out ==> index == to == MaxIndex(xa.head) + 1 <= max && old(Ahead(mark, to, false, max))
      ensures !out ==> Seeking(mark, s, to, false) && (old(Ahead(mark, to, false, max)) <==> Ahead(mark, to, false, max))
      ensures !out ==> Phase(at.ref, offset) < Phase(old(at.ref), old(offset))
    {
      var r := at.ref;
      EndOfNode(xa.View(), r);
      UpSound(xa.View(), r, Marks(xa.View(), mark), max);
      offset := xa.nodes[r].offset + 1;
      at := if xa.nodes[r].parent.Some? then In(xa.nodes[r].parent.value) else Head;
      if at.Head? { return true; }
      UpSeeks(max, mark, s, r);
      return false;
    }

    /** The cursor has come from the end of node r to its parent. */
    lemma UpSeeks(max: nat, mark: nat, s: nat, r: Ref)
      requires xa.Valid() && mark < TAGS && r in xa.nodes && SlotIndex(r, CHUNK) == index <= max < WORD && s <= index
      requires NoneTagged(xa.View(), s, index, mark)
      requires at.In? && xa.nodes[r].parent == Some(at.ref) && offset == xa.nodes[r].offset + 1
      ensures Seeking(mark, s, index, false) && NodeShape(xa.View(), r) && r.level < LEVELS
      ensures Ahead(mark, index, false, max) <==> SoundUp(Marks(xa.View(), mark), MaxIndex(xa.head), index, r.level, max)
      ensures Phase(at.ref, offset) < Phase(r, CHUNK)
    {
      EndOfNode(xa.View(), r);
      UpSound(xa.View(), r, Marks(xa.View(), mark), max);
      UpPath(r);
    }

    /** There it is on the way to its index, or at the end of that node in turn. */
    lemma UpPath(r: Ref)
      requires xa.Valid() && r in xa.nodes && SlotIndex(r, CHUNK) == index < WORD
      requires at.In? && xa.nodes[r].parent == Some(at.ref) && offset == xa.nodes[r].offset + 1
      ensures at.ref in xa.nodes && offset <= CHUNK
      ensures if offset == CHUNK then index == SlotIndex(at.ref, CHUNK) else OnPath()
    {
      UpSlot(xa.View(), r);
      if offset < CHUNK { SlotPath(); }
    }

    lemma SlotPath()
      requires xa.Valid() && at.In? && at.ref in xa.nodes && offset < CHUNK && index == SlotIndex(at.ref, offset) && index < WORD
      ensures OnPath()
    {
      SlotStart(xa.View(), at.ref, offset, index);
    }

    /** One round of the loop of xas_find_marked. */
    method SeekRound(max: nat, mark: nat, advance0: bool, ghost s: nat, ghost to: nat)
      returns (seek: Seek, entry: Entry, advance: bool, ghost next: nat, ghost exact: bool)
      requires Seeking(mark, s, to, advance0) && index <= max < WORD
      modifies this`index, this`at, this`offset
      ensures xa.Valid()
      ensures old(Ahead(mark, to, advance0, max)) <==> exact && (seek.On? ==> Seeking(mark, s, next, advance) && Ahead(mark, next, advance, max))
      ensures seek.Hit? ==>
                && Valid() && at.In? && ReachedSlot(xa.View(), index, at.Node(), offset) && entry == Get(xa.View(), index)
                && s <= index <= max && TagAt(xa.View(), index, mark) && NoneTagged(xa.View(), s, index, mark)
                && (!entry.Empty? ==> AtSlot())
      ensures seek.Past? ==> NoneTagged(xa.View(), s, max + 1, mark) && index < WORD && (index > max || (index == 0 && MaxIndex(xa.head) == WORD - 1))
      ensures seek.On? ==> Seeking(mark, s, next, advance) && index <= max && to <= next && !advance
      ensures seek.On? && !advance0 && to == next ==> Phase(at.ref, offset) < Phase(old(at.ref), old(offset))
      ensures seek.Out? ==> index == to == MaxIndex(xa.head) + 1 <= max && NoneTagged(xa.View(), s, to, mark)
    {
      var r := at.ref;
      entry, advance, next, exact := Empty, advance0, to, true;
      if offset == CHUNK {
        var out := SeekUp(max, mark, s, to);
        return if out then Out else On, Empty, false, to, true;
      }
      assert NodeShape(xa.View(), r);
      var past;
      past, next, exact := SkipChunk(max, mark, s, to, advance);
      if past { return Past, Empty, false, next, exact; }
      if offset == CHUNK { return On, Empty, false, next, exact; }
      seek, entry := SeekEntry(max, mark, s, next);
      advance := false;
    }

    /** The end of a round of xas_find_marked, at a marked slot: the entry there, or down into its node. */
    method SeekEntry(max: nat, mark: nat, ghost s: nat, ghost to: nat) returns (seek: Seek, entry: Entry)
      requires Seeking(mark, s, to, false) && to <= max && offset < CHUNK
      requires NodeShape(xa.View(), at.ref) && xa.nodes[at.ref].tags[mark][offset]
      modifies this`at, this`offset
      ensures seek.Hit? || seek.On?
      ensures at.In? && xa.Valid()
      ensures seek.Hit? ==>
                && Valid() && ReachedSlot(xa.View(), index, at.Node(), offset) && entry == Get(xa.View(), index)
                && TagAt(xa.View(), index, mark) && (!entry.Empty? ==> AtSlot())
                && old(SoundRows(Marks(xa.View(), mark), MaxIndex(xa.head), to, at.ref.level, max))
      ensures seek.On? ==>
                && Seeking(mark, s, to, false) && Phase(at.ref, offset) < Phase(old(at.ref), old(offset))
                && (old(SoundRows(Marks(xa.View(), mark), MaxIndex(xa.head), to, at.ref.level, max)) <==> Ahead(mark, to, false, max))
    {
      var r := at.ref;
      entry := xa.nodes[r].slots[offset];
      if !entry.Inner? {
        MarkedHere(mark, entry);
        MarkedSound(Marks(xa.View(), mark), MaxIndex(xa.head), index, r.level, max);
        return Hit, entry;
      }
      if r.level > 0 { UpAt(index, r.level); }
      assert NodeShape(xa.View(), entry.ref);
      at, offset := In(entry.ref), Digit(index, entry.ref.level);
      return On, Empty;
    }

    /** xas_find_marked: the next index up to max that carries the mark. The cursor is fresh, or at a
        leaf slot or the head. It ends at that index, or beyond the tree (XAS_BOUNDS) at the first index
        the tree cannot hold, or beyond max (XAS_RESTART). exact tells whether find_next_bit() as written
        does what it is meant to on every row that is read. */
    method FindMarked(max: nat, mark: nat) returns (entry: Entry, ghost exact: bool)
      requires Valid() && max < WORD && mark < TAGS && !at.Failed? && (at.In? ==> at.ref.level == 0)
      modifies this`index, this`at, this`offset
      ensures exact <==> old(SoundSearch(max, mark))
      ensures Valid() && !at.Failed? && (!entry.Empty? ==> AtSlot())
      ensures at.In? || at.Head? ==>
                && ReachedSlot(xa.View(), index, at.Node(), offset) && entry == Get(xa.View(), index)
                && old(SearchFrom()) <= index <= max
                && TagAt(xa.View(), index, mark) && NoneTagged(xa.View(), old(SearchFrom()), index, mark)
      ensures at.Bounds? ==>
                && entry.Empty? && old(SearchFrom()) <= index <= max && MaxIndex(xa.head) < index
                && NoneTagged(xa.View(), old(SearchFrom()), index, mark)
      ensures at.Restart? ==>
                && entry.Empty? && NoneTagged(xa.View(), old(SearchFrom()), max + 1, mark)
                && (index > max || (index == 0 && MaxIndex(xa.head) == WORD - 1))
    {
      ghost var s := SearchFrom();
      entry, exact := Empty, true;
      if index > max {
        at := Restart;
        return;
      }
      if at.Head? {
        index := 1;
        at := if index > max then Restart else Bounds;
        return;
      }
      var advance := true;
      if at.Top?() {
        advance := false;
        var done;
        done, entry := SeekStart(max, mark);
        if done { return; }
      }
      entry, exact := SeekOn(max, mark, advance, s);
    }

    /** Every row of marks that xas_find_marked reads from here has a marked slot from where it is read on,
        or none at all. */
    ghost predicate SoundSearch(max: nat, mark: nat)
      requires Valid() && mark < TAGS
      reads this, xa
    {
      index > max || at.Head? ||
      if at.In? then Ahead(mark, index + 1, true, max) else SoundFrom(xa.View(), index, max, mark)
    }

    /** The beginning of xas_find_marked for a fresh cursor: at the root's node, unless the answer is
        already known. */
    method SeekStart(max: nat, mark: nat) returns (done: bool, entry: Entry)
      requires Valid() && index <= max < WORD && mark < TAGS && (at.Restart? || at.Bounds?)
      modifies this`index, this`at, this`offset
      ensures !done ==> Seeking(mark, old(index), index, false) && index == old(index) && entry.Empty?
      ensures done ==> old(SoundSearch(max, mark))
      ensures !done ==> (old(SoundSearch(max, mark)) <==> Ahead(mark, index, false, max))
      ensures done ==> Valid() && !at.In? && !at.Failed? && (!entry.Empty? ==> AtSlot())
      ensures done && at.Head? ==>
                && index == old(index) == 0 && ReachedSlot(xa.View(), index, None, offset) && entry == Get(xa.View(), index)
                && TagAt(xa.View(), index, mark)
      ensures done && !at.Head? ==>
                && entry.Empty? && old(index) <= index && MaxIndex(xa.head) < index
                && NoneTagged(xa.View(), old(index), index, mark)
                && (if index > max then at.Restart? && NoneTagged(xa.View(), old(index), max + 1, mark) else at.Bounds?)
    {
      entry := xa.head;
      assert RootOk(xa.View(), mark);
      if index > MaxIndex(entry) {
        at := Bounds;
        return true, Empty;
      }
      if !entry.Inner? {
        if xa.rootTags[mark] {
          at := Head;
          return true, entry;
        }
        index := 1;
        at := if index > max then Restart else Bounds;
        return true, Empty;
      }
      SeekRoot(max, mark, entry.ref);
      return false, Empty;
    }

    /** The cursor at the slot of its index in the root's node. */
    method SeekRoot(max: nat, mark: nat, r: Ref)
      requires xa.Valid() && xa.head == Inner(r) && index <= MaxIndex(xa.head) && index <= max < WORD && mark < TAGS
      modifies this`at, this`offset
      ensures Seeking(mark, index, index, false)
      ensures Ahead(mark, index, false, max) <==> SoundFrom(xa.View(), index, max, mark)
    {
      RootSlot(xa.View(), index);
      at, offset := In(r), Block(index, xa.nodes[r].level);
    }

    /** The loop of xas_find_marked. */
    method SeekOn(max: nat, mark: nat, advance0: bool, ghost s: nat) returns (entry: Entry, ghost exact: bool)
      requires index <= max < WORD && Seeking(mark, s, if advance0 then index + 1 else index, advance0)
      modifies this`index, this`at, this`offset
      ensures exact <==> old(Ahead(mark, if advance0 then index + 1 else index, advance0, max))
      ensures Valid() && !at.Failed? && !at.Head? && (!entry.Empty? ==> at.In?)
      ensures at.In? ==>
                && ReachedSlot(xa.View(), index, at.Node(), offset) && entry == Get(xa.View(), index)
                && s <= index <= max && TagAt(xa.View(), index, mark) && NoneTagged(xa.View(), s, index, mark)
                && (!entry.Empty? ==> AtSlot())
      ensures at.Bounds? ==>
                entry.Empty? && s <= index <= max && MaxIndex(xa.head) < index && NoneTagged(xa.View(), s, index, mark)
      ensures at.Restart? ==>
                && entry.Empty? && NoneTagged(xa.View(), s, max + 1, mark)
                && (index > max || (index == 0 && MaxIndex(xa.head) == WORD - 1))
    {
      var advance, seek := advance0, On;
      ghost var to: nat := if advance0 then index + 1 else index;
      ghost var goal, here := Ahead(mark, to, advance, max), true;
      exact := true;
      while index <= max
        invariant Seeking(mark, s, to, advance) && index <= max && goal == (exact && Ahead(mark, to, advance, max))
        decreases advance, WORD - to, Phase(at.ref, offset)
      {
        seek, entry, advance, to, here := SeekRound(max, mark, advance, s, to);
        exact := exact && here;
        match seek {
          case Hit => return;
          case Past =>
            at := Restart;
            return Empty, exact;
          case Out => break;
          case On =>
        }
      }
      at := if index > max then Restart else Bounds;
      entry := Empty;
    }

    /** After a load that stopped at the head or beyond the tree and found nothing, nothing follows. */
    lemma NoneBeyondSlot(s: nat, hi: nat)
      requires Valid() && s == index && Get(xa.View(), index).Empty?
      requires at.Head? || (at.Bounds? && index > MaxIndex(xa.head))
      ensures NoneStored(xa.View(), s, hi)
    {
      NoneBeyond(xa.View(), if at.Head? then 1 else index, hi);
    }
  }

  /** The slot of an index in the root's node. */
  lemma RootSlot(t: Tree, index: nat)
    requires Shape(t) && t.head.Inner? && index <= MaxIndex(t.head)
    ensures var r := t.head.ref;
      NodeShape(t, r) && r == At(index, r.level) && Block(index, r.level) == Digit(index, r.level)
  {
    HeadCovers(t, index);
    BlockZero(index, t.head.ref.level + 1);
    BlockSplit(index, t.head.ref.level);
    assert NodeShape(t, t.head.ref);
  }

  /** Since it began with tree t0, a retry loop has only added nodes that a store at the index needs, and
      memory for budget nodes is in them or left. */
  ghost predicate Spending(xas: XaState, t0: Tree, index: nat, budget: nat)
    reads xas, xas.xa
  {
    OnWays(t0.nodes.Keys, xas.xa.nodes.Keys, index) && xas.Memory() == |t0.nodes| + budget
  }

  /** No memory was left: all there was went into nodes that the store needs. */
  ghost predicate Spent(xa: XArray, nodes: nat, budget: nat)
    reads xa
  {
    xa.quick == xa.slow == 0 && |xa.nodes| == nodes + budget && budget <= 32
  }

  lemma AllSpent(xas: XaState, t0: Tree, index: nat, budget: nat)
    requires Spending(xas, t0, index, budget) && !xas.alloc && xas.xa.quick == xas.xa.slow == 0
    ensures Spent(xas.xa, |t0.nodes|, budget)
  {
    NoMoreThanWays(t0.nodes.Keys, xas.xa.nodes.Keys, index);
    assert |t0.nodes.Keys| == |t0.nodes| && |xas.xa.nodes.Keys| == |xas.xa.nodes|;
  }

  lemma JoinNone(t: Tree, lo: nat, mid: nat, hi: nat)
    requires Shape(t) && NoneStored(t, lo, mid) && NoneStored(t, mid, hi)
    ensures NoneStored(t, lo, hi)
  {
  }

  /** The rounds of a search at one index: up from the end of a node, then down. */
  function Phase(r: Ref, offset: nat): nat {
    if offset == CHUNK && r.level < LEVELS then 2 * LEVELS - r.level else r.level
  }

  lemma NotTallerTrans(t: Tree, u: Tree, v: Tree, w: Tree, i: nat)
    requires NotTaller(t, u, i) && v.head == u.head && NotTaller(v, w, i)
    ensures NotTaller(t, w, i)
  {
    if w.head.Inner? && u.head.Inner? && w.head.ref.level <= u.head.ref.level {
      PowMono(w.head.ref.level, u.head.ref.level);
    }
  }

  lemma StoredNone(t: Tree, u: Tree, i: nat, e: Entry)
    requires Shape(t) && Shape(u) && SameContents(t, u) && Get(t, i) == e && u.trackFree == t.trackFree
    requires e.Empty? ==> forall g: nat :: g < TAGS ==> TagAt(u, i, g) == Default(u, g)
    ensures Stored(t, u, i, e)
  {
  }

  lemma StoredSame(t: Tree, u: Tree, v: Tree, i: nat, e: Entry)
    requires Shape(t) && Shape(u) && Shape(v) && Stored(t, u, i, e) && SameContents(u, v) && u.trackFree == v.trackFree
    ensures Stored(t, v, i, e)
  {
    forall j: nat
      ensures Get(v, j) == if j == i then e else Get(t, j)
    {
      assert Get(v, j) == Get(u, j);
    }
    forall j: nat, g: nat | g < TAGS
      ensures TagAt(v, j, g) <==> if j == i && e.Empty? then Default(t, g) else TagAt(t, j, g)
    {
      assert TagAt(v, j, g) <==> TagAt(u, j, g);
    }
  }

  /** Making room, resetting the marks if e is NULL, and the write, taken together. */
  lemma StoredAfter(t: Tree, u: Tree, v: Tree, w: Tree, i: nat, e: Entry)
    requires Shape(t) && Shape(u) && Shape(v) && Shape(w) && SameContents(t, u) && t.trackFree == u.trackFree == v.trackFree
    requires forall j: nat :: Get(v, j) == Get(u, j)
    requires forall j: nat, g: nat :: g < TAGS ==>
               (TagAt(v, j, g) <==> if j == i && e.Empty? then Default(v, g) else TagAt(u, j, g))
    requires Stored(v, w, i, e)
    ensures Stored(t, w, i, e)
  {
    forall j: nat
      ensures Get(w, j) == if j == i then e else Get(t, j)
    {
      assert Get(w, j) == if j == i then e else Get(v, j);
      assert Get(u, j) == Get(t, j);
    }
    forall j: nat, g: nat | g < TAGS
      ensures TagAt(w, j, g) <==> if j == i && e.Empty? then Default(t, g) else TagAt(t, j, g)
    {
      assert TagAt(v, j, g) <==> if j == i && e.Empty? then Default(v, g) else TagAt(u, j, g);
      assert TagAt(u, j, g) <==> TagAt(t, j, g);
    }
  }

  lemma SlotInWord(to: nat, r: Ref, o: nat)
    requires o < CHUNK && r.level < LEVELS && to == SlotIndex(r, o) <= WORD && SlotIndex(r, CHUNK) <= WORD
    ensures to < WORD
  {
    MulMono(r.block * CHUNK + o + 1, r.block * CHUNK + CHUNK, Pow(r.level));
    assert (r.block * CHUNK + o + 1) * Pow(r.level) == to + Pow(r.level);
  }

  lemma ChildStart(to: nat, r: Ref, o: nat)
    requires r.level > 0 && to == SlotIndex(r, o)
    ensures to == SlotIndex(Child(r, o), 0)
  {
    PowStep(r.block * CHUNK + o, r.level - 1);
  }
}
