/** The functions of lib/xarray.c that other code calls: xa_load, xa_store and the rest, each with a
    cursor of its own that is retried while a failed node allocation can be made up for. */
module XArrayApi {
  import opened Wrappers
  import opened Digits
  import opened TreeState
  import opened TreeSteps
  import opened TreeCounts
  import opened TreeTags
  import opened TreeWalk
  import opened XArray
  import opened MarkSearch
  import opened XArrayCursor

  /** The entry that was there, or an error. */
  datatype Result = Was(entry: Entry) | Err(err: Errno)

  datatype AllocResult = Allocated(id: nat) | NotAllocated(err: Errno)

  /** What a caller of the normal interface sees: a reserved index reads as NULL. */
  function Shown(e: Entry): Entry { if e.Zero? then Empty else e }

  /** What is kept for entry e: in an allocating array NULL keeps the index reserved. */
  function Kept(e: Entry, trackFree: bool): Entry { if trackFree && e.Empty? then Zero else e }

  /** Index i now holds e and, in an allocating array, is not free any more; nothing else changed. */
  ghost predicate Put(t: Tree, u: Tree, i: nat, e: Entry)
    requires Shape(t) && Shape(u)
  {
    && u.trackFree == t.trackFree
    && (forall j: nat {:trigger Get(u, j)} :: Get(u, j) == if j == i then e else Get(t, j))
    && (forall j: nat, g: nat {:trigger TagAt(u, j, g)} :: g < TAGS ==>
          (TagAt(u, j, g) <==>
           if j == i && t.trackFree && g == 0 then false
           else if j == i && e.Empty? then Default(t, g)
           else TagAt(t, j, g)))
  }

  lemma PutTracks(t: Tree, u: Tree, i: nat, e: Entry)
    requires Shape(t) && Shape(u) && Put(t, u, i, e) && (t.trackFree ==> !e.Empty?)
    ensures Tracking(t) ==> Tracking(u)
  {
  }

  lemma StoredTracks(t: Tree, u: Tree, i: nat, e: Entry)
    requires Shape(t) && Shape(u) && Stored(t, u, i, e) && u.trackFree == t.trackFree
    requires e.Empty? || !Get(t, i).Empty? || !t.trackFree
    ensures Tracking(t) ==> Tracking(u)
  {
    if Tracking(t) && t.trackFree {
      forall j: nat
        ensures TagAt(u, j, 0) <==> Get(u, j).Empty?
      {
        assert Get(u, j) == if j == i then e else Get(t, j);
        assert TagAt(t, j, 0) <==> Get(t, j).Empty?;
      }
    }
  }

  lemma SameTracks(t: Tree, u: Tree)
    requires Shape(t) && Shape(u) && SameContents(t, u) && t.trackFree == u.trackFree
    ensures Tracking(t) ==> Tracking(u)
  {
    forall i: nat
      ensures Tracking(t) && u.trackFree ==> (TagAt(u, i, 0) <==> Get(u, i).Empty?)
    {
      assert Get(u, i) == Get(t, i) && (TagAt(u, i, 0) <==> TagAt(t, i, 0));
    }
  }

  /** Once a mark of one index has changed, the free mark is off exactly if it was that mark, the index
      holds something and it is set now. */
  lemma MarkTracks(t: Tree, u: Tree, index: nat, mark: nat, on: bool)
    requires Shape(t) && Shape(u) && t.trackFree == u.trackFree && mark < TAGS && Tracking(t)
    requires forall j: nat :: Get(u, j) == Get(t, j)
    requires forall j: nat, g: nat :: g < TAGS ==>
      (TagAt(u, j, g) <==> if j == index && g == mark && !Get(t, index).Empty? then on else TagAt(t, j, g))
    ensures Tracking(u) <==> !(t.trackFree && mark == 0 && on && !Get(t, index).Empty?)
  {
    if t.trackFree {
      assert TagAt(u, index, 0) <==> if mark == 0 && !Get(t, index).Empty? then on else TagAt(t, index, 0);
      assert Get(u, index) == Get(t, index);
      forall j: nat | j != index
        ensures TagAt(u, j, 0) <==> Get(u, j).Empty?
      {
        assert Get(u, j) == Get(t, j) && (TagAt(t, j, 0) <==> Get(t, j).Empty?);
      }
    }
  }

  /** xa_load. */
  method Load(xa: XArray, index: nat) returns (entry: Entry)
    requires xa.Valid() && index < WORD
    ensures entry == Shown(Get(xa.View(), index))
    ensures var e := Get(xa.View(), index); if e == Zero then entry == Empty else entry == e
  {
    var xas := new XaState(xa, index);
    entry := xas.Load();
    if entry.Zero? { entry := Empty; }
  }

  /** xas_store and then, in an allocating array, xas_clear_mark(XA_FREE_MARK). */
  method StoreBusy(xas: XaState, entry: Entry) returns (curr: Entry)
    requires xas.Valid() && (entry.Item?() || (entry.Empty? && !xas.xa.trackFree))
    modifies xas, xas.xa
    ensures xas.Valid() && xas.index == old(xas.index)
    ensures xas.at.Failed? ==> Grew(old(xas.xa.View()), xas.xa.View(), xas.index, old(xas.alloc), xas.alloc)
    ensures old(xas.at).Failed? ==> xas.at == old(xas.at)
    ensures xas.at.Failed? && !old(xas.at).Failed? ==>
              && xas.at == Failed(ENOMEM) && !xas.alloc && Get(old(xas.xa.View()), xas.index).Empty?
              && SlotMissing(old(xas.xa.View()), xas.index, entry.Zero?) && xas.xa.quick == 0
    ensures xas.at.Failed? ==> xas.Memory() == old(xas.Memory())
    ensures !xas.at.Failed? ==>
              curr == Get(old(xas.xa.View()), xas.index) && Put(old(xas.xa.View()), xas.xa.View(), xas.index, entry)
  {
    ghost var t := xas.xa.View();
    curr := xas.Store(entry);
    if xas.xa.trackFree {
      ghost var u := xas.xa.View();
      assert !xas.at.Failed? ==> Get(u, xas.index) == entry;
      xas.ClearMark(0);
      if !xas.at.Failed? {
        MarkPlain(u, xas.xa.View(), xas.index, 0, false);
        SameButTagsGet(u, xas.xa.View());
        xas.KeepsSlot(u);
        StoredMarked(t, u, xas.xa.View(), xas.index, entry);
      }
    }
  }

  lemma StoredMarked(t: Tree, u: Tree, v: Tree, i: nat, e: Entry)
    requires Shape(t) && Shape(u) && Shape(v) && Stored(t, u, i, e) && Marked(u, v, i, 0, false) && t.trackFree
    requires forall j: nat :: Get(v, j) == Get(u, j)
    ensures Put(t, v, i, e)
  {
    forall j: nat
      ensures Get(v, j) == if j == i then e else Get(t, j)
    {
      assert Get(u, j) == if j == i then e else Get(t, j);
    }
    forall j: nat, g: nat | g < TAGS
      ensures TagAt(v, j, g) <==>
              if j == i && t.trackFree && g == 0 then false else if j == i && e.Empty? then Default(t, g) else TagAt(t, j, g)
    {
      assert TagAt(u, j, g) <==> if j == i && e.Empty? then Default(t, g) else TagAt(t, j, g);
    }
  }

  /** The state of a retry loop: the array is as it was, but may have more room. */
  ghost predicate Retrying(xas: XaState, xa: XArray, index: nat, t0: Tree, budget: nat, reserved: bool)
    reads xas, xas.xa, xa
  {
    && xas.xa == xa && xas.Valid() && xas.index == index && xas.at == Restart
    && Shape(t0) && SameContents(t0, xa.View()) && t0.trackFree == xa.trackFree && Spending(xas, t0, index, budget)
    && (xa.View() == t0 || SlotMissing(t0, index, reserved))
  }

  /** A try in such a loop found no memory. room was the room for more nodes before it, and spare tells
      whether there was a spare node. */
  ghost predicate NoNode(xas: XaState, xa: XArray, index: nat, t0: Tree, budget: nat, reserved: bool, room: nat, spare: bool)
    reads xas, xas.xa, xa
  {
    && xas.xa == xa && xas.Valid() && xas.index == index && xas.at == Failed(ENOMEM) && !xas.alloc && xa.quick == 0
    && Shape(t0) && SameContents(t0, xa.View()) && t0.trackFree == xa.trackFree && Spending(xas, t0, index, budget)
    && SlotMissing(t0, index, reserved)
    && Room(xa.nodes.Keys, index) <= room && (spare ==> Room(xa.nodes.Keys, index) < room)
  }

  /** xas_nomem at the end of a try. */
  method Again(xas: XaState, index: nat, ghost t0: Tree, ghost budget: nat, ghost reserved: bool, ghost room: nat, ghost spare: bool)
    returns (again: bool)
    requires xas.at == Failed(ENOMEM) ==> NoNode(xas, xas.xa, index, t0, budget, reserved, room, spare)
    modifies xas`at, xas`alloc, xas.xa`slow
    ensures again ==>
              && old(xas.at) == Failed(ENOMEM) && Retrying(xas, xas.xa, index, t0, budget, reserved) && xas.alloc
              && Room(xas.xa.nodes.Keys, index) <= room && (spare ==> Room(xas.xa.nodes.Keys, index) < room)
    ensures !again ==> xas.at == old(xas.at)
    ensures !again && xas.at == Failed(ENOMEM) ==>
              && Spent(xas.xa, |t0.nodes|, budget) && SlotMissing(t0, index, reserved)
              && Shape(t0) && SameContents(t0, xas.xa.View()) && (Tracking(t0) ==> Tracking(xas.xa.View()))
  {
    again := xas.Nomem();
    if !again && xas.at == Failed(ENOMEM) {
      AllSpent(xas, t0, index, budget);
      SameTracks(t0, xas.xa.View());
    }
  }

  /** A try of the store that found no memory. */
  lemma TryFails(xas: XaState, index: nat, t0: Tree, t: Tree, budget: nat, reserved: bool, was: bool)
    requires Shape(t0) && Shape(t) && SameContents(t0, t) && t0.trackFree == t.trackFree && xas.Valid() && xas.index == index
    requires OnWays(t0.nodes.Keys, t.nodes.Keys, index) && xas.Memory() == |t0.nodes| + budget
    requires Grew(t, xas.xa.View(), index, was, xas.alloc) && xas.xa.trackFree == t.trackFree
    requires xas.at == Failed(ENOMEM) && !xas.alloc && xas.xa.quick == 0
    requires SlotMissing(t, index, reserved) && (t == t0 || SlotMissing(t0, index, reserved))
    ensures NoNode(xas, xas.xa, index, t0, budget, reserved, Room(t.nodes.Keys, index), was)
  {
    RetrySame(t0, t, xas.xa.View(), index, was, xas.alloc);
  }

  lemma RetrySame(t0: Tree, t: Tree, u: Tree, i: nat, was: bool, now: bool)
    requires Shape(t0) && Shape(t) && SameContents(t0, t) && Grew(t, u, i, was, now)
    ensures SameContents(t0, u)
    ensures was && !now ==> Room(u.nodes.Keys, i) < Room(t.nodes.Keys, i)
    ensures Room(u.nodes.Keys, i) <= Room(t.nodes.Keys, i)
  {
    HaveGrows(t.nodes.Keys, u.nodes.Keys, i, LEVELS, 0);
    HaveGrows(t.nodes.Keys, u.nodes.Keys, 0, LEVELS, 0);
    forall j: nat
      ensures Get(u, j) == Get(t0, j)
    {
      assert Get(u, j) == Get(t, j);
    }
    forall j: nat, g: nat | g < TAGS
      ensures TagAt(u, j, g) <==> TagAt(t0, j, g)
    {
      assert TagAt(u, j, g) <==> TagAt(t, j, g);
    }
  }

  lemma RetryPut(t0: Tree, t: Tree, u: Tree, i: nat, e: Entry)
    requires Shape(t0) && Shape(t) && Shape(u) && SameContents(t0, t) && t0.trackFree == t.trackFree && Put(t, u, i, e)
    ensures Put(t0, u, i, e)
  {
    forall j: nat
      ensures Get(u, j) == if j == i then e else Get(t0, j)
    {
      assert Get(u, j) == if j == i then e else Get(t, j);
      assert Get(t, j) == Get(t0, j);
    }
    forall j: nat, g: nat | g < TAGS
      ensures TagAt(u, j, g) <==>
              if j == i && t.trackFree && g == 0 then false else if j == i && e.Empty? then Default(t, g) else TagAt(t0, j, g)
    {
      assert TagAt(t, j, g) <==> TagAt(t0, j, g);
    }
  }

  /** One try of __xa_store. */
  method TryStore(xas: XaState, entry: Entry, ghost t0: Tree, ghost budget: nat) returns (curr: Entry)
    requires Retrying(xas, xas.xa, xas.index, t0, budget, entry.Zero?) && (entry.Item?() || (entry.Empty? && !xas.xa.trackFree))
    modifies xas, xas.xa
    ensures xas.Valid() && xas.index == old(xas.index)
    ensures if xas.at.Failed? then
              && NoNode(xas, xas.xa, xas.index, t0, budget, entry.Zero?, old(Room(xas.xa.nodes.Keys, xas.index)), old(xas.alloc))
              && Get(t0, xas.index).Empty?
            else curr == Get(t0, xas.index) && Put(t0, xas.xa.View(), xas.index, entry)
  {
    ghost var t := xas.xa.View();
    assert Get(t, xas.index) == Get(t0, xas.index);
    curr := StoreBusy(xas, entry);
    if xas.at.Failed? {
      TryFails(xas, xas.index, t0, t, budget, entry.Zero?, old(xas.alloc));
    } else {
      RetryPut(t0, t, xas.xa.View(), xas.index, entry);
    }
  }

  /** __xa_store. */
  method Store(xa: XArray, index: nat, entry0: Entry) returns (res: Result)
    requires xa.Valid() && index < WORD && !entry0.Inner?
    modifies xa
    ensures xa.Valid()
    ensures entry0.Retry? <==> res == Err(EINVAL)
    ensures res.Err? ==> SameContents(old(xa.View()), xa.View())
    ensures res.Was? ==> res.entry == Shown(Get(old(xa.View()), index))
                         && Put(old(xa.View()), xa.View(), index, Kept(entry0, xa.trackFree))
    ensures !Get(old(xa.View()), index).Empty? && !entry0.Retry? ==> res.Was?
    ensures res.Err? && !entry0.Retry? ==>
              res.err == ENOMEM && SlotMissing(old(xa.View()), index, entry0 == Zero || (entry0 == Empty && xa.trackFree))
    ensures res == Err(ENOMEM) ==> Spent(xa, |old(xa.nodes)|, old(xa.quick + xa.slow))
    ensures res.Was? ==> Get(xa.View(), index) == if entry0 == Empty && xa.trackFree then Zero else entry0
    ensures Tracking(old(xa.View())) ==> Tracking(xa.View())
  {
    if entry0.Retry? { return Err(EINVAL); }
    var entry := entry0;
    if xa.trackFree && entry.Empty? { entry := Zero; }
    var xas := new XaState(xa, index);
    ghost var t0, budget := xa.View(), xa.quick + xa.slow;
    while true
      invariant fresh(xas) && Retrying(xas, xa, index, t0, budget, entry.Zero?)
      decreases Room(xa.nodes.Keys, index), if xas.alloc then 0 else 1
    {
      ghost var room, was := Room(xa.nodes.Keys, index), xas.alloc;
      var curr := TryStore(xas, entry, t0, budget);
      if !xas.at.Failed? { PutTracks(t0, xa.View(), index, entry); }
      var again := Again(xas, index, t0, budget, entry.Zero?, room, was);
      if !again {
        return if xas.at.Failed? then Err(xas.at.err) else Was(Shown(curr));
      }
    }
  }

  /** __xa_erase. */
  method Erase(xa: XArray, index: nat) returns (entry: Entry)
    requires xa.Valid() && index < WORD
    modifies xa
    ensures xa.Valid() && entry == Shown(Get(old(xa.View()), index))
    ensures Stored(old(xa.View()), xa.View(), index, Empty)
    ensures Tracking(old(xa.View())) ==> Tracking(xa.View())
  {
    var xas := new XaState(xa, index);
    entry := xas.Store(Empty);
    entry := Shown(entry);
    StoredTracks(old(xa.View()), xa.View(), index, Empty);
  }

  /** One try of __xa_insert. */
  method TryInsert(xas: XaState, entry: Entry, ghost t0: Tree, ghost budget: nat)
    requires Retrying(xas, xas.xa, xas.index, t0, budget, entry.Zero?) && entry.Item?()
    modifies xas, xas.xa
    ensures xas.Valid() && xas.index == old(xas.index)
    ensures xas.at == Failed(EBUSY) <==> !Get(t0, xas.index).Empty?
    ensures xas.at.Failed? ==>
              (xas.at == Failed(EBUSY) || xas.at == Failed(ENOMEM)) && Shape(t0) && SameContents(t0, xas.xa.View())
    ensures xas.at == Failed(ENOMEM) ==>
              NoNode(xas, xas.xa, xas.index, t0, budget, entry.Zero?, old(Room(xas.xa.nodes.Keys, xas.index)), old(xas.alloc))
    ensures !xas.at.Failed? ==> Put(t0, xas.xa.View(), xas.index, entry)
  {
    ghost var t := xas.xa.View();
    assert Get(t, xas.index) == Get(t0, xas.index);
    var curr := xas.Load();
    if !curr.Empty? {
      xas.at := Failed(EBUSY);
      return;
    }
    curr := StoreBusy(xas, entry);
    if xas.at.Failed? {
      TryFails(xas, xas.index, t0, t, budget, entry.Zero?, old(xas.alloc));
    } else {
      RetryPut(t0, t, xas.xa.View(), xas.index, entry);
    }
  }

  /** __xa_insert. */
  method Insert(xa: XArray, index: nat, entry0: Entry) returns (res: Result)
    requires xa.Valid() && index < WORD && !entry0.Inner?
    modifies xa
    ensures xa.Valid()
    ensures entry0.Retry? <==> res == Err(EINVAL)
    ensures !entry0.Retry? ==> (res == Err(EBUSY) <==> !Get(old(xa.View()), index).Empty?)
    ensures res.Err? ==> SameContents(old(xa.View()), xa.View())
    ensures res.Was? ==> Put(old(xa.View()), xa.View(), index, if entry0.Empty? then Zero else entry0)
    ensures res.Err? && res.err != EINVAL && res.err != EBUSY ==>
              res.err == ENOMEM && SlotMissing(old(xa.View()), index, entry0 == Empty || entry0 == Zero)
    ensures res == Err(ENOMEM) ==> Spent(xa, |old(xa.nodes)|, old(xa.quick + xa.slow))
    ensures Tracking(old(xa.View())) ==> Tracking(xa.View())
  {
    if entry0.Retry? { return Err(EINVAL); }
    var entry := if entry0.Empty? then Zero else entry0;
    var xas := new XaState(xa, index);
    ghost var t0, budget := xa.View(), xa.quick + xa.slow;
    while true
      invariant fresh(xas) && Retrying(xas, xa, index, t0, budget, entry.Zero?)
      decreases Room(xa.nodes.Keys, index), if xas.alloc then 0 else 1
    {
      ghost var room, was := Room(xa.nodes.Keys, index), xas.alloc;
      TryInsert(xas, entry, t0, budget);
      if xas.at.Failed? { SameTracks(t0, xa.View()); } else { PutTracks(t0, xa.View(), index, entry); }
      var again := Again(xas, index, t0, budget, entry.Zero?, room, was);
      if !again {
        return if xas.at.Failed? then Err(xas.at.err) else Was(Empty);
      }
    }
  }

  lemma RetryStored(t0: Tree, t: Tree, u: Tree, i: nat, e: Entry)
    requires Shape(t0) && Shape(t) && Shape(u) && SameContents(t0, t) && t0.trackFree == t.trackFree && Stored(t, u, i, e)
    ensures Stored(t0, u, i, e)
  {
    forall j: nat
      ensures Get(u, j) == if j == i then e else Get(t0, j)
    {
      assert Get(u, j) == if j == i then e else Get(t, j);
      assert Get(t, j) == Get(t0, j);
    }
    forall j: nat, g: nat | g < TAGS
      ensures TagAt(u, j, g) <==> if j == i && e.Empty? then Default(t, g) else TagAt(t0, j, g)
    {
      assert TagAt(t, j, g) <==> TagAt(t0, j, g);
    }
  }

  /** Index i, which held expected, now holds e. A free index of an allocating array that gets an entry
      is free no more. */
  ghost predicate Exchanged(t: Tree, u: Tree, i: nat, expected: Entry, e: Entry)
    requires Shape(t) && Shape(u)
  {
    if t.trackFree && !e.Empty? && expected.Empty? then Put(t, u, i, e) else Stored(t, u, i, e)
  }

  lemma ExchangedTracks(t: Tree, u: Tree, i: nat, expected: Entry, e: Entry)
    requires Shape(t) && Shape(u) && u.trackFree == t.trackFree && Exchanged(t, u, i, expected, e) && Get(t, i) == expected
    ensures Tracking(t) ==> Tracking(u)
  {
    if t.trackFree && !e.Empty? && expected.Empty? { PutTracks(t, u, i, e); } else { StoredTracks(t, u, i, e); }
  }

  /** One try of __xa_cmpxchg. */
  method TryCmpXchg(xas: XaState, expected: Entry, entry: Entry, ghost t0: Tree, ghost budget: nat) returns (curr: Entry)
    requires Retrying(xas, xas.xa, xas.index, t0, budget, entry.Zero?) && (entry.Empty? || entry.Item?())
    modifies xas, xas.xa
    ensures xas.Valid() && xas.index == old(xas.index)
    ensures !xas.at.Failed? ==> curr == Get(t0, xas.index)
    ensures xas.at.Failed? ==>
              && NoNode(xas, xas.xa, xas.index, t0, budget, entry.Zero?, old(Room(xas.xa.nodes.Keys, xas.index)), old(xas.alloc))
              && Get(t0, xas.index) == expected == Empty
    ensures !xas.at.Failed? ==>
              if curr == expected then Exchanged(t0, xas.xa.View(), xas.index, expected, entry)
              else SameContents(t0, xas.xa.View())
  {
    ghost var t := xas.xa.View();
    assert Get(t, xas.index) == Get(t0, xas.index);
    curr := xas.Load();
    if curr == expected {
      if xas.xa.trackFree && !entry.Empty? && curr.Empty? {
        var _ := StoreBusy(xas, entry);
        if !xas.at.Failed? { RetryPut(t0, t, xas.xa.View(), xas.index, entry); }
      } else {
        var _ := xas.Store(entry);
        if !xas.at.Failed? { RetryStored(t0, t, xas.xa.View(), xas.index, entry); }
      }
      if xas.at.Failed? { TryFails(xas, xas.index, t0, t, budget, entry.Zero?, old(xas.alloc)); }
    }
  }

  /** __xa_cmpxchg: entry replaces expected, if that is what index holds. */
  method CmpXchg(xa: XArray, index: nat, expected: Entry, entry: Entry) returns (res: Result)
    requires xa.Valid() && index < WORD && !entry.Inner?
    modifies xa
    ensures xa.Valid()
    ensures entry.Retry? <==> res == Err(EINVAL)
    ensures res.Err? || Get(old(xa.View()), index) != expected ==> SameContents(old(xa.View()), xa.View())
    ensures res.Was? ==> res.entry == Shown(Get(old(xa.View()), index))
    ensures res.Was? && Get(old(xa.View()), index) == expected ==>
              Exchanged(old(xa.View()), xa.View(), index, expected, entry)
    ensures res.Err? && !entry.Retry? ==>
              res.err == ENOMEM && Get(old(xa.View()), index) == expected == Empty && SlotMissing(old(xa.View()), index, entry.Zero?)
    ensures res == Err(ENOMEM) ==> Spent(xa, |old(xa.nodes)|, old(xa.quick + xa.slow))
    ensures Tracking(old(xa.View())) ==> Tracking(xa.View())
  {
    if entry.Retry? { return Err(EINVAL); }
    var xas := new XaState(xa, index);
    ghost var t0, budget := xa.View(), xa.quick + xa.slow;
    while true
      invariant fresh(xas) && Retrying(xas, xa, index, t0, budget, entry.Zero?)
      decreases Room(xa.nodes.Keys, index), if xas.alloc then 0 else 1
    {
      ghost var room, was := Room(xa.nodes.Keys, index), xas.alloc;
      var curr := TryCmpXchg(xas, expected, entry, t0, budget);
      if !xas.at.Failed? {
        if curr == expected { ExchangedTracks(t0, xa.View(), index, expected, entry); } else { SameTracks(t0, xa.View()); }
      }
      var again := Again(xas, index, t0, budget, entry.Zero?, room, was);
      if !again {
        return if xas.at.Failed? then Err(xas.at.err) else Was(Shown(curr));
      }
    }
  }

  // ----- allocation

  /** i is the first index from min on that is marked free. */
  ghost predicate FirstFree(t: Tree, min: nat, i: nat)
    requires Shape(t)
  {
    min <= i && TagAt(t, i, 0) && NoneTagged(t, min, i, 0)
  }

  lemma FirstFreeUnique(t: Tree, min: nat, i: nat, j: nat)
    requires Shape(t) && FirstFree(t, min, i) && FirstFree(t, min, j)
    ensures i == j
  {
    assert TagAt(t, i, 0) && TagAt(t, j, 0);
  }

  lemma FirstFreeSame(t: Tree, u: Tree, min: nat, i: nat)
    requires Shape(t) && Shape(u) && SameContents(t, u) && FirstFree(u, min, i)
    ensures FirstFree(t, min, i)
  {
    assert TagAt(u, i, 0) <==> TagAt(t, i, 0);
    forall j: nat | min <= j < i
      ensures !TagAt(t, j, 0)
    {
      assert TagAt(u, j, 0) <==> TagAt(t, j, 0);
    }
  }

  lemma NoneFreeSame(t: Tree, u: Tree, lo: nat, hi: nat)
    requires Shape(t) && Shape(u) && SameContents(t, u) && NoneTagged(u, lo, hi, 0)
    ensures NoneTagged(t, lo, hi, 0)
  {
    forall j: nat | lo <= j < hi
      ensures !TagAt(t, j, 0)
    {
      assert TagAt(u, j, 0) <==> TagAt(t, j, 0);
    }
  }

  /** Beyond the tree everything is free. */
  lemma BeyondFree(t: Tree, i: nat)
    requires Inv(t, false) && i > MaxIndex(t.head) && t.trackFree
    ensures TagAt(t, i, 0)
  {
    if t.head.Inner? && At(i, 0) in t.nodes { LeafInRange(t, i); }
  }

  /** One try of __xa_alloc: find a free index and store there. */
  method TryAlloc(xas: XaState, min: nat, max: nat, entry: Entry) returns (id: nat, ghost exact: bool)
    requires xas.Valid() && xas.at.Restart? && min < WORD && max < WORD && entry.Item?() && xas.xa.trackFree
    modifies xas, xas.xa
    ensures xas.Valid()
    ensures xas.at == Failed(EBUSY) ==>
              NoneTagged(old(xas.xa.View()), min, max + 1, 0) && SameContents(old(xas.xa.View()), xas.xa.View())
    ensures exact <==> SoundFrom(old(xas.xa.View()), min, max, 0)
    ensures xas.index == id
    ensures xas.at != Failed(EBUSY) ==> id <= max && FirstFree(old(xas.xa.View()), min, id)
    ensures xas.at.Failed? && xas.at != Failed(EBUSY) ==>
              && xas.at == Failed(ENOMEM) && !xas.alloc && SlotMissing(old(xas.xa.View()), id, entry.Zero?)
              && xas.Memory() == old(xas.Memory()) && xas.xa.quick == 0
              && Grew(old(xas.xa.View()), xas.xa.View(), id, old(xas.alloc), xas.alloc)
    ensures !xas.at.Failed? ==> Put(old(xas.xa.View()), xas.xa.View(), id, entry)
  {
    xas.index := min;
    var _, written := xas.FindMarked(max, 0);
    exact := written;
    id := xas.index;
    if xas.at.Restart? {
      xas.at := Failed(EBUSY);
    } else if xas.at.Bounds? {
      BeyondFree(xas.xa.View(), id);
    }
    var _ := StoreBusy(xas, entry);
  }

  /** Every index from lo up to, not including, hi holds something. */
  ghost predicate AllUsed(t: Tree, lo: nat, hi: nat)
    requires Shape(t)
  {
    forall i: nat {:trigger Get(t, i)} :: lo <= i < hi ==> !Get(t, i).Empty?
  }

  /** i is the first index from min on that holds nothing. */
  ghost predicate FirstUnused(t: Tree, min: nat, i: nat)
    requires Shape(t)
  {
    min <= i && Get(t, i).Empty? && AllUsed(t, min, i)
  }

  /** While the marks are as these functions keep them, the first index that is marked free is the first
      one that holds nothing. */
  lemma AllocFindsUnused(t: Tree, min: nat, id: nat)
    requires Shape(t) && t.trackFree
    ensures Tracking(t) ==> (FirstFree(t, min, id) <==> FirstUnused(t, min, id))
    ensures Tracking(t) ==> (NoneTagged(t, min, id, 0) <==> AllUsed(t, min, id))
  {
    if Tracking(t) {
      assert Get(t, id).Empty? <==> TagAt(t, id, 0);
      if NoneTagged(t, min, id, 0) {
        forall i: nat | min <= i < id
          ensures !Get(t, i).Empty?
        {
          assert !TagAt(t, i, 0);
        }
      }
      if AllUsed(t, min, id) {
        forall i: nat | min <= i < id
          ensures !TagAt(t, i, 0)
        {
          assert !Get(t, i).Empty?;
        }
      }
    }
  }

  /** The state of the retry loop of __xa_alloc: at first the array is as it was; after a try that found no
      memory goal is the index it was for. */
  ghost predicate Allocating(xas: XaState, xa: XArray, min: nat, max: nat, t0: Tree, budget: nat, reserved: bool, goal: Option<nat>)
    reads xas, xas.xa, xa
  {
    && xas.xa == xa && xa.trackFree && xas.Valid() && xas.at == Restart && Inv(t0, false)
    && match goal
       case None => xa.View() == t0 && xas.Memory() == |t0.nodes| + budget
       case Some(i) => i <= max && FirstFree(t0, min, i) && Retrying(xas, xa, i, t0, budget, reserved) && xas.alloc
  }

  /** One try of __xa_alloc in that loop. */
  method TryAllocFrom(xas: XaState, min: nat, max: nat, entry: Entry, ghost t0: Tree, ghost budget: nat, ghost goal: Option<nat>)
    returns (id: nat, ghost exact: bool)
    requires Allocating(xas, xas.xa, min, max, t0, budget, entry.Zero?, goal) && min < WORD && max < WORD && entry.Item?()
    modifies xas, xas.xa
    ensures xas.Valid() && (exact <==> SoundFrom(t0, min, max, 0))
    ensures xas.at == Failed(EBUSY) ==> NoneTagged(t0, min, max + 1, 0) && SameContents(t0, xas.xa.View())
    ensures xas.at != Failed(EBUSY) ==> id <= max && FirstFree(t0, min, id) && (goal.Some? ==> goal.value == id)
    ensures xas.at.Failed? && xas.at != Failed(EBUSY) ==>
              NoNode(xas, xas.xa, id, t0, budget, entry.Zero?, Room(old(xas.xa.nodes.Keys), id), old(xas.alloc))
    ensures !xas.at.Failed? ==> Put(t0, xas.xa.View(), id, entry)
  {
    ghost var t := xas.xa.View();
    id, exact := TryAlloc(xas, min, max, entry);
    SoundAgain(t0, t, min, max);
    if xas.at == Failed(EBUSY) {
      NoneFreeSame(t0, t, min, max + 1);
      SameTrans(t0, t, xas.xa.View());
    } else {
      FirstFreeSame(t0, t, min, id);
      if goal.Some? { FirstFreeUnique(t0, min, goal.value, id); }
      if xas.at.Failed? {
        TryFails(xas, id, t0, t, budget, entry.Zero?, old(xas.alloc));
      } else {
        RetryPut(t0, t, xas.xa.View(), id, entry);
      }
    }
  }

  /** An index up to max is the first free one, but its slot would have to be made. */
  ghost predicate FreeButMissing(t: Tree, min: nat, max: nat, reserved: bool)
    requires Shape(t)
  {
    exists i: nat :: i <= max && FirstFree(t, min, i) && SlotMissing(t, i, reserved)
  }

  /** __xa_alloc. exact tells whether find_next_bit() as written does what it is meant to in every search,
      the retries included. */
  method Alloc(xa: XArray, min: nat, max: nat, entry0: Entry) returns (res: AllocResult, ghost exact: bool)
    requires xa.Valid() && min < WORD && max < WORD && !entry0.Inner?
    modifies xa
    ensures xa.Valid()
    ensures res == NotAllocated(EINVAL) <==> entry0.Retry? || !xa.trackFree
    ensures res != NotAllocated(EINVAL) ==> (exact <==> SoundFrom(old(xa.View()), min, max, 0))
    ensures res == NotAllocated(EBUSY) ==> NoneTagged(old(xa.View()), min, max + 1, 0)
    ensures res == NotAllocated(ENOMEM) ==> FreeButMissing(old(xa.View()), min, max, entry0 == Empty || entry0 == Zero)
    ensures res.NotAllocated? ==> res.err in {EINVAL, EBUSY, ENOMEM}
    ensures res == NotAllocated(ENOMEM) ==> Spent(xa, |old(xa.nodes)|, old(xa.quick + xa.slow))
    ensures res.NotAllocated? ==> SameContents(old(xa.View()), xa.View())
    ensures res.Allocated? ==>
              && res.id <= max && FirstFree(old(xa.View()), min, res.id)
              && Put(old(xa.View()), xa.View(), res.id, Kept(entry0, true))
    ensures Tracking(old(xa.View())) ==>
              && Tracking(xa.View())
              && (res.Allocated? ==> FirstUnused(old(xa.View()), min, res.id))
              && (res == NotAllocated(EBUSY) ==> AllUsed(old(xa.View()), min, max + 1))
  {
    exact := true;
    if entry0.Retry? || !xa.trackFree { return NotAllocated(EINVAL), true; }
    var entry := Kept(entry0, true);
    var xas := new XaState(xa, 0);
    ghost var t0, budget, goal := xa.View(), xa.quick + xa.slow, None;
    while true
      invariant fresh(xas) && Allocating(xas, xa, min, max, t0, budget, entry.Zero?, goal)
      invariant if goal == None then exact else exact <==> SoundFrom(t0, min, max, 0)
      decreases goal == None, if goal.Some? then Room(xa.nodes.Keys, goal.value) else 0
    {
      ghost var keys, was := xa.nodes.Keys, xas.alloc;
      var id, written := TryAllocFrom(xas, min, max, entry, t0, budget, goal);
      exact := exact && written;
      if xas.at == Failed(EBUSY) { SameTracks(t0, xa.View()); }
      if !xas.at.Failed? { PutTracks(t0, xa.View(), id, entry); }
      var again := Again(xas, id, t0, budget, entry.Zero?, Room(keys, id), was);
      if !again {
        AllocFindsUnused(t0, min, id);
        AllocFindsUnused(t0, min, max + 1);
        return if xas.at.Failed? then NotAllocated(xas.at.err) else Allocated(id), exact;
      }
      goal := Some(id);
    }
  }

  /** A second allocation, after one that changed no entry and no mark of the array as it was, t. */
  method AllocAgain(xa: XArray, min: nat, max: nat, entry: Entry, ghost t: Tree) returns (res: AllocResult, ghost exact: bool)
    requires xa.Valid() && min < WORD && max < WORD && !entry.Inner?
    requires Inv(t, false) && SameContents(t, xa.View()) && t.trackFree == xa.trackFree
    modifies xa
    ensures xa.Valid()
    ensures res == NotAllocated(EINVAL) <==> entry.Retry? || !xa.trackFree
    ensures res != NotAllocated(EINVAL) ==> (exact <==> SoundFrom(t, min, max, 0))
    ensures res == NotAllocated(EBUSY) ==> NoneTagged(t, min, max + 1, 0)
    ensures res == NotAllocated(ENOMEM) ==> xa.quick == xa.slow == 0
    ensures res.NotAllocated? ==> SameContents(t, xa.View()) && res.err in {EINVAL, EBUSY, ENOMEM}
    ensures res.Allocated? ==> res.id <= max && FirstFree(t, min, res.id) && Put(t, xa.View(), res.id, Kept(entry, true))
    ensures Tracking(t) ==> Tracking(xa.View())
  {
    ghost var u := xa.View();
    SameTracks(t, u);
    res, exact := Alloc(xa, min, max, entry);
    if xa.trackFree { SoundAgain(t, u, min, max); }
    match res {
      case Allocated(id) =>
        FirstFreeSame(t, u, min, id);
        RetryPut(t, u, xa.View(), id, Kept(entry, true));
      case NotAllocated(e) =>
        SameTrans(t, u, xa.View());
        if e == EBUSY { NoneFreeSame(t, u, min, max + 1); }
    }
  }

  /** __xa_alloc_cyclic: from *next if it lies in range, and failing that from min. wrapped is the flag
      XA_FLAGS_ALLOC_WRAPPED. The code is 1 after wrapping. nomem tells that the first try failed for
      want of memory; that too leads to the second one. twice tells that there was a second one, exact
      whether find_next_bit() as written does what it is meant to in all searches. */
  method AllocCyclic(xa: XArray, min: nat, max: nat, entry: Entry, next0: nat, wrapped0: bool)
    returns (res: AllocResult, code: nat, next: nat, wrapped: bool, ghost nomem: bool, ghost twice: bool, ghost exact: bool)
    requires xa.Valid() && min < U32 && max < U32 && next0 < U32 && !entry.Inner?
    modifies xa
    ensures xa.Valid()
    ensures res == NotAllocated(EBUSY) ==> NoneTagged(old(xa.View()), min, max + 1, 0)
    ensures res.NotAllocated? ==> SameContents(old(xa.View()), xa.View()) && next == next0 && wrapped == wrapped0
    ensures res.Allocated? ==>
              && min <= res.id <= max && TagAt(old(xa.View()), res.id, 0)
              && Put(old(xa.View()), xa.View(), res.id, Kept(entry, true))
              && next == (res.id + 1) % U32
    ensures res.Allocated? && code == 0 ==>
              FirstFree(old(xa.View()), if next0 < min then min else next0, res.id) && !wrapped0
    ensures res.Allocated? && code == 1 && !wrapped0 && !nomem ==>
              min < next0 && NoneTagged(old(xa.View()), next0, max + 1, 0) && FirstFree(old(xa.View()), min, res.id)
    ensures res.Allocated? && code == 1 ==>
              || FirstFree(old(xa.View()), min, res.id)
              || (wrapped0 && FirstFree(old(xa.View()), if next0 < min then min else next0, res.id))
    ensures res.Allocated? ==> code <= 1 && (next == 0 ==> wrapped) && (wrapped ==> next == 0 || wrapped0)
    ensures res.Allocated? && code == 0 ==> (wrapped <==> next == 0)
    ensures nomem ==> FreeButMissing(old(xa.View()), if next0 < min then min else next0, max, entry == Empty || entry == Zero)
    ensures res == NotAllocated(ENOMEM) ==> (twice || nomem) && xa.quick == xa.slow == 0
    ensures res.NotAllocated? ==> res.err in {EINVAL, EBUSY, ENOMEM}
    ensures twice ==> min < next0 && (nomem || NoneTagged(old(xa.View()), next0, max + 1, 0))
    ensures res.NotAllocated? && res.err != EINVAL && min < next0 ==> twice
    ensures res != NotAllocated(EINVAL) ==>
              (exact <==> SoundFrom(old(xa.View()), if next0 < min then min else next0, max, 0)
                          && (twice ==> SoundFrom(old(xa.View()), min, max, 0)))
    ensures Tracking(old(xa.View())) ==> Tracking(xa.View())
  {
    ghost var t := xa.View();
    var from := if next0 < min then min else next0;
    res, exact := Alloc(xa, from, max, entry);
    twice := false;
    nomem := res == NotAllocated(ENOMEM);
    code, next, wrapped := 0, next0, wrapped0;
    if wrapped && res.Allocated? {
      wrapped := false;
      code := 1;
    }
    if res.NotAllocated? && from > min {
      ghost var first := res;
      ghost var again: bool;
      res, again := AllocAgain(xa, min, max, entry, t);
      assert match first.err case EINVAL => res == first case EBUSY => NoneTagged(t, next0, max + 1, 0) case ENOMEM => nomem;
      twice, exact := first.err != EINVAL, exact && again;
      if res.Allocated? { code := 1; }
    }
    if res.Allocated? {
      next := (res.id + 1) % U32;
      if next == 0 { wrapped := true; }
    }
  }

  // ----- marks

  /** xa_set_mark: an index that holds something gets the mark. */
  method SetMark(xa: XArray, index: nat, mark: nat)
    requires xa.Valid() && index < WORD && mark < TAGS
    modifies xa
    ensures xa.Valid() && forall j: nat :: Get(xa.View(), j) == Get(old(xa.View()), j)
    ensures forall j: nat, g: nat :: g < TAGS ==>
              (TagAt(xa.View(), j, g) <==>
               (j == index && g == mark && !Get(old(xa.View()), index).Empty?) || TagAt(old(xa.View()), j, g))
    ensures Tracking(old(xa.View())) ==>
              (Tracking(xa.View()) <==> !(xa.trackFree && mark == 0 && !Get(old(xa.View()), index).Empty?))
  {
    var xas := new XaState(xa, index);
    var entry := xas.Load();
    ghost var t := xa.View();
    if !entry.Empty? {
      assert Get(t, index) == entry;
      xas.SetMark(mark);
      MarkPlain(t, xa.View(), index, mark, true);
      SameButTagsGet(t, xa.View());
    }
    if Tracking(t) { MarkTracks(t, xa.View(), index, mark, true); }
  }

  /** xa_clear_mark. */
  method ClearMark(xa: XArray, index: nat, mark: nat)
    requires xa.Valid() && index < WORD && mark < TAGS
    modifies xa
    ensures xa.Valid() && forall j: nat :: Get(xa.View(), j) == Get(old(xa.View()), j)
    ensures forall j: nat, g: nat :: g < TAGS ==>
              (TagAt(xa.View(), j, g) <==>
               !(j == index && g == mark && !Get(old(xa.View()), index).Empty?) && TagAt(old(xa.View()), j, g))
    ensures Tracking(old(xa.View())) ==> Tracking(xa.View())
  {
    var xas := new XaState(xa, index);
    var entry := xas.Load();
    ghost var t := xa.View();
    if !entry.Empty? {
      assert Get(t, index) == entry;
      xas.ClearMark(mark);
      MarkPlain(t, xa.View(), index, mark, false);
      SameButTagsGet(t, xa.View());
    }
    if Tracking(t) { MarkTracks(t, xa.View(), index, mark, false); }
  }

  /** xas_get_mark at the cursor. */
  method MarkHere(xas: XaState, mark: nat) returns (b: bool)
    requires xas.OnPath() && mark < TAGS
    ensures b <==> !xas.at.Invalid?() && if xas.at.In? then xas.xa.nodes[xas.at.ref].tags[mark][xas.offset] else xas.xa.rootTags[mark]
  {
    if xas.at.Invalid?() { return false; }
    b := if xas.at.In? then xas.xa.nodes[xas.at.ref].tags[mark][xas.offset] else xas.xa.rootTags[mark];
  }

  /** xa_get_mark: the marks are followed down from the root's. */
  method GetMark(xa: XArray, index: nat, mark: nat) returns (b: bool)
    requires xa.Valid() && index < WORD && mark < TAGS
    ensures b <==> index <= MaxIndex(xa.head) && TagAt(xa.View(), index, mark)
  {
    var xas := new XaState(xa, index);
    var entry := xas.Start();
    RootExact(xa.View(), mark);
    assert RootOk(xa.View(), mark);
    if xas.at.Invalid?() { return false; }
    xas.WalkingSlot(entry);
    b := MarkedDown(xas, entry, mark);
  }

  /** The loop of xa_get_mark, from the head. */
  method MarkedDown(xas: XaState, entry0: Entry, mark: nat) returns (b: bool)
    requires mark < TAGS && xas.Walking(entry0) && xas.at.Head?
    requires !xas.xa.rootTags[mark] ==> !TagAt(xas.xa.View(), xas.index, mark)
    requires xas.xa.rootTags[mark] && !entry0.Inner? ==> TagAt(xas.xa.View(), xas.index, mark)
    modifies xas`at, xas`offset
    ensures b <==> TagAt(xas.xa.View(), xas.index, mark)
  {
    var entry := entry0;
    b := MarkHere(xas, mark);
    while b
      invariant xas.Walking(entry)
      invariant !b ==> !TagAt(xas.xa.View(), xas.index, mark)
      invariant b && !entry.Inner? ==> TagAt(xas.xa.View(), xas.index, mark)
      decreases if entry.Inner? then entry.ref.level + 1 else 0, b
    {
      if !entry.Inner? { return true; }
      var r := entry.ref;
      entry := xas.Descend(r);
      TagDown(xas.xa.View(), xas.index, r, mark);
      b := MarkHere(xas, mark);
    }
  }

  // ----- finding

  /** Index i is one that xa_find looks for: it holds an entry, carrying the mark if one is asked for. */
  ghost predicate Selected(t: Tree, filter: Option<nat>, i: nat)
    requires Shape(t) && (filter.Some? ==> filter.value < TAGS)
  {
    !Shown(Get(t, i)).Empty? && (filter.Some? ==> TagAt(t, i, filter.value))
  }

  ghost predicate NoneSelected(t: Tree, filter: Option<nat>, lo: nat, hi: nat)
    requires Shape(t) && (filter.Some? ==> filter.value < TAGS)
  {
    forall i: nat {:trigger Get(t, i)} :: lo <= i < hi ==> !Selected(t, filter, i)
  }

  /** xas_find_marked or xas_find stop at index i: at one that is looked for, or, when the free mark of an
      allocating array is asked for, also at one that holds nothing. */
  ghost predicate Stops(t: Tree, filter: Option<nat>, i: nat)
    requires Shape(t) && (filter.Some? ==> filter.value < TAGS)
  {
    || Selected(t, filter, i)
    || (t.trackFree && filter == Some(0) && TagAt(t, i, 0) && Get(t, i).Empty?)
  }

  ghost predicate NoneStops(t: Tree, filter: Option<nat>, lo: nat, hi: nat)
    requires Shape(t) && (filter.Some? ==> filter.value < TAGS)
  {
    forall i: nat {:trigger Get(t, i)} :: lo <= i < hi ==> !Stops(t, filter, i)
  }

  /** The search stops first at index i, which holds nothing. */
  ghost predicate StopsAtNothing(t: Tree, filter: Option<nat>, lo: nat, i: nat)
    requires Shape(t) && (filter.Some? ==> filter.value < TAGS)
  {
    lo <= i && Stops(t, filter, i) && Get(t, i).Empty? && NoneStops(t, filter, lo, i)
  }

  /** The search finds nothing: no index stops it, or the first one that does holds nothing. */
  ghost predicate FindsNothing(t: Tree, filter: Option<nat>, lo: nat, max: nat)
    requires Shape(t) && (filter.Some? ==> filter.value < TAGS)
  {
    NoneStops(t, filter, lo, max + 1) || exists i: nat :: i <= max && StopsAtNothing(t, filter, lo, i)
  }

  /** xas_find_marked or xas_find. */
  method FindNext(xas: XaState, max: nat, filter: Option<nat>) returns (entry: Entry)
    requires xas.Valid() && max < WORD && (xas.at.Restart? || xas.AtSlot())
    requires filter.Some? ==> filter.value < TAGS
    modifies xas
    ensures xas.xa.Valid()
    ensures !entry.Empty? ==>
              && xas.AtSlot() && old(xas.SearchFrom()) <= xas.index <= max && entry == Get(xas.xa.View(), xas.index)
              && (filter.Some? ==> TagAt(xas.xa.View(), xas.index, filter.value))
              && NoneStops(xas.xa.View(), filter, old(xas.SearchFrom()), xas.index)
    ensures entry.Empty? ==> FindsNothing(xas.xa.View(), filter, old(xas.SearchFrom()), max)
  {
    ghost var t := xas.xa.View();
    if filter.Some? {
      ghost var exact;
      entry, exact := xas.FindMarked(max, filter.value);
      EmptyIsDefault(t, xas.index);
      if xas.at.Restart? {
        NoneMarked(t, filter.value, old(xas.SearchFrom()), max + 1);
      } else {
        NoneMarked(t, filter.value, old(xas.SearchFrom()), xas.index);
        if xas.at.Bounds? { BoundsStop(t, filter.value, old(xas.SearchFrom()), xas.index, max); }
        if entry.Empty? && !xas.at.Bounds? { assert StopsAtNothing(t, filter, old(xas.SearchFrom()), xas.index); }
      }
    } else {
      entry := xas.Find(max);
      NoneHeld(t, old(xas.SearchFrom()), if entry.Empty? then max + 1 else xas.index);
    }
  }

  lemma NoneHeld(t: Tree, lo: nat, hi: nat)
    requires Shape(t)
    ensures NoneStored(t, lo, hi) ==> NoneStops(t, None, lo, hi)
  {
    forall i: nat | NoneStored(t, lo, hi) && lo <= i < hi
      ensures !Stops(t, None, i)
    {
      assert Get(t, i).Empty?;
    }
  }

  /** A reserved index is passed over. */
  lemma PassReserved(t: Tree, filter: Option<nat>, lo: nat, i: nat, hi: nat)
    requires Shape(t) && (filter.Some? ==> filter.value < TAGS) && Get(t, i).Zero? && NoneStops(t, filter, lo, i)
    ensures NoneStops(t, filter, i + 1, hi) ==> NoneStops(t, filter, lo, hi)
  {
    forall j: nat | NoneStops(t, filter, i + 1, hi) && lo <= j < hi
      ensures !Stops(t, filter, j)
    {
      assert Get(t, j) == Get(t, j);
    }
  }

  lemma PassReservedTo(t: Tree, filter: Option<nat>, lo: nat, i: nat, max: nat)
    requires Shape(t) && (filter.Some? ==> filter.value < TAGS) && Get(t, i).Zero? && NoneStops(t, filter, lo, i) && lo <= i
    ensures FindsNothing(t, filter, i + 1, max) ==> FindsNothing(t, filter, lo, max)
  {
    PassReserved(t, filter, lo, i, max + 1);
    if FindsNothing(t, filter, i + 1, max) && !NoneStops(t, filter, i + 1, max + 1) {
      var j: nat :| j <= max && StopsAtNothing(t, filter, i + 1, j);
      PassReserved(t, filter, lo, i, j);
      assert StopsAtNothing(t, filter, lo, j);
    }
  }

  lemma NoneMarked(t: Tree, mark: nat, lo: nat, hi: nat)
    requires Shape(t) && mark < TAGS && NoneTagged(t, lo, hi, mark)
    ensures NoneStops(t, Some(mark), lo, hi)
  {
    forall i: nat | lo <= i < hi
      ensures !Stops(t, Some(mark), i)
    {
      assert !TagAt(t, i, mark);
    }
  }

  /** Beyond the tree only the free mark stops a search. */
  lemma BoundsStop(t: Tree, mark: nat, lo: nat, mid: nat, max: nat)
    requires Inv(t, false) && mark < TAGS && NoneStops(t, Some(mark), lo, mid) && MaxIndex(t.head) < mid && lo <= mid <= max
    ensures FindsNothing(t, Some(mark), lo, max)
  {
    NothingBeyond(t, mid);
    if t.trackFree && mark == 0 {
      BeyondFree(t, mid);
      assert StopsAtNothing(t, Some(mark), lo, mid);
    } else {
      forall i: nat | lo <= i < max + 1
        ensures !Stops(t, Some(mark), i)
      {
        if i < mid { assert Get(t, i) == Get(t, i); } else { NothingBeyond(t, i); }
      }
    }
  }

  /** What is passed over is not what is looked for, and a search for anything but the free mark stops
      only where it finds. While the marks are as these functions keep them, nothing carries that mark. */
  lemma StopsSelected(t: Tree, filter: Option<nat>, lo: nat, max: nat)
    requires Shape(t) && (filter.Some? ==> filter.value < TAGS)
    ensures NoneStops(t, filter, lo, max) ==> NoneSelected(t, filter, lo, max)
    ensures !(t.trackFree && filter == Some(0)) || Tracking(t) ==>
              (FindsNothing(t, filter, lo, max) ==> NoneSelected(t, filter, lo, max + 1))
  {
    if t.trackFree && filter == Some(0) && Tracking(t) {
      forall i: nat
        ensures !Selected(t, filter, i)
      {
        assert TagAt(t, i, 0) <==> Get(t, i).Empty?;
      }
    }
    if NoneStops(t, filter, lo, max) {
      forall i: nat | lo <= i < max
        ensures !Selected(t, filter, i)
      {
        assert Get(t, i) == Get(t, i);
      }
    }
    if NoneStops(t, filter, lo, max + 1) {
      forall i: nat | lo <= i < max + 1
        ensures !Selected(t, filter, i)
      {
        assert Get(t, i) == Get(t, i);
      }
    }
  }

  /** xa_find: the first entry from start to max that matches the filter, or none exactly when there is
      none. Reserved indices are skipped. The free mark of an allocating array also finds what holds
      nothing; that ends the search with NULL. */
  method Find(xa: XArray, start: nat, max: nat, filter: Option<nat>) returns (entry: Entry, index: nat)
    requires xa.Valid() && start < WORD && max < WORD
    requires filter.Some? ==> filter.value < TAGS
    ensures entry.Empty? ==> FindsNothing(xa.View(), filter, start, max) && index == start
    ensures !entry.Empty? ==>
              && start <= index <= max && entry == Get(xa.View(), index) && Selected(xa.View(), filter, index)
              && NoneStops(xa.View(), filter, start, index) && NoneSelected(xa.View(), filter, start, index)
    ensures entry.Empty? && (!(xa.trackFree && filter == Some(0)) || Tracking(xa.View())) ==>
              NoneSelected(xa.View(), filter, start, max + 1)
  {
    var xas := new XaState(xa, start);
    index := start;
    entry := FindNext(xas, max, filter);
    while entry.Zero?
      invariant fresh(xas) && xas.xa == xa && xa.Valid()
      invariant entry.Empty? ==> FindsNothing(xa.View(), filter, start, max)
      invariant !entry.Empty? ==>
                  && xas.AtSlot() && start <= xas.index <= max && entry == Get(xa.View(), xas.index)
                  && (filter.Some? ==> TagAt(xa.View(), xas.index, filter.value))
                  && NoneStops(xa.View(), filter, start, xas.index)
      decreases !entry.Empty?, WORD - xas.index
    {
      ghost var i := xas.index;
      entry := FindNext(xas, max, filter);
      PassReserved(xa.View(), filter, start, i, xas.index);
      PassReservedTo(xa.View(), filter, start, i, max);
    }
    if entry.Empty? {
      StopsSelected(xa.View(), filter, start, max);
    } else {
      StopsSelected(xa.View(), filter, start, xas.index);
      index := xas.index;
    }
  }
}
