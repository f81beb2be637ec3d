/** Whether keys stay unique in the runs that lib/rhashtable.c can have: it starts with a flat table, and
    attaches others where inserts and the deferred worker ask for them. */
module RHashUnique {
  import opened Wrappers
  import opened RHashTable
  import opened RHashSystem

  /** Smaller tables are never nested (nested_bucket_table_alloc). */
  const NESTED_MIN: nat := 1024

  /** rht_grow_above_75, for the number of elements that was read. */
  predicate GrowAbove75(p: Params, nelems: nat, t: Table) {
    nelems > t.size / 4 * 3 && (p.maxSize == 0 || t.size < p.maxSize)
  }

  /** An insert ends with -EAGAIN at table at. */
  predicate GivesUp(p: Params, y: System, a: Action, at: nat) {
    && CanDo(p, y, a)
    && match a
       case Look(id, nelems) =>
         y.inserts[id].at == at && Decide(p, y.s, y.inserts[id].obj, y.inserts[id].keyed, at, nelems).Again?
       case Follow(id) => y.inserts[id].at == at && y.s.tables[at].future.None?
       case _ => false
  }

  /** Action i attaches a table as the code does. An insert that gave up with action j asks for one of the
      same size, or twice that, having read which table is the current one before action m1 and the number
      of elements before action m2 (rhashtable_insert_rehash); only its table can be nested. The worker
      grows the newest table, or replaces it if it is nested, or shrinks the current one. */
  predicate CausedBy(p: Params, ys: seq<System>, actions: seq<Action>, i: nat, j: nat, m1: nat, m2: nat) {
    && j <= m1 <= m2 <= i < |actions| < |ys| && actions[i].Attach? && actions[i].to < |ys[m2].s.tables|
    && var Attach(to, size, _, nested) := actions[i];
       var t := ys[m2].s.tables[to];
       var grow := GrowAbove75(p, ys[m2].s.nelems, t);
       || (&& j < m1 && GivesUp(p, ys[j], actions[j], to) && (nested ==> size >= NESTED_MIN)
           && if grow then size == 2 * t.size else size == t.size && ys[m1].s.cur == to)
       || (&& !nested && to + 1 == |ys[m1].s.tables|
           && if grow then size == 2 * t.size else t.nested && size == t.size)
       || (!nested && ys[m1].s.cur == to && size < t.size)
  }

  ghost predicate Caused(p: Params, ys: seq<System>, actions: seq<Action>, i: nat) {
    exists j: nat, m1: nat, m2: nat :: CausedBy(p, ys, actions, i, j, m1, m2)
  }

  /** A run of keyed inserts from a flat first table of this size. nests tells whether nested tables may be
      attached: whether memory can be too short for a flat one. */
  ghost predicate KeyedRun(p: Params, ys: seq<System>, actions: seq<Action>, size: nat, seed: nat, nests: bool) {
    && IsRun(p, ys, actions) && ys[0] == Init(size, seed, false)
    && (forall i: nat :: i < |actions| && actions[i].Begin? ==> actions[i].keyed)
    && (forall i: nat :: i < |actions| && actions[i].Attach? ==> (actions[i].nested ==> nests) && Caused(p, ys, actions, i))
  }

  function Last(ys: seq<System>): System
    requires ys != []
  {
    ys[|ys| - 1]
  }

  lemma CausedKept(p: Params, ys: seq<System>, actions: seq<Action>, y: System, a: Action, i: nat)
    requires |ys| == |actions| + 1 && i < |actions| && Caused(p, ys, actions, i)
    ensures Caused(p, ys + [y], actions + [a], i)
  {
    var j: nat, m1: nat, m2: nat :| CausedBy(p, ys, actions, i, j, m1, m2);
    assert CausedBy(p, ys + [y], actions + [a], i, j, m1, m2);
  }

  lemma StillRun(p: Params, ys: seq<System>, actions: seq<Action>, a: Action)
    requires IsRun(p, ys, actions) && CanDo(p, Last(ys), a)
    ensures IsRun(p, ys + [Do(p, Last(ys), a)], actions + [a])
  {
    var zs, bs := ys + [Do(p, Last(ys), a)], actions + [a];
    assert zs[0] == ys[0];
    forall i: nat | i < |bs|
      ensures CanDo(p, zs[i], bs[i]) && zs[i + 1] == Do(p, zs[i], bs[i])
    {
      if i < |actions| { assert zs[i] == ys[i] && zs[i + 1] == ys[i + 1] && bs[i] == actions[i]; }
    }
  }

  /** One more step of a run. */
  lemma More(p: Params, ys: seq<System>, actions: seq<Action>, size: nat, seed: nat, nests: bool, a: Action)
    returns (zs: seq<System>, bs: seq<Action>)
    requires KeyedRun(p, ys, actions, size, seed, nests) && CanDo(p, Last(ys), a) && (a.Begin? ==> a.keyed)
    requires a.Attach? ==> (a.nested ==> nests) && Caused(p, ys + [Do(p, Last(ys), a)], actions + [a], |actions|)
    ensures KeyedRun(p, zs, bs, size, seed, nests) && Last(zs) == Do(p, Last(ys), a)
    ensures zs == ys + [Last(zs)] && bs == actions + [a]
  {
    zs, bs := ys + [Do(p, Last(ys), a)], actions + [a];
    StillRun(p, ys, actions, a);
    forall i: nat | i < |bs| && bs[i].Attach?
      ensures (bs[i].nested ==> nests) && Caused(p, zs, bs, i)
    {
      if i < |actions| { CausedKept(p, ys, actions, Last(zs), a, i); }
    }
  }

  /** Keyed inserts keep keys unique in every run from a flat table of this size, if and only if no nested
      table is attached. The size is one from which a nested table can be attached; there is room for the
      elements that make the table grow, and it may grow. */
  lemma UniqueIffFlat(p: Params, size: nat, seed: nat, nests: bool)
    requires size >= NESTED_MIN && p.maxElems >= size + 3 && (p.maxSize == 0 || size < p.maxSize)
    ensures (forall ys: seq<System>, actions: seq<Action> :: KeyedRun(p, ys, actions, size, seed, nests) ==>
               UniqueKeys(ys[|actions|].s))
            <==> !nests
  {
    if nests {
      var ys, actions, k := DuplicateRun(p, size, seed);
      assert ys[|actions|] == Last(ys) && TablesSum(ys[|actions|].s.tables, OfKey(k)) > 1;
    } else {
      forall ys: seq<System>, actions: seq<Action> | KeyedRun(p, ys, actions, size, seed, nests)
        ensures UniqueKeys(ys[|actions|].s)
      {
        FlatUnique(p, ys, actions, size, seed);
      }
    }
  }

  /** Without nested tables an insert never fails to get memory for a bucket. This needs no assumption on
      sizes or limits. */
  lemma FlatUnique(p: Params, ys: seq<System>, actions: seq<Action>, size: nat, seed: nat)
    requires KeyedRun(p, ys, actions, size, seed, false)
    ensures UniqueKeys(ys[|actions|].s)
  {
    forall i: nat | i < |actions|
      ensures !FailsNewest(p, ys[i], actions[i])
    {
      RunFlat(p, ys, actions, i);
      RunOk(p, ys, actions, i);
      FlatFinds(p, ys[i], actions[i]);
    }
    RunUniqueNoFailure(p, ys, actions, |actions|);
  }

  // ----- the run that stores a key twice: its first table fills up

  const FIRST: nat := 0
  const SECOND: nat := 1

  /** The flat first table holds n objects with keys below n, and no insert is under way. */
  ghost predicate Filled(p: Params, y: System, size: nat, n: nat) {
    && y.inserts == map[] && Inv(p, y.s) && |y.s.tables| == 1 && y.s.cur == 0 && y.s.nelems == n
    && (var t := y.s.tables[0]; t.size == size && !t.nested && t.future == None && t.absent == {})
    && (forall o :: o in y.stored ==> o.id < n)
    && (forall k: nat :: k >= n ==> TablesSum(y.s.tables, OfKey(k)) == 0)
  }

  /** What is decided about an absent key. */
  lemma AbsentDecide(p: Params, s: State, o: Object, at: nat, nelems: nat)
    requires Inv(p, s) && at < |s.tables| && TablesSum(s.tables, OfKey(o.key)) == 0
    ensures var t := s.tables[at];
      Decide(p, s, o, true, at, nelems) ==
      if t.future.Some? then Next
      else if |t.buckets[Bucket(p, t, o.key)]| >= ELASTICITY then Again
      else if nelems >= p.maxElems then TooBig
      else if GrowAbove100(p, nelems, t) then Again else Added
  {
    KeyNowhere(s.tables, o.key);
    KeyInChain(p, s, at, o.key);
    assert KeyIn(s, at, o.key) == 0;
  }

  /** An insert of a new key, up to its decision. */
  lemma FillLook(p: Params, y: System, size: nat, n: nat)
    requires Filled(p, y, size, n)
    ensures CanDo(p, y, Begin(FIRST, Object(n, n), true))
    ensures var y1 := Do(p, y, Begin(FIRST, Object(n, n), true));
      && y1.s == y.s && y1.stored == y.stored && y1.inserts == map[FIRST := Insert(Object(n, n), true, 0, None, false, false)]
      && CanDo(p, y1, Look(FIRST, n))
  {
    assert Sized(y.s.tables[0]);
  }

  /** It is added. */
  lemma FillAdd(p: Params, y1: System, size: nat, n: nat)
    requires y1.inserts == map[FIRST := Insert(Object(n, n), true, 0, None, false, false)]
    requires Filled(p, y1.(inserts := map[]), size, n) && CanDo(p, y1, Look(FIRST, n))
    requires Decide(p, y1.s, Object(n, n), true, 0, n) == Added
    ensures CanDo(p, Do(p, y1, Look(FIRST, n)), Add(FIRST))
    ensures Filled(p, Do(p, Do(p, y1, Look(FIRST, n)), Add(FIRST)), size, n + 1)
  {
    var o := Object(n, n);
    var y3 := Do(p, Do(p, y1, Look(FIRST, n)), Add(FIRST));
    ApplyInv(p, y1.s, o, 0, Added);
    forall k: nat | k >= n + 1
      ensures TablesSum(y3.s.tables, OfKey(k)) == 0
    {
      ApplySums(p, y1.s, o, 0, Added, OfKey(k));
    }
  }

  /** The table fills until an insert is told to try again: at the latest when it has more elements than
      buckets. */
  lemma {:induction false} Fill(p: Params, ys: seq<System>, actions: seq<Action>, size: nat, seed: nat, n: nat)
    returns (zs: seq<System>, bs: seq<Action>, m: nat)
    requires KeyedRun(p, ys, actions, size, seed, true) && Filled(p, Last(ys), size, n) && n <= size + 1
    requires p.maxElems >= size + 3 && (p.maxSize == 0 || size < p.maxSize)
    ensures KeyedRun(p, zs, bs, size, seed, true) && Filled(p, Last(zs), size, m) && m <= size + 1
    ensures Decide(p, Last(zs).s, Object(m, m), true, 0, m) == Again
    decreases size + 1 - n
  {
    var y, o := Last(ys), Object(n, n);
    AbsentDecide(p, y.s, o, 0, n);
    if Decide(p, y.s, o, true, 0, n) == Again { return ys, actions, n; }
    FillLook(p, y, size, n);
    zs, bs := More(p, ys, actions, size, seed, true, Begin(FIRST, o, true));
    FillAdd(p, Last(zs), size, n);
    zs, bs := More(p, zs, bs, size, seed, true, Look(FIRST, n));
    zs, bs := More(p, zs, bs, size, seed, true, Add(FIRST));
    zs, bs, m := Fill(p, zs, bs, size, seed, n + 1);
  }

  // ----- a nested table is attached

  /** A nested table follows the first one. None of its pages is in memory, and key k is nowhere. */
  ghost predicate Behind(p: Params, y: System, n: nat, k: nat, size: nat, seed: nat) {
    && y.inserts == map[] && Inv(p, y.s) && |y.s.tables| == 2 && y.s.cur == 0 && y.s.nelems == n
    && y.s.tables[0].future == Some(1) && y.s.tables[0].absent == {} && y.s.tables[1] == FreshTable(size, seed, true)
    && size > 0 && n + 1 < p.maxElems && n + 1 <= size
    && (forall o :: o in y.stored ==> o.id < n) && TablesSum(y.s.tables, OfKey(k)) == 0
  }

  /** The insert is told to try again, and ends. */
  lemma Ends(p: Params, ys: seq<System>, actions: seq<Action>, size: nat, seed: nat, n: nat)
    returns (zs: seq<System>, bs: seq<Action>)
    requires KeyedRun(p, ys, actions, size, seed, true) && Filled(p, Last(ys), size, n)
    requires Decide(p, Last(ys).s, Object(n, n), true, 0, n) == Again
    ensures KeyedRun(p, zs, bs, size, seed, true) && Filled(p, Last(zs), size, n)
    ensures bs != [] && GivesUp(p, zs[|bs| - 1], bs[|bs| - 1], 0)
  {
    FillLook(p, Last(ys), size, n);
    zs, bs := More(p, ys, actions, size, seed, true, Begin(FIRST, Object(n, n), true));
    zs, bs := More(p, zs, bs, size, seed, true, Look(FIRST, n));
  }

  lemma AttachedBehind(p: Params, y: System, size: nat, n: nat, size2: nat, seed: nat)
    requires Filled(p, y, size, n) && n + 1 < p.maxElems && size2 > 0 && n + 1 <= size2
    ensures CanDo(p, y, Attach(0, size2, seed, true))
    ensures Behind(p, Do(p, y, Attach(0, size2, seed, true)), n, n + 1, size2, seed)
  {
    AttachInv(p, y.s, 0, size2, seed, true);
    AttachSums(y.s, 0, size2, seed, true, OfKey(n + 1));
  }

  /** A nested table is attached as that insert asks for it. */
  lemma Attaches(p: Params, ys: seq<System>, actions: seq<Action>, size: nat, seed: nat, n: nat)
    returns (zs: seq<System>, bs: seq<Action>, size2: nat)
    requires KeyedRun(p, ys, actions, size, seed, true) && Filled(p, Last(ys), size, n) && n <= size + 1
    requires size >= NESTED_MIN && p.maxElems >= size + 3 && (p.maxSize == 0 || size < p.maxSize)
    requires actions != [] && GivesUp(p, ys[|actions| - 1], actions[|actions| - 1], 0)
    ensures KeyedRun(p, zs, bs, size, seed, true) && Behind(p, Last(zs), n, n + 1, size2, seed)
  {
    var y, i := Last(ys), |actions|;
    size2 := if GrowAbove75(p, n, y.s.tables[0]) then 2 * size else size;
    var a := Attach(0, size2, seed, true);
    AttachedBehind(p, y, size, n, size2, seed);
    zs, bs := ys + [Do(p, y, a)], actions + [a];
    assert CausedBy(p, zs, bs, i, i - 1, i, i);
    zs, bs := More(p, ys, actions, size, seed, true, a);
  }

  // ----- two inserts of one key

  /** An insert begins, and finds that it has to look in the nested table. */
  lemma GoesOn(p: Params, ys: seq<System>, actions: seq<Action>, size: nat, seed: nat, id: nat, o: Object)
    returns (zs: seq<System>, bs: seq<Action>)
    requires KeyedRun(p, ys, actions, size, seed, true) && id !in Last(ys).inserts && o !in Last(ys).stored
    requires forall k :: k in Last(ys).inserts ==> Last(ys).inserts[k].obj != o && !Last(ys).inserts[k].holds
    requires var s := Last(ys).s;
      && Inv(p, s) && |s.tables| == 2 && s.cur == 0 && s.tables[0].future == Some(1) && s.tables[0].absent == {}
      && TablesSum(s.tables, OfKey(o.key)) == 0
    ensures KeyedRun(p, zs, bs, size, seed, true)
    ensures Last(zs) == Last(ys).(inserts := Last(ys).inserts[id := Insert(o, true, 1, None, false, false)])
  {
    var y := Last(ys);
    assert Sized(y.s.tables[0]);
    AbsentDecide(p, y.s, o, 0, y.s.nelems);
    zs, bs := More(p, ys, actions, size, seed, true, Begin(id, o, true));
    zs, bs := More(p, zs, bs, size, seed, true, Look(id, y.s.nelems));
  }

  /** FIRST misses its page of the nested table, and SECOND has come to the same bucket. */
  lemma Misses(p: Params, ys: seq<System>, actions: seq<Action>, size: nat, seed: nat, n: nat, k: nat, size2: nat)
    returns (zs: seq<System>, bs: seq<Action>)
    requires KeyedRun(p, ys, actions, size, seed, true) && Behind(p, Last(ys), n, k, size2, seed)
    ensures KeyedRun(p, zs, bs, size, seed, true) && Last(zs).s == Last(ys).s && Last(zs).stored == Last(ys).stored
    ensures Last(zs).inserts == map[FIRST := Insert(Object(n + 1, k), true, 1, Some(false), false, false),
                                    SECOND := Insert(Object(n + 2, k), true, 1, None, false, false)]
  {
    zs, bs := GoesOn(p, ys, actions, size, seed, FIRST, Object(n + 1, k));
    zs, bs := More(p, zs, bs, size, seed, true, Miss(FIRST));
    zs, bs := GoesOn(p, zs, bs, size, seed, SECOND, Object(n + 2, k));
  }

  /** The nested table once its pages are in memory: the key can be added there. */
  lemma PagedAdds(p: Params, y: System, n: nat, k: nat, size2: nat, seed: nat, o: Object)
    requires Behind(p, y, n, k, size2, seed) && o.key == k
    ensures var s := PageAdded(y.s, 1, AllBuckets(size2));
      && Inv(p, s) && s.tables[1].absent == {} && Decide(p, s, o, true, 1, n) == Added
      && var u := Apply(p, s, o, 1, Added);
         && Inv(p, u) && |u.tables| == 2 && u.cur == 0 && u.nelems == n + 1 && TablesSum(u.tables, OfKey(k)) == 1
         && u.tables[1].size == size2 && u.tables[1].nested && u.tables[1].future == None
  {
    var s := PageAdded(y.s, 1, AllBuckets(size2));
    PageOk(p, y.s, 1, AllBuckets(size2));
    assert s.tables[1].absent == {};
    AbsentDecide(p, s, o, 1, n);
    ApplyInv(p, s, o, 1, Added);
    ApplySums(p, s, o, 1, Added, OfKey(k));
  }

  /** SECOND gets the pages and the lock of its bucket. */
  lemma LooksThere(p: Params, ys: seq<System>, actions: seq<Action>, size: nat, seed: nat, n: nat, k: nat, size2: nat, was: System)
    returns (zs: seq<System>, bs: seq<Action>)
    requires KeyedRun(p, ys, actions, size, seed, true) && Behind(p, was, n, k, size2, seed) && Last(ys).s == was.s
    requires Last(ys).inserts == map[FIRST := Insert(Object(n + 1, k), true, 1, Some(false), false, false),
                                     SECOND := Insert(Object(n + 2, k), true, 1, None, false, false)]
    ensures KeyedRun(p, zs, bs, size, seed, true) && Last(zs).s == PageAdded(was.s, 1, AllBuckets(size2))
    ensures Last(zs).inserts == map[FIRST := Insert(Object(n + 1, k), true, 1, Some(false), false, false),
                                    SECOND := Insert(Object(n + 2, k), true, 1, None, false, true)]
  {
    zs, bs := More(p, ys, actions, size, seed, true, PageIn(1, AllBuckets(size2)));
    LooksOk(p, Last(zs), n, k, size2, seed, was);
    zs, bs := More(p, zs, bs, size, seed, true, Look(SECOND, n));
  }

  lemma LooksOk(p: Params, y: System, n: nat, k: nat, size2: nat, seed: nat, was: System)
    requires Behind(p, was, n, k, size2, seed) && y.s == PageAdded(was.s, 1, AllBuckets(size2))
    requires y.inserts == map[FIRST := Insert(Object(n + 1, k), true, 1, Some(false), false, false),
                              SECOND := Insert(Object(n + 2, k), true, 1, None, false, false)]
    ensures CanDo(p, y, Look(SECOND, n)) && Do(p, y, Look(SECOND, n)).s == y.s
    ensures Do(p, y, Look(SECOND, n)).inserts == map[FIRST := Insert(Object(n + 1, k), true, 1, Some(false), false, false),
                                                     SECOND := Insert(Object(n + 2, k), true, 1, None, false, true)]
  {
    PagedAdds(p, was, n, k, size2, seed, Object(n + 2, k));
  }

  /** SECOND gets the pages and adds the key to the nested table. */
  lemma AddsThere(p: Params, ys: seq<System>, actions: seq<Action>, size: nat, seed: nat, n: nat, k: nat, size2: nat, was: System)
    returns (zs: seq<System>, bs: seq<Action>)
    requires KeyedRun(p, ys, actions, size, seed, true) && Behind(p, was, n, k, size2, seed) && Last(ys).s == was.s
    requires Last(ys).inserts == map[FIRST := Insert(Object(n + 1, k), true, 1, Some(false), false, false),
                                     SECOND := Insert(Object(n + 2, k), true, 1, None, false, false)]
    ensures KeyedRun(p, zs, bs, size, seed, true)
    ensures Last(zs).s == Apply(p, PageAdded(was.s, 1, AllBuckets(size2)), Object(n + 2, k), 1, Added)
    ensures Last(zs).inserts == map[FIRST := Insert(Object(n + 1, k), true, 1, Some(false), false, false)]
  {
    PagedAdds(p, was, n, k, size2, seed, Object(n + 2, k));
    zs, bs := LooksThere(p, ys, actions, size, seed, n, k, size2, was);
    zs, bs := More(p, zs, bs, size, seed, true, Add(SECOND));
  }

  /** A third table behind the nested one. */
  lemma ReplacedBy(p: Params, y: System, n: nat, k: nat, size3: nat, seed: nat)
    requires Inv(p, y.s) && |y.s.tables| == 2 && y.s.nelems == n + 1 && TablesSum(y.s.tables, OfKey(k)) == 1
    requires y.s.tables[1].future == None && size3 > 0
    requires y.inserts == map[FIRST := Insert(Object(n + 1, k), true, 1, Some(false), false, false)]
    ensures CanDo(p, y, Attach(1, size3, seed, false))
    ensures var u := Do(p, y, Attach(1, size3, seed, false));
      && Inv(p, u.s) && |u.s.tables| == 3 && u.s.nelems == n + 1 && TablesSum(u.s.tables, OfKey(k)) == 1
      && u.s.tables[2] == FreshTable(size3, seed, false) && CanDo(p, u, Follow(FIRST))
      && Do(p, u, Follow(FIRST)).s == u.s
      && Do(p, u, Follow(FIRST)).inserts == map[FIRST := Insert(Object(n + 1, k), true, 2, None, true, false)]
  {
    AttachInv(p, y.s, 1, size3, seed, false);
    AttachSums(y.s, 1, size3, seed, false, OfKey(k));
  }

  /** The worker replaces the nested table, and FIRST goes on to the new one. */
  lemma Replaces(p: Params, ys: seq<System>, actions: seq<Action>, size: nat, seed: nat, n: nat, k: nat, size2: nat)
    returns (zs: seq<System>, bs: seq<Action>)
    requires KeyedRun(p, ys, actions, size, seed, true) && size2 > 0 && n + 1 <= size2
    requires var s := Last(ys).s;
      && Inv(p, s) && |s.tables| == 2 && s.cur == 0 && s.nelems == n + 1 && TablesSum(s.tables, OfKey(k)) == 1
      && s.tables[1].size == size2 && s.tables[1].nested && s.tables[1].future == None
    requires Last(ys).inserts == map[FIRST := Insert(Object(n + 1, k), true, 1, Some(false), false, false)]
    ensures KeyedRun(p, zs, bs, size, seed, true)
    ensures var s := Last(zs).s;
      && Inv(p, s) && |s.tables| == 3 && s.nelems == n + 1 && TablesSum(s.tables, OfKey(k)) == 1
      && s.tables[2].size >= n + 1 && s.tables[2] == FreshTable(s.tables[2].size, seed, false)
    ensures Last(zs).inserts == map[FIRST := Insert(Object(n + 1, k), true, 2, None, true, false)]
  {
    var y, i := Last(ys), |actions|;
    var size3 := if GrowAbove75(p, n + 1, y.s.tables[1]) then 2 * size2 else size2;
    var a := Attach(1, size3, seed, false);
    ReplacedBy(p, y, n, k, size3, seed);
    zs, bs := ys + [Do(p, y, a)], actions + [a];
    assert CausedBy(p, zs, bs, i, i, i, i);
    zs, bs := More(p, ys, actions, size, seed, true, a);
    zs, bs := More(p, zs, bs, size, seed, true, Follow(FIRST));
  }

  /** FIRST adds the key once more. */
  lemma AddsAgain(p: Params, ys: seq<System>, actions: seq<Action>, size: nat, seed: nat, n: nat, k: nat)
    returns (zs: seq<System>, bs: seq<Action>)
    requires KeyedRun(p, ys, actions, size, seed, true) && n + 1 < p.maxElems
    requires var s := Last(ys).s;
      && Inv(p, s) && |s.tables| == 3 && s.nelems == n + 1 && TablesSum(s.tables, OfKey(k)) == 1
      && s.tables[2].size >= n + 1 && s.tables[2] == FreshTable(s.tables[2].size, seed, false)
    requires Last(ys).inserts == map[FIRST := Insert(Object(n + 1, k), true, 2, None, true, false)]
    ensures KeyedRun(p, zs, bs, size, seed, true) && TablesSum(Last(zs).s.tables, OfKey(k)) == 2
  {
    var s := Last(ys).s;
    ApplySums(p, s, Object(n + 1, k), 2, Added, OfKey(k));
    zs, bs := More(p, ys, actions, size, seed, true, Look(FIRST, n + 1));
    zs, bs := More(p, zs, bs, size, seed, true, Add(FIRST));
  }

  /** Once a nested table has been attached and one of its pages cannot be allocated, keyed inserts alone do
      not keep keys unique: whatever the hash function, the key k is stored twice at the end of this run. */
  lemma DuplicateRun(p: Params, size: nat, seed: nat) returns (ys: seq<System>, actions: seq<Action>, k: nat)
    requires size >= NESTED_MIN && p.maxElems >= size + 3 && (p.maxSize == 0 || size < p.maxSize)
    ensures KeyedRun(p, ys, actions, size, seed, true) && TablesSum(Last(ys).s.tables, OfKey(k)) == 2
  {
    var n, size2;
    ys, actions := [Init(size, seed, false)], [];
    StartFilled(p, size, seed);
    ys, actions, n := Fill(p, ys, actions, size, seed, 0);
    k := n + 1;
    ys, actions := Ends(p, ys, actions, size, seed, n);
    ys, actions, size2 := Attaches(p, ys, actions, size, seed, n);
    var was := Last(ys);
    ys, actions := Misses(p, ys, actions, size, seed, n, k, size2);
    ys, actions := AddsThere(p, ys, actions, size, seed, n, k, size2, was);
    PagedAdds(p, was, n, k, size2, seed, Object(n + 2, k));
    ys, actions := Replaces(p, ys, actions, size, seed, n, k, size2);
    ys, actions := AddsAgain(p, ys, actions, size, seed, n, k);
  }

  lemma StartFilled(p: Params, size: nat, seed: nat)
    requires size > 0
    ensures Filled(p, Init(size, seed, false), size, 0)
  {
    InitOk(p, size, seed, false);
    var y := Init(size, seed, false);
    forall k: nat
      ensures TablesSum(y.s.tables, OfKey(k)) == 0
    {
      EmptySum(EmptyBuckets(size), OfKey(k));
      assert y.s.tables[1..] == [];
    }
  }
}
