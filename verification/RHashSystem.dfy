/** Runs of the hash table: any interleaving of inserts, table attachments and the rehash worker. */
module RHashSystem {
  import opened Wrappers
  import opened RHashTable

  /** An insert under way, at table at. missed: it found that its bucket there has no memory and is about
      to read the table's successor; the value tells whether there was one at that moment. overtook: it
      went on to a successor that was attached only after such a miss. holds: it has the lock of its
      bucket there, has found neither its key nor a successor, and is about to add its object. */
  datatype Insert = Insert(obj: Object, keyed: bool, at: nat, missed: Option<bool>, overtook: bool, holds: bool)

  /** The rehash worker has emptied every bucket below next of the current table. */
  datatype Worker = Idle | Scanning(next: nat)

  /** stored is the history of the objects whose insert succeeded. */
  datatype System = System(s: State, inserts: map<nat, Insert>, worker: Worker, stored: multiset<Object>)

  datatype Action =
    | Begin(id: nat, obj: Object, keyed: bool)   // rhashtable_try_insert reads ht->tbl
    | Look(id: nat, nelems: nat)                 // it locks its bucket, looks, and decides; nelems is what it reads
    | Add(id: nat)                               // it adds its object and unlocks
    | PageIn(at: nat, bs: set<nat>)              // nested_table_alloc: a page of buckets is in memory
    | Miss(id: nat)                              // its page is not in memory and cannot be allocated
    | Follow(id: nat)                            // after a miss it reads future_tbl, without a lock
    | Attach(to: nat, size: nat, seed: nat, nested: bool)   // rhashtable_rehash_attach
    | StartRehash                                // rhashtable_rehash_table finds a future table
    | MoveOne(target: nat)                       // rhashtable_rehash_one
    | BucketDone                                 // rhashtable_rehash_chain ends with -ENOENT
    | Abort                                      // the newest table is nested: -EAGAIN
    | Publish                                    // ht->tbl becomes the future table

  /** Insert id has computed the bucket of its key at its table. */
  predicate AtBucket(p: Params, y: System, id: nat) {
    && id in y.inserts && y.inserts[id].at < |y.s.tables| && Sized(y.s.tables[y.inserts[id].at])
    && y.inserts[id].missed == None && !y.inserts[id].holds
  }

  predicate BucketAbsent(p: Params, y: System, id: nat)
    requires AtBucket(p, y, id)
  {
    var t := y.s.tables[y.inserts[id].at];
    Bucket(p, t, y.inserts[id].obj.key) in t.absent
  }

  predicate HoldsLock(p: Params, s: State, i: Insert, at: nat, b: nat) {
    i.holds && i.at == at < |s.tables| && Sized(s.tables[at]) && Bucket(p, s.tables[at], i.obj.key) == b
  }

  /** An insert holds the lock of bucket b of table at. */
  predicate Locked(p: Params, y: System, at: nat, b: nat) {
    exists id :: id in y.inserts && HoldsLock(p, y.s, y.inserts[id], at, b)
  }

  predicate CanDo(p: Params, y: System, a: Action) {
    var n := |y.s.tables|;
    match a
    case Begin(id, obj, keyed) =>
      // an object is inserted by one caller at a time, and only while it is not in the table
      id !in y.inserts && obj !in y.stored && forall k :: k in y.inserts ==> y.inserts[k].obj != obj
    case Look(id, _) =>
      && AtBucket(p, y, id) && !BucketAbsent(p, y, id)
      && !Locked(p, y, y.inserts[id].at, Bucket(p, y.s.tables[y.inserts[id].at], y.inserts[id].obj.key))
    case Add(id) => id in y.inserts && y.inserts[id].holds && y.inserts[id].at < n && Sized(y.s.tables[y.inserts[id].at])
    case PageIn(at, bs) => at < n
    case Miss(id) => AtBucket(p, y, id) && BucketAbsent(p, y, id)
    case Follow(id) => id in y.inserts && y.inserts[id].at < n && y.inserts[id].missed.Some?
    case Attach(to, size, seed, nested) => to < n && size > 0
    case StartRehash => y.worker.Idle? && y.s.cur < n && y.s.tables[y.s.cur].future.Some?
    case MoveOne(target) =>
      && y.worker.Scanning? && y.s.cur < target < n && Sized(y.s.tables[y.s.cur]) && Sized(y.s.tables[target])
      && !y.s.tables[target].nested
      && y.worker.next < y.s.tables[y.s.cur].size && !Locked(p, y, y.s.cur, y.worker.next)
      && (var c: seq<Entry> := y.s.tables[y.s.cur].buckets[y.worker.next];
          c != [] && c[|c| - 1] != [] && !Locked(p, y, target, Bucket(p, y.s.tables[target], c[|c| - 1][0].key)))
    case BucketDone =>
      && y.worker.Scanning? && y.s.cur < n && Sized(y.s.tables[y.s.cur])
      && y.worker.next < y.s.tables[y.s.cur].size && y.s.tables[y.s.cur].buckets[y.worker.next] == []
      && !Locked(p, y, y.s.cur, y.worker.next)
    case Abort => y.worker.Scanning?
    case Publish => y.worker.Scanning? && y.s.cur < n && y.worker.next == y.s.tables[y.s.cur].size
                    && y.s.tables[y.s.cur].future.Some?
  }

  function AttachTable(s: State, to: nat, size: nat, seed: nat, nested: bool): State
    requires to < |s.tables|
  {
    if s.tables[to].future.Some? then s
    else s.(tables := s.tables[to := s.tables[to].(future := Some(|s.tables|))] + [FreshTable(size, seed, nested)])
  }

  function Do(p: Params, y: System, a: Action): System
    requires CanDo(p, y, a)
  {
    match a
    case Begin(id, obj, keyed) => y.(inserts := y.inserts[id := Insert(obj, keyed, y.s.cur, None, false, false)])
    case Look(id, nelems) => DoLook(p, y, id, Decide(p, y.s, y.inserts[id].obj, y.inserts[id].keyed, y.inserts[id].at, nelems))
    case Add(id) =>
      var i := y.inserts[id];
      System(Apply(p, y.s, i.obj, i.at, Added), y.inserts - {id}, y.worker, y.stored + multiset{i.obj})
    case PageIn(at, bs) => y.(s := PageAdded(y.s, at, bs))
    case Miss(id) =>
      var i := y.inserts[id];
      y.(inserts := y.inserts[id := i.(missed := Some(y.s.tables[i.at].future.Some?))])
    case Follow(id) =>
      var i := y.inserts[id];
      y.(inserts := if y.s.tables[i.at].future.Some?
                    then y.inserts[id := i.(at := i.at + 1, missed := None, overtook := i.overtook || !i.missed.value)]
                    else y.inserts - {id})
    case Attach(to, size, seed, nested) => y.(s := AttachTable(y.s, to, size, seed, nested))
    case StartRehash => y.(worker := Scanning(0))
    case MoveOne(target) => y.(s := Move(p, y.s, y.worker.next, target))
    case BucketDone => y.(worker := Scanning(y.worker.next + 1))
    case Abort => y.(worker := Idle)
    case Publish => y.(s := y.s.(cur := y.s.tables[y.s.cur].future.value), worker := Idle)
  }

  /** What follows from the decision: to add, to go on to the next table, or to end. An object that joins
      the list of its key is stored at once. */
  function DoLook(p: Params, y: System, id: nat, r: Outcome): System
    requires AtBucket(p, y, id) && (r.Merged? ==> Matches(p, y.s, y.inserts[id].obj, y.inserts[id].at))
  {
    var i := y.inserts[id];
    match r
    case Added => y.(inserts := y.inserts[id := i.(holds := true)])
    case Next => y.(inserts := y.inserts[id := i.(at := i.at + 1)])
    case Merged =>
      System(Apply(p, y.s, i.obj, i.at, Merged), y.inserts - {id}, y.worker, y.stored + multiset{i.obj})
    case _ => y.(inserts := y.inserts - {id})
  }

  function Init(size: nat, seed: nat, nested: bool): System {
    System(State([FreshTable(size, seed, nested)], 0, 0), map[], Idle, multiset{})
  }

  // ----- the invariant of runs

  /** The tables a keyed insert has left behind hold nothing with its key, unless it overtook the
      attachment of one of them. The same holds for a table it missed that had a successor by then. */
  ghost predicate Searched(p: Params, s: State, i: Insert)
    requires Inv(p, s)
  {
    && i.at < |s.tables|
    && (i.missed.Some? ==> s.tables[i.at].nested)
    && (i.missed == Some(true) ==> i.at + 1 < |s.tables|)
    && (i.keyed && !i.overtook ==>
          forall j: nat :: j < i.at || (j == i.at && i.missed == Some(true)) ==> KeyIn(s, j, i.obj.key) == 0)
  }

  /** The bucket that is locked is in a table still in use, in memory, and not yet passed by the worker. */
  ghost predicate HolderOk(p: Params, s: State, w: Worker, i: Insert)
    requires Inv(p, s)
  {
    i.holds ==>
      && s.cur <= i.at < |s.tables| && i.missed == None
      && var b := Bucket(p, s.tables[i.at], i.obj.key);
         b !in s.tables[i.at].absent && (w.Scanning? && i.at == s.cur ==> w.next <= b)
  }

  /** While l holds the lock of the bucket of its key, c, with the same key, does not get past it: it can
      do so only if it missed that table before it had a successor. */
  predicate KeptOut(l: Insert, c: Insert) {
    l.holds && c.keyed && !c.overtook && c.obj.key == l.obj.key ==>
      c.at <= l.at && (c.at == l.at ==> c.missed != Some(true) && !c.holds)
  }

  ghost predicate LocksOk(p: Params, y: System)
    requires Inv(p, y.s)
  {
    && (forall id :: id in y.inserts ==> HolderOk(p, y.s, y.worker, y.inserts[id]))
    && (forall l, c :: l in y.inserts && c in y.inserts && l != c ==> KeptOut(y.inserts[l], y.inserts[c]))
  }

  ghost predicate CoreInv(p: Params, y: System) {
    && Inv(p, y.s)
    && (forall id :: id in y.inserts ==> Searched(p, y.s, y.inserts[id]))
    && (forall o: Object :: TablesSum(y.s.tables, OfObject(o)) == y.stored[o] && y.stored[o] <= 1)
    && (forall id :: id in y.inserts ==> y.inserts[id].obj !in y.stored)
    && (forall i, j :: i in y.inserts && j in y.inserts && i != j ==> y.inserts[i].obj != y.inserts[j].obj)
    && (y.worker.Scanning? ==>
          && y.s.cur + 1 < |y.s.tables| && y.worker.next <= y.s.tables[y.s.cur].size
          && forall b: nat :: b < y.worker.next ==> y.s.tables[y.s.cur].buckets[b] == [])
  }

  ghost predicate SysInv(p: Params, y: System) { CoreInv(p, y) && LocksOk(p, y) }

  lemma InitOk(p: Params, size: nat, seed: nat, nested: bool)
    requires size > 0
    ensures SysInv(p, Init(size, seed, nested)) && UniqueKeys(Init(size, seed, nested).s)
  {
    var y := Init(size, seed, nested);
    forall q: Query
      ensures TablesSum(y.s.tables, q) == 0
    {
      EmptySum(EmptyBuckets(size), q);
      assert y.s.tables[1..] == [];
    }
    assert TablesSum(y.s.tables, All) == 0;
    forall o: Object
      ensures TablesSum(y.s.tables, OfObject(o)) == 0
    {
    }
  }

  lemma BeginOk(p: Params, y: System, a: Action)
    requires SysInv(p, y) && a.Begin? && CanDo(p, y, a)
    ensures SysInv(p, Do(p, y, a))
  {
    var u := Do(p, y, a);
    forall j: nat | j < y.s.cur
      ensures KeyIn(y.s, j, a.obj.key) == 0
    {
      EmptySum(y.s.tables[j].buckets, OfKey(a.obj.key));
    }
  }

  // ----- the decision of an insert

  /** A table that an insert has searched does not get its key from another one: that adds to a table which
      the insert is kept out of, or to the list of a key. */
  lemma ApplySearched(p: Params, s: State, o: Object, at: nat, r: Outcome, v: Insert)
    requires Inv(p, s) && at < |s.tables| && (r.Merged? ==> Matches(p, s, o, at)) && Searched(p, s, v)
    requires Inv(p, Apply(p, s, o, at, r))
    requires r.Added? && v.keyed && !v.overtook && v.obj.key == o.key ==> v.at <= at && (v.at == at ==> v.missed != Some(true))
    ensures Searched(p, Apply(p, s, o, at, r), v)
  {
    var u := Apply(p, s, o, at, r);
    forall j: nat | v.keyed && !v.overtook && (j < v.at || (j == v.at && v.missed == Some(true)))
      ensures KeyIn(u, j, v.obj.key) == 0
    {
      ApplyKeys(p, s, o, at, r, j, v.obj.key);
    }
  }

  /** An object that goes into the table is stored. */
  lemma ApplyStored(p: Params, y: System, id: nat, r: Outcome)
    requires SysInv(p, y) && id in y.inserts && (r.Added? || r.Merged?) && y.inserts[id].at < |y.s.tables|
    requires r.Merged? ==> Matches(p, y.s, y.inserts[id].obj, y.inserts[id].at)
    ensures var i := y.inserts[id];
      forall o: Object ::
        && TablesSum(Apply(p, y.s, i.obj, i.at, r).tables, OfObject(o)) == (y.stored + multiset{i.obj})[o]
        && (y.stored + multiset{i.obj})[o] <= 1
  {
    var i := y.inserts[id];
    forall o: Object
      ensures TablesSum(Apply(p, y.s, i.obj, i.at, r).tables, OfObject(o)) == (y.stored + multiset{i.obj})[o]
      ensures (y.stored + multiset{i.obj})[o] <= 1
    {
      ApplySums(p, y.s, i.obj, i.at, r, OfObject(o));
      assert TablesSum(y.s.tables, OfObject(o)) == y.stored[o] && y.stored[o] <= 1;
    }
  }

  /** Emptied buckets stay empty. */
  lemma ApplyWorker(p: Params, y: System, id: nat, r: Outcome)
    requires SysInv(p, y) && id in y.inserts && (r.Added? || r.Merged?) && y.inserts[id].at < |y.s.tables|
    requires r.Merged? ==> Matches(p, y.s, y.inserts[id].obj, y.inserts[id].at)
    requires r.Added? ==> y.inserts[id].holds
    requires y.worker.Scanning?
    ensures var u := Apply(p, y.s, y.inserts[id].obj, y.inserts[id].at, r);
      && |u.tables| == |y.s.tables| && u.cur == y.s.cur && u.tables[u.cur].size == y.s.tables[y.s.cur].size
      && Sized(u.tables[u.cur])
      && forall b: nat :: b < y.worker.next ==> u.tables[u.cur].buckets[b] == []
  {
    assert HolderOk(p, y.s, y.worker, y.inserts[id]);
  }

  /** The object of insert id goes into the table and the insert ends. */
  lemma StoreOk(p: Params, y: System, id: nat, r: Outcome)
    requires SysInv(p, y) && id in y.inserts && (r.Added? || r.Merged?) && y.inserts[id].at < |y.s.tables|
    requires Bucket(p, y.s.tables[y.inserts[id].at], y.inserts[id].obj.key) !in y.s.tables[y.inserts[id].at].absent
    requires y.s.cur <= y.inserts[id].at
    requires r.Merged? ==> Matches(p, y.s, y.inserts[id].obj, y.inserts[id].at)
    requires r.Added? ==> y.inserts[id].holds
    ensures var i := y.inserts[id];
      CoreInv(p, System(Apply(p, y.s, i.obj, i.at, r), y.inserts - {id}, y.worker, y.stored + multiset{i.obj}))
  {
    var i := y.inserts[id];
    var u := Apply(p, y.s, i.obj, i.at, r);
    ApplyInv(p, y.s, i.obj, i.at, r);
    ApplyStored(p, y, id, r);
    if y.worker.Scanning? { ApplyWorker(p, y, id, r); }
    forall k | k in y.inserts && k != id
      ensures Searched(p, u, y.inserts[k])
    {
      assert KeptOut(i, y.inserts[k]);
      ApplySearched(p, y.s, i.obj, i.at, r, y.inserts[k]);
    }
  }

  /** Locks are as they were when buckets only change their entries and an insert ends. */
  lemma StoreLocks(p: Params, y: System, id: nat, u: System)
    requires SysInv(p, y) && Inv(p, u.s) && u.inserts == y.inserts - {id} && u.worker == y.worker && u.s.cur == y.s.cur
    requires |u.s.tables| == |y.s.tables|
    requires forall j: nat :: j < |y.s.tables| ==> u.s.tables[j] == y.s.tables[j].(buckets := u.s.tables[j].buckets)
    ensures LocksOk(p, u)
  {
    forall k | k in u.inserts
      ensures HolderOk(p, u.s, u.worker, u.inserts[k])
    {
      assert HolderOk(p, y.s, y.worker, y.inserts[k]);
    }
  }

  lemma AddOk(p: Params, y: System, a: Action)
    requires SysInv(p, y) && a.Add? && CanDo(p, y, a)
    ensures SysInv(p, Do(p, y, a))
  {
    var i := y.inserts[a.id];
    assert HolderOk(p, y.s, y.worker, i);
    StoreOk(p, y, a.id, Added);
    ApplyInv(p, y.s, i.obj, i.at, Added);
    StoreLocks(p, y, a.id, Do(p, y, a));
  }

  /** An insert gets the lock: whoever has the same key is at this table or an older one, as this is the
      newest, and has not the lock. */
  lemma HoldOk(p: Params, y: System, id: nat)
    requires SysInv(p, y) && AtBucket(p, y, id) && y.inserts[id].at == |y.s.tables| - 1
    requires !BucketAbsent(p, y, id)
    requires !Locked(p, y, y.inserts[id].at, Bucket(p, y.s.tables[y.inserts[id].at], y.inserts[id].obj.key))
    ensures SysInv(p, y.(inserts := y.inserts[id := y.inserts[id].(holds := true)]))
  {
    var i := y.inserts[id];
    var u := y.(inserts := y.inserts[id := i.(holds := true)]);
    assert Searched(p, y.s, i);
    forall l, c | l in u.inserts && c in u.inserts && l != c
      ensures KeptOut(u.inserts[l], u.inserts[c])
    {
      assert KeptOut(y.inserts[l], y.inserts[c]) && Searched(p, y.s, y.inserts[c]);
      assert !HoldsLock(p, y.s, y.inserts[c], i.at, Bucket(p, y.s.tables[i.at], i.obj.key));
      assert !HoldsLock(p, y.s, y.inserts[l], i.at, Bucket(p, y.s.tables[i.at], i.obj.key));
    }
    HoldCore(p, y, id);
  }

  lemma HoldCore(p: Params, y: System, id: nat)
    requires CoreInv(p, y) && id in y.inserts
    ensures CoreInv(p, y.(inserts := y.inserts[id := y.inserts[id].(holds := true)]))
  {
    assert Searched(p, y.s, y.inserts[id]);
  }

  /** An insert goes on to the next table: no other insert holds the lock of its key here. */
  lemma NextOk(p: Params, y: System, id: nat)
    requires SysInv(p, y) && AtBucket(p, y, id) && y.inserts[id].at + 1 < |y.s.tables|
    requires y.inserts[id].keyed ==> KeyIn(y.s, y.inserts[id].at, y.inserts[id].obj.key) == 0
    requires !Locked(p, y, y.inserts[id].at, Bucket(p, y.s.tables[y.inserts[id].at], y.inserts[id].obj.key))
    ensures SysInv(p, y.(inserts := y.inserts[id := y.inserts[id].(at := y.inserts[id].at + 1)]))
  {
    var i := y.inserts[id];
    var u := y.(inserts := y.inserts[id := i.(at := i.at + 1)]);
    assert Searched(p, y.s, i);
    forall l, c | l in u.inserts && c in u.inserts && l != c
      ensures KeptOut(u.inserts[l], u.inserts[c])
    {
      assert KeptOut(y.inserts[l], y.inserts[c]);
      assert !HoldsLock(p, y.s, y.inserts[l], i.at, Bucket(p, y.s.tables[i.at], i.obj.key));
    }
    NextCore(p, y, id);
  }

  lemma NextCore(p: Params, y: System, id: nat)
    requires CoreInv(p, y) && AtBucket(p, y, id) && y.inserts[id].at + 1 < |y.s.tables|
    requires y.inserts[id].keyed ==> KeyIn(y.s, y.inserts[id].at, y.inserts[id].obj.key) == 0
    ensures CoreInv(p, y.(inserts := y.inserts[id := y.inserts[id].(at := y.inserts[id].at + 1)]))
  {
    assert Searched(p, y.s, y.inserts[id]);
  }

  lemma EndOk(p: Params, y: System, id: nat)
    requires SysInv(p, y)
    ensures SysInv(p, y.(inserts := y.inserts - {id}))
  {
  }

  lemma MergeOk(p: Params, y: System, id: nat)
    requires SysInv(p, y) && AtBucket(p, y, id) && !BucketAbsent(p, y, id) && y.s.cur <= y.inserts[id].at
    requires Matches(p, y.s, y.inserts[id].obj, y.inserts[id].at)
    ensures SysInv(p, DoLook(p, y, id, Merged))
  {
    StoreOk(p, y, id, Merged);
    ApplyInv(p, y.s, y.inserts[id].obj, y.inserts[id].at, Merged);
    StoreLocks(p, y, id, DoLook(p, y, id, Merged));
  }

  lemma LookOk(p: Params, y: System, a: Action)
    requires SysInv(p, y) && a.Look? && CanDo(p, y, a)
    ensures SysInv(p, Do(p, y, a))
  {
    var i := y.inserts[a.id];
    var r := Decide(p, y.s, i.obj, i.keyed, i.at, a.nelems);
    DecideFacts(p, y.s, i.obj, i.keyed, i.at, a.nelems);
    LookResult(p, y, a.id, r);
  }

  lemma LookResult(p: Params, y: System, id: nat, r: Outcome)
    requires SysInv(p, y) && AtBucket(p, y, id) && !BucketAbsent(p, y, id)
    requires var i := y.inserts[id];
      && !Locked(p, y, i.at, Bucket(p, y.s.tables[i.at], i.obj.key))
      && (r.Merged? ==> Matches(p, y.s, i.obj, i.at))
      && (r.Merged? || r.Added? ==> y.s.cur <= i.at)
      && (r.Added? ==> i.at == |y.s.tables| - 1)
      && (r.Next? ==> i.at + 1 < |y.s.tables|)
      && (i.keyed && r.Next? ==> KeyIn(y.s, i.at, i.obj.key) == 0)
    ensures SysInv(p, DoLook(p, y, id, r))
  {
    match r
    case Added => HoldOk(p, y, id);
    case Next => NextOk(p, y, id);
    case Merged => MergeOk(p, y, id);
    case _ => EndOk(p, y, id);
  }

  // ----- the other steps

  /** What an insert has searched stays searched as long as the buckets of the tables stay. */
  lemma SearchedSame(p: Params, s: State, u: State, i: Insert)
    requires Inv(p, s) && Inv(p, u) && Searched(p, s, i) && |s.tables| <= |u.tables|
    requires forall j: nat :: j < |s.tables| ==> u.tables[j].buckets == s.tables[j].buckets && u.tables[j].nested == s.tables[j].nested
    ensures Searched(p, u, i)
  {
    forall j: nat | i.keyed && !i.overtook && (j < i.at || (j == i.at && i.missed == Some(true)))
      ensures KeyIn(u, j, i.obj.key) == 0
    {
      assert KeyIn(s, j, i.obj.key) == 0;
    }
  }

  lemma PageInOk(p: Params, y: System, a: Action)
    requires SysInv(p, y) && a.PageIn? && CanDo(p, y, a)
    ensures SysInv(p, Do(p, y, a))
  {
    var u := Do(p, y, a);
    PageOk(p, y.s, a.at, a.bs);
    forall id | id in u.inserts
      ensures Searched(p, u.s, u.inserts[id]) && HolderOk(p, u.s, u.worker, u.inserts[id])
    {
      SearchedSame(p, y.s, u.s, u.inserts[id]);
      assert HolderOk(p, y.s, y.worker, y.inserts[id]);
    }
  }

  /** A bucket without memory holds nothing, and nobody holds its lock. */
  lemma MissOk(p: Params, y: System, a: Action)
    requires SysInv(p, y) && a.Miss? && CanDo(p, y, a)
    ensures SysInv(p, Do(p, y, a))
  {
    var i := y.inserts[a.id];
    var u := Do(p, y, a);
    assert AbsentOk(y.s.tables[i.at]) && Searched(p, y.s, i);
    KeyInChain(p, y.s, i.at, i.obj.key);
    forall l, c | l in u.inserts && c in u.inserts && l != c
      ensures KeptOut(u.inserts[l], u.inserts[c])
    {
      assert KeptOut(y.inserts[l], y.inserts[c]) && HolderOk(p, y.s, y.worker, y.inserts[l]);
    }
  }

  lemma FollowOk(p: Params, y: System, a: Action)
    requires SysInv(p, y) && a.Follow? && CanDo(p, y, a)
    ensures SysInv(p, Do(p, y, a))
  {
    var i := y.inserts[a.id];
    var u := Do(p, y, a);
    assert Searched(p, y.s, i) && HolderOk(p, y.s, y.worker, i);
    forall l, c | l in u.inserts && c in u.inserts && l != c
      ensures KeptOut(u.inserts[l], u.inserts[c])
    {
      assert KeptOut(y.inserts[l], y.inserts[c]);
    }
  }

  lemma AttachSums(s: State, to: nat, size: nat, seed: nat, nested: bool, q: Query)
    requires to < |s.tables|
    ensures TablesSum(AttachTable(s, to, size, seed, nested).tables, q) == TablesSum(s.tables, q)
    ensures forall j: nat :: j < |s.tables| ==>
              AttachTable(s, to, size, seed, nested).tables[j] == s.tables[j].(future := AttachTable(s, to, size, seed, nested).tables[j].future)
  {
    TablesSwap(s.tables, to, s.tables[to].(future := Some(|s.tables|)), q);
    SumAppend(s.tables[to := s.tables[to].(future := Some(|s.tables|))], FreshTable(size, seed, nested), q);
    EmptySum(EmptyBuckets(size), q);
  }

  lemma AttachInv(p: Params, s: State, to: nat, size: nat, seed: nat, nested: bool)
    requires Inv(p, s) && to < |s.tables| && size > 0
    ensures Inv(p, AttachTable(s, to, size, seed, nested))
  {
    var u := AttachTable(s, to, size, seed, nested);
    AttachSums(s, to, size, seed, nested, All);
    forall i: nat | i < |u.tables|
      ensures Sized(u.tables[i]) && Placed(p, u.tables[i]) && AbsentOk(u.tables[i])
    {
      if i < |s.tables| { assert Placed(p, s.tables[i]) && AbsentOk(s.tables[i]); }
    }
  }

  lemma AttachOk(p: Params, y: System, a: Action)
    requires SysInv(p, y) && a.Attach? && CanDo(p, y, a)
    ensures SysInv(p, Do(p, y, a))
  {
    var u := Do(p, y, a);
    AttachInv(p, y.s, a.to, a.size, a.seed, a.nested);
    AttachSums(y.s, a.to, a.size, a.seed, a.nested, All);
    forall o: Object
      ensures TablesSum(u.s.tables, OfObject(o)) == u.stored[o]
    {
      AttachSums(y.s, a.to, a.size, a.seed, a.nested, OfObject(o));
    }
    forall id | id in u.inserts
      ensures Searched(p, u.s, u.inserts[id])
    {
      SearchedSame(p, y.s, u.s, y.inserts[id]);
    }
    AttachLocks(p, y, a);
  }

  lemma AttachLocks(p: Params, y: System, a: Action)
    requires SysInv(p, y) && a.Attach? && CanDo(p, y, a) && Inv(p, Do(p, y, a).s)
    ensures LocksOk(p, Do(p, y, a))
  {
    var u := Do(p, y, a);
    forall id | id in u.inserts
      ensures HolderOk(p, u.s, u.worker, u.inserts[id])
    {
      assert HolderOk(p, y.s, y.worker, y.inserts[id]);
    }
  }

  /** The worker has passed every bucket of the current table, so no lock is held there. */
  lemma PublishOk(p: Params, y: System, a: Action)
    requires SysInv(p, y) && a.Publish? && CanDo(p, y, a)
    ensures SysInv(p, Do(p, y, a))
  {
    var u := Do(p, y, a);
    forall id | id in u.inserts
      ensures Searched(p, u.s, u.inserts[id]) && HolderOk(p, u.s, u.worker, u.inserts[id])
    {
      SearchedSame(p, y.s, u.s, u.inserts[id]);
      assert HolderOk(p, y.s, y.worker, y.inserts[id]);
    }
  }

  lemma WorkerOk(p: Params, y: System, a: Action)
    requires SysInv(p, y) && (a.StartRehash? || a.BucketDone? || a.Abort?) && CanDo(p, y, a)
    ensures SysInv(p, Do(p, y, a))
  {
    var u := Do(p, y, a);
    forall id | id in u.inserts
      ensures HolderOk(p, u.s, u.worker, u.inserts[id])
    {
      assert HolderOk(p, y.s, y.worker, y.inserts[id]);
      assert a.BucketDone? ==> !HoldsLock(p, y.s, y.inserts[id], y.s.cur, y.worker.next);
    }
  }

  /** The entry that moves has left one searched table only to come to another with the same key. */
  lemma MoveSearched(p: Params, s: State, b: nat, target: nat, i: Insert)
    requires Inv(p, s) && s.cur < target < |s.tables| && b < s.tables[s.cur].size && s.tables[s.cur].buckets[b] != []
    requires !s.tables[target].nested && Searched(p, s, i)
    requires EntryOk(s.tables[s.cur].buckets[b][|s.tables[s.cur].buckets[b]| - 1]) && Inv(p, Move(p, s, b, target))
    ensures Searched(p, Move(p, s, b, target), i)
  {
    var u := Move(p, s, b, target);
    forall j: nat | i.keyed && !i.overtook && (j < i.at || (j == i.at && i.missed == Some(true)))
      ensures KeyIn(u, j, i.obj.key) == 0
    {
      MoveKeys(p, s, b, target, j, i.obj.key);
      assert KeyIn(s, j, i.obj.key) == 0;
      if j == target { assert KeyIn(s, s.cur, i.obj.key) == 0; }
    }
  }

  lemma MoveOneOk(p: Params, y: System, a: Action)
    requires SysInv(p, y) && a.MoveOne? && CanDo(p, y, a)
    ensures SysInv(p, Do(p, y, a))
  {
    var u := Do(p, y, a);
    MoveOk(p, y.s, y.worker.next, a.target);
    forall o: Object
      ensures TablesSum(u.s.tables, OfObject(o)) == u.stored[o]
    {
      assert TablesSum(y.s.tables, OfObject(o)) == y.stored[o];
    }
    forall id | id in u.inserts
      ensures Searched(p, u.s, u.inserts[id]) && HolderOk(p, u.s, u.worker, u.inserts[id])
    {
      MoveSearched(p, y.s, y.worker.next, a.target, y.inserts[id]);
      assert HolderOk(p, y.s, y.worker, y.inserts[id]);
    }
  }

  /** Whatever step is taken, the invariant stays. */
  lemma StepOk(p: Params, y: System, a: Action)
    requires SysInv(p, y) && CanDo(p, y, a)
    ensures SysInv(p, Do(p, y, a))
  {
    match a
    case Begin(_, _, _) => BeginOk(p, y, a);
    case Look(_, _) => LookOk(p, y, a);
    case Add(_) => AddOk(p, y, a);
    case PageIn(_, _) => PageInOk(p, y, a);
    case Miss(_) => MissOk(p, y, a);
    case Follow(_) => FollowOk(p, y, a);
    case Attach(_, _, _, _) => AttachOk(p, y, a);
    case MoveOne(_) => MoveOneOk(p, y, a);
    case Publish => PublishOk(p, y, a);
    case _ => WorkerOk(p, y, a);
  }

  /** A key is in no table when an insert that gave it decides to add an entry, unless the insert overtook
      an attachment: the tables it left behind have none, the chain it holds locked has none, and there is
      no table after that. */
  lemma AddedAbsent(p: Params, s: State, i: Insert, nelems: nat)
    requires Inv(p, s) && Searched(p, s, i) && i.keyed && !i.overtook
    requires Decide(p, s, i.obj, true, i.at, nelems).Added?
    ensures TablesSum(s.tables, OfKey(i.obj.key)) == 0
  {
    DecideFacts(p, s, i.obj, true, i.at, nelems);
    forall j: nat | j < |s.tables|
      ensures BucketsSum(s.tables[j].buckets, OfKey(i.obj.key)) == 0
    {
      assert KeyIn(s, j, i.obj.key) == 0;
    }
    KeyNowhere(s.tables, i.obj.key);
  }

  /** How many entries a key has changes only when an insert adds one, and never goes down. */
  lemma StepKeys(p: Params, y: System, a: Action, k: nat)
    requires SysInv(p, y) && CanDo(p, y, a)
    ensures TablesSum(Do(p, y, a).s.tables, OfKey(k))
            == TablesSum(y.s.tables, OfKey(k)) + (if a.Add? && y.inserts[a.id].obj.key == k then 1 else 0)
  {
    match a
    case Look(id, nelems) =>
      var i := y.inserts[id];
      if Decide(p, y.s, i.obj, i.keyed, i.at, nelems).Merged? { ApplySums(p, y.s, i.obj, i.at, Merged, OfKey(k)); }
    case Add(id) => ApplySums(p, y.s, y.inserts[id].obj, y.inserts[id].at, Added, OfKey(k));
    case Attach(to, size, seed, nested) => AttachSums(y.s, to, size, seed, nested, OfKey(k));
    case MoveOne(target) => MoveOk(p, y.s, y.worker.next, target);
    case PageIn(at, bs) => PageOk(p, y.s, at, bs);
    case _ =>
  }

  // ----- keys

  /** Every insert under way gave a key. */
  ghost predicate AllKeyed(y: System) {
    forall id :: id in y.inserts ==> y.inserts[id].keyed
  }

  /** No insert under way overtook an attachment. */
  ghost predicate AllBehind(y: System) {
    forall id :: id in y.inserts ==> !y.inserts[id].overtook
  }

  /** The key of an insert that is about to add it is in no table. */
  ghost predicate HeldNowhere(y: System) {
    forall id :: id in y.inserts && y.inserts[id].holds ==> TablesSum(y.s.tables, OfKey(y.inserts[id].obj.key)) == 0
  }

  /** An insert that missed a table without a successor goes on to one attached since. */
  ghost predicate Overtakes(y: System, a: Action) {
    && a.Follow? && a.id in y.inserts && y.inserts[a.id].missed == Some(false)
    && y.inserts[a.id].at < |y.s.tables| && y.s.tables[y.inserts[a.id].at].future.Some?
  }

  /** An insert adds an entry for a key that some table already has. */
  ghost predicate AddsTwice(p: Params, y: System, a: Action) {
    a.Add? && CanDo(p, y, a) && TablesSum(y.s.tables, OfKey(y.inserts[a.id].obj.key)) > 0
  }

  lemma StepUnique(p: Params, y: System, a: Action)
    requires SysInv(p, y) && CanDo(p, y, a) && UniqueKeys(y.s) && !AddsTwice(p, y, a)
    ensures UniqueKeys(Do(p, y, a).s)
  {
    var u := Do(p, y, a);
    forall k: nat
      ensures TablesSum(u.s.tables, OfKey(k)) <= 1
    {
      assert TablesSum(y.s.tables, OfKey(k)) <= 1;
      StepKeys(p, y, a, k);
    }
  }

  /** Whoever holds a lock after a step held it before, or has just decided to add. */
  lemma HeldBefore(p: Params, y: System, a: Action, id: nat)
    requires CanDo(p, y, a) && id in Do(p, y, a).inserts && Do(p, y, a).inserts[id].holds
    ensures id in y.inserts && y.inserts[id].obj == Do(p, y, a).inserts[id].obj
    ensures a.Look? && id == a.id ==> Decide(p, y.s, y.inserts[id].obj, y.inserts[id].keyed, y.inserts[id].at, a.nelems).Added?
    ensures !(a.Look? && id == a.id) ==> y.inserts[id].holds && !(a.Add? && id == a.id)
  {
  }

  /** Two inserts that have locks do not have the same key. */
  lemma OneHolder(p: Params, y: System, l: nat, c: nat)
    requires SysInv(p, y) && AllKeyed(y) && AllBehind(y) && l in y.inserts && c in y.inserts && l != c
    requires y.inserts[l].holds && y.inserts[c].holds
    ensures y.inserts[l].obj.key != y.inserts[c].obj.key
  {
    assert KeptOut(y.inserts[l], y.inserts[c]) && KeptOut(y.inserts[c], y.inserts[l]);
  }

  /** As long as nobody overtakes, what a lock holder is about to add stays absent: another holder of the
      same key would have to be at the same table, and only one of them can have the lock. */
  lemma StepHeld(p: Params, y: System, a: Action)
    requires SysInv(p, y) && CanDo(p, y, a) && AllKeyed(y) && AllBehind(y) && HeldNowhere(y)
    ensures HeldNowhere(Do(p, y, a))
  {
    var u := Do(p, y, a);
    forall id | id in u.inserts && u.inserts[id].holds
      ensures TablesSum(u.s.tables, OfKey(u.inserts[id].obj.key)) == 0
    {
      HeldBefore(p, y, a, id);
      StepKeys(p, y, a, u.inserts[id].obj.key);
      if a.Look? && id == a.id {
        assert Searched(p, y.s, y.inserts[id]);
        AddedAbsent(p, y.s, y.inserts[id], a.nelems);
      } else if a.Add? {
        OneHolder(p, y, id, a.id);
      }
    }
  }

  lemma StepBehind(p: Params, y: System, a: Action)
    requires CanDo(p, y, a) && AllBehind(y) && !Overtakes(y, a)
    ensures AllBehind(Do(p, y, a))
  {
  }

  lemma StepKeyed(p: Params, y: System, a: Action)
    requires CanDo(p, y, a) && AllKeyed(y) && (a.Begin? ==> a.keyed)
    ensures AllKeyed(Do(p, y, a))
  {
  }

  // ----- runs

  ghost predicate IsRun(p: Params, ys: seq<System>, actions: seq<Action>) {
    && |ys| == |actions| + 1
    && (exists size: nat, seed: nat, nested: bool :: size > 0 && ys[0] == Init(size, seed, nested))
    && forall i: nat :: i < |actions| ==> CanDo(p, ys[i], actions[i]) && ys[i + 1] == Do(p, ys[i], actions[i])
  }

  /** In every state of every run the invariant holds: what was inserted is what is stored, each
      object once, each entry in its bucket, with retired tables empty. */
  lemma {:induction false} RunOk(p: Params, ys: seq<System>, actions: seq<Action>, n: nat)
    requires IsRun(p, ys, actions) && n < |ys|
    ensures SysInv(p, ys[n])
  {
    if n == 0 {
      var size: nat, seed: nat, nested: bool :| size > 0 && ys[0] == Init(size, seed, nested);
      InitOk(p, size, seed, nested);
    } else {
      RunOk(p, ys, actions, n - 1);
      StepOk(p, ys[n - 1], actions[n - 1]);
    }
  }

  /** Every insert of the run gives a key, and none overtakes an attachment. */
  ghost predicate Orderly(ys: seq<System>, actions: seq<Action>)
    requires |actions| < |ys|
  {
    forall i: nat :: i < |actions| ==> (actions[i].Begin? ==> actions[i].keyed) && !Overtakes(ys[i], actions[i])
  }

  lemma {:induction false} RunHeld(p: Params, ys: seq<System>, actions: seq<Action>, n: nat)
    requires IsRun(p, ys, actions) && n < |ys| && Orderly(ys, actions)
    ensures SysInv(p, ys[n]) && AllKeyed(ys[n]) && AllBehind(ys[n]) && HeldNowhere(ys[n])
  {
    RunOk(p, ys, actions, n);
    if n > 0 {
      RunHeld(p, ys, actions, n - 1);
      StepKeyed(p, ys[n - 1], actions[n - 1]);
      StepBehind(p, ys[n - 1], actions[n - 1]);
      StepHeld(p, ys[n - 1], actions[n - 1]);
    }
  }

  /** If every insert gives a key and none overtakes an attachment, no key ever has two entries anywhere
      in the chain of tables. */
  lemma {:induction false} RunUnique(p: Params, ys: seq<System>, actions: seq<Action>, n: nat)
    requires IsRun(p, ys, actions) && n < |ys| && Orderly(ys, actions)
    ensures UniqueKeys(ys[n].s)
  {
    if n == 0 {
      var size: nat, seed: nat, nested: bool :| size > 0 && ys[0] == Init(size, seed, nested);
      InitOk(p, size, seed, nested);
    } else {
      RunUnique(p, ys, actions, n - 1);
      RunHeld(p, ys, actions, n - 1);
      StepUnique(p, ys[n - 1], actions[n - 1]);
    }
  }

  /** An insert fails to get memory at a table that has no successor. */
  ghost predicate FailsNewest(p: Params, y: System, a: Action) {
    a.Miss? && CanDo(p, y, a) && y.s.tables[y.inserts[a.id].at].future.None?
  }

  /** In particular if an insert can fail to get a page only in a table that has a successor. */
  lemma RunUniqueNoFailure(p: Params, ys: seq<System>, actions: seq<Action>, n: nat)
    requires IsRun(p, ys, actions) && n < |ys|
    requires forall i: nat :: i < |actions| ==> (actions[i].Begin? ==> actions[i].keyed) && !FailsNewest(p, ys[i], actions[i])
    ensures UniqueKeys(ys[n].s)
  {
    forall i: nat | i < |actions|
      ensures !Overtakes(ys[i], actions[i])
    {
      RunNoFailure(p, ys, actions, i);
    }
    RunUnique(p, ys, actions, n);
  }

  ghost predicate NoneFailed(y: System) {
    forall id :: id in y.inserts ==> y.inserts[id].missed != Some(false)
  }

  lemma {:induction false} RunNoFailure(p: Params, ys: seq<System>, actions: seq<Action>, n: nat)
    requires IsRun(p, ys, actions) && n < |ys|
    requires forall i: nat :: i < |actions| ==> !FailsNewest(p, ys[i], actions[i])
    ensures NoneFailed(ys[n])
  {
    if n > 0 {
      RunNoFailure(p, ys, actions, n - 1);
      StepNoFailure(p, ys[n - 1], actions[n - 1]);
    }
  }

  lemma StepNoFailure(p: Params, y: System, a: Action)
    requires CanDo(p, y, a) && NoneFailed(y) && !FailsNewest(p, y, a)
    ensures NoneFailed(Do(p, y, a))
  {
  }

  ghost predicate Flat(y: System) {
    forall i: nat :: i < |y.s.tables| ==> !y.s.tables[i].nested
  }

  /** No table attached on the way is nested. */
  ghost predicate AttachesFlat(actions: seq<Action>) {
    forall i: nat :: i < |actions| && actions[i].Attach? ==> !actions[i].nested
  }

  lemma {:induction false} RunFlat(p: Params, ys: seq<System>, actions: seq<Action>, n: nat)
    requires IsRun(p, ys, actions) && n < |ys| && Flat(ys[0]) && AttachesFlat(actions)
    ensures Flat(ys[n])
  {
    if n > 0 {
      RunFlat(p, ys, actions, n - 1);
      StepFlat(p, ys[n - 1], actions[n - 1]);
    }
  }

  lemma StepFlat(p: Params, y: System, a: Action)
    requires CanDo(p, y, a) && Flat(y) && (a.Attach? ==> !a.nested)
    ensures Flat(Do(p, y, a))
  {
  }

  lemma FlatFinds(p: Params, y: System, a: Action)
    requires SysInv(p, y) && Flat(y) && CanDo(p, y, a)
    ensures !a.Miss?
  {
    assert forall i: nat :: i < |y.s.tables| ==> AbsentOk(y.s.tables[i]);
  }

  // ----- places

  /** Entry x of bucket b of table i holds the object. */
  ghost predicate HoldsAt(ts: seq<Table>, o: Object, i: nat, b: nat, x: nat) {
    i < |ts| && b < |ts[i].buckets| && x < |ts[i].buckets[b]| && o in ts[i].buckets[b][x]
  }

  /** Taking the entry at a place out lowers the count of each of its objects. */
  lemma TakeOut(ts: seq<Table>, o: Object, i: nat, b: nat, x: nat) returns (us: seq<Table>)
    requires HoldsAt(ts, o, i, b, x)
    ensures us == ts[i := PutChain(ts[i], b, ts[i].buckets[b][x := []])]
    ensures TablesSum(us, OfObject(o)) < TablesSum(ts, OfObject(o))
  {
    var c := ts[i].buckets[b];
    us := ts[i := PutChain(ts[i], b, c[x := []])];
    ChainChange(ts, i, b, c[x := []], OfObject(o));
    ChainSwap(c, x, [], OfObject(o));
    assert multiset(c[x])[o] > 0;
  }

  /** An object counted once has no second place. */
  lemma OnePlace(ts: seq<Table>, o: Object, i: nat, b: nat, x: nat, i2: nat, b2: nat, x2: nat)
    requires TablesSum(ts, OfObject(o)) <= 1 && HoldsAt(ts, o, i, b, x) && HoldsAt(ts, o, i2, b2, x2)
    ensures i == i2 && b == b2 && x == x2
  {
    var us := TakeOut(ts, o, i, b, x);
    if !(i == i2 && b == b2 && x == x2) {
      assert HoldsAt(us, o, i2, b2, x2);
      var vs := TakeOut(us, o, i2, b2, x2);
    }
  }

  /** An object that is counted has a place. */
  lemma {:induction false} SomePlace(ts: seq<Table>, o: Object) returns (i: nat, b: nat, x: nat)
    requires TablesSum(ts, OfObject(o)) > 0
    ensures HoldsAt(ts, o, i, b, x)
  {
    if BucketsSum(ts[0].buckets, OfObject(o)) > 0 {
      i := 0;
      b, x := SomeBucket(ts[0].buckets, o);
    } else {
      i, b, x := SomePlace(ts[1..], o);
      i := i + 1;
    }
  }

  lemma {:induction false} SomeBucket(bs: seq<seq<Entry>>, o: Object) returns (b: nat, x: nat)
    requires BucketsSum(bs, OfObject(o)) > 0
    ensures b < |bs| && x < |bs[b]| && o in bs[b][x]
  {
    if ChainSum(bs[0], OfObject(o)) > 0 {
      b := 0;
      x := SomeEntry(bs[0], o);
    } else {
      b, x := SomeBucket(bs[1..], o);
      b := b + 1;
    }
  }

  lemma {:induction false} SomeEntry(c: seq<Entry>, o: Object) returns (x: nat)
    requires ChainSum(c, OfObject(o)) > 0
    ensures x < |c| && o in c[x]
  {
    if o in c[0] {
      x := 0;
    } else {
      assert multiset(c[0])[o] == 0;
      x := SomeEntry(c[1..], o);
      x := x + 1;
    }
  }

  /** In every state of every run, an object whose insert succeeded is in exactly one entry of
      exactly one table, that table is not retired, and the entry is in the bucket of its key. */
  lemma StoredOnce(p: Params, ys: seq<System>, actions: seq<Action>, n: nat, o: Object)
    returns (i: nat, b: nat, x: nat)
    requires IsRun(p, ys, actions) && n < |ys| && o in ys[n].stored
    ensures HoldsAt(ys[n].s.tables, o, i, b, x) && ys[n].s.cur <= i
    ensures ys[n].s.tables[i].size > 0 && b == Bucket(p, ys[n].s.tables[i], o.key)
    ensures forall i2: nat, b2: nat, x2: nat :: HoldsAt(ys[n].s.tables, o, i2, b2, x2) ==> i2 == i && b2 == b && x2 == x
  {
    RunOk(p, ys, actions, n);
    var ts := ys[n].s.tables;
    assert TablesSum(ts, OfObject(o)) == ys[n].stored[o];
    i, b, x := SomePlace(ts, o);
    assert Placed(p, ts[i]) && EntryOk(ts[i].buckets[b][x]);
    assert !Drained(ts[i]);
    forall i2: nat, b2: nat, x2: nat | HoldsAt(ts, o, i2, b2, x2)
      ensures i2 == i && b2 == b && x2 == x
    {
      OnePlace(ts, o, i, b, x, i2, b2, x2);
    }
  }
}
