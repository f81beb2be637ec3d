/** The code of lib/rhashtable.c over the state of RHashTable: an insert's locked region computes the
    decision and the effect that RHashSystem interleaves, and the loops are proved for a table nobody
    else changes meanwhile. */
module RHashCode {
  import opened Wrappers
  import opened RHashTable
  import opened RHashSystem

  datatype RehashResult = Moved | NoEntry | NestedTarget

  class HashTable {
    const p: Params
    var tables: seq<Table>
    var cur: nat          // ht->tbl
    var nelems: nat       // ht->nelems

    ghost function View(): State
      reads this
    {
      State(tables, cur, nelems)
    }

    ghost predicate Valid()
      reads this
    {
      Inv(p, View())
    }

    constructor (params: Params, size: nat, seed: nat, nested: bool)
      requires size > 0
      ensures Valid() && p == params && UniqueKeys(View()) && forall o: Object :: TablesSum(tables, OfObject(o)) == 0
    {
      p := params;
      tables := [FreshTable(size, seed, nested)];
      cur := 0;
      nelems := 0;
      new;
      InitOk(p, size, seed, nested);
      assert View() == Init(size, seed, nested).s;
      forall o: Object
        ensures TablesSum(tables, OfObject(o)) == 0
      {
        assert TablesSum(Init(size, seed, nested).s.tables, OfObject(o)) == Init(size, seed, nested).stored[o];
      }
    }

    /** rhashtable_last_table. */
    method LastTable(from: nat) returns (last: nat)
      requires Valid() && from < |tables|
      ensures last == |tables| - 1
    {
      last := from;
      while tables[last].future.Some?
        invariant last < |tables|
        decreases |tables| - last
      {
        last := tables[last].future.value;
      }
    }

    /** The loop of rhashtable_lookup_one: the first entry with the key, or the end of the chain. */
    method LookupOne(at: nat, b: nat, key: nat, keyed: bool) returns (x: nat)
      requires at < |tables| && b < |tables[at].buckets|
      ensures x == if keyed then FirstMatch(tables[at].buckets[b], key) else |tables[at].buckets[b]|
    {
      var c := tables[at].buckets[b];
      x := 0;
      while x < |c|
        invariant x <= |c|
        invariant keyed ==> FirstMatch(c, key) == x + FirstMatch(c[x..], key)
      {
        if keyed && c[x] != [] && c[x][0].key == key { return; }
        assert c[x..][1..] == c[x + 1..];
        x := x + 1;
      }
    }

    /** One round of rhashtable_try_insert: rhashtable_lookup_one and rhashtable_insert_one. */
    method LookAt(o: Object, keyed: bool, at: nat) returns (r: Outcome)
      requires Valid() && at < |tables|
      modifies this
      ensures (View(), r) == Section(p, old(View()), o, keyed, at)
    {
      var t := tables[at];
      var b := Bucket(p, t, o.key);
      var c := t.buckets[b];
      var x := LookupOne(at, b, o.key, keyed);
      if x < |c| {
        if !p.rhlist { return Found(c[x]); }
        // obj takes the place of the list's head and the head comes next in the list
        tables := tables[at := PutChain(t, b, c[x := [o] + c[x]])];
        return Merged;
      }
      if t.future.Some? { return Next; }
      if |c| >= ELASTICITY { return Again; }
      if nelems >= p.maxElems { return TooBig; }
      if nelems > t.size && (p.maxSize == 0 || t.size < p.maxSize) { return Again; }
      tables := tables[at := PutChain(t, b, [[o]] + c)];
      nelems := nelems + 1;
      return Added;
    }

    /** The choice between rht_bucket_var, which never allocates, and rht_bucket_insert: whether the bucket
        has memory afterwards. page are the buckets that an allocation here brings into memory, None
        when it fails. */
    method GetBucket(at: nat, b: nat, page: Option<set<nat>>) returns (found: bool)
      requires Valid() && at < |tables| && (page.Some? ==> b in page.value)
      modifies this
      ensures Valid() && |tables| == |old(tables)| && found == (b !in tables[at].absent)
      ensures View() == if b in old(tables)[at].absent && old(tables)[at].future.None? && page.Some?
                        then PageAdded(old(View()), at, page.value) else old(View())
      ensures forall x :: x in tables[at].absent <==>
                x in old(tables)[at].absent
                && !(b in old(tables)[at].absent && old(tables)[at].future.None? && page.Some? && x in page.value)
    {
      if b !in tables[at].absent { return true; }
      if tables[at].future.Some? || page.None? { return false; }
      PageOk(p, View(), at, page.value);
      tables := tables[at := tables[at].(absent := tables[at].absent - page.value)];
      return true;
    }

    /** One round of the loop of rhashtable_try_insert. page is what an allocation brings into memory. */
    method Round(o: Object, keyed: bool, at: nat, page: Option<set<nat>>) returns (r: Outcome)
      requires Valid() && Searched(p, View(), Insert(o, keyed, at, None, false, false))
      requires page.Some? ==> Bucket(p, tables[at], o.key) in page.value
      modifies this
      ensures r.Next? ==> Valid() && View() == old(View()) && tables[at].future == Some(at + 1)
                          && Searched(p, View(), Insert(o, keyed, at + 1, None, false, false))
      ensures !r.Next? ==> Tried(p, old(View()), View(), o, keyed, r)
      ensures Answers(p, old(View()), o, keyed, at, page.Some?, r) && Effects(p, old(View()), View(), o, at, r)
    {
      var b := Bucket(p, tables[at], o.key);
      var found := GetBucket(at, b, page);
      if !found {
        MissDone(p, View(), o, keyed, at);
        return if tables[at].future.Some? then Next else Again;
      }
      RoundDone(p, old(View()), View(), o, keyed, at, page);
      r := LookAt(o, keyed, at);
    }

    /** rhashtable_try_insert on a table nobody else changes. pages gives what an allocation at each table
        brings into memory. A keyed insert of a key that is present finds it, or joins it, and never adds
        a second entry. Any other insert is answered by the newest table: what it answers depends on the
        memory and the chain of the bucket there, and on the number of elements. */
    method TryInsert(o: Object, keyed: bool, pages: map<nat, set<nat>>) returns (r: Outcome)
      requires Valid()
      requires forall i: nat :: i in pages && i < |tables| ==> tables[i].size > 0 && Bucket(p, tables[i], o.key) in pages[i]
      modifies this
      ensures !r.Next? && Tried(p, old(View()), View(), o, keyed, r)
      ensures nelems == old(nelems) + (if r.Added? then 1 else 0)
      ensures keyed && TablesSum(old(tables), OfKey(o.key)) > 0 ==>
                if p.rhlist then r.Merged? else r.Found? && tables == old(tables) && IsEntry(old(tables), r.entry, o.key)
      ensures !keyed || TablesSum(old(tables), OfKey(o.key)) == 0 ==>
                var n := |old(tables)| - 1;
                var t := old(tables)[n];
                t.size > 0 && |t.buckets| == t.size &&
                var b := p.hash(o.key, t.seed) % t.size;
                r == if b in t.absent && n !in pages then Again
                     else if |t.buckets[b]| >= 16 then Again
                     else if old(nelems) >= p.maxElems then TooBig
                     else if old(nelems) > t.size && (p.maxSize == 0 || t.size < p.maxSize) then Again
                     else Added
      ensures |tables| == |old(tables)| && cur == old(cur)
      ensures r.Added? ==>
                var n := |old(tables)| - 1;
                var t := old(tables)[n];
                t.size > 0 && |t.buckets| == t.size &&
                var b := p.hash(o.key, t.seed) % t.size;
                tables[n].buckets == t.buckets[b := [[o]] + t.buckets[b]]
                && forall i: nat :: i < n ==> tables[i] == old(tables)[i]
      ensures r.Merged? ==> Joined(old(tables), tables, o)
      ensures !r.Added? && !r.Merged? ==> forall i: nat :: i < |tables| ==> tables[i].buckets == old(tables)[i].buckets
    {
      var at := cur;
      StartSearched(p, View(), o, keyed);
      while true
        invariant Valid() && View() == old(View()) && Searched(p, View(), Insert(o, keyed, at, None, false, false))
        decreases |tables| - at
      {
        r := Round(o, keyed, at, if at in pages then Some(pages[at]) else None);
        if !r.Next? {
          AnswersLast(p, old(View()), o, keyed, at, at in pages, r);
          return;
        }
        at := tables[at].future.value;
      }
    }

    /** rhashtable_rehash_one: the walk to the last entry of the chain, and its move. */
    method RehashOne(b: nat) returns (r: RehashResult)
      requires Valid() && cur + 1 < |tables| && b < tables[cur].size && b !in tables[cur].absent
      modifies this
      ensures r == NestedTarget <==> old(tables)[|old(tables)| - 1].nested
      ensures r != Moved ==> View() == old(View())
      ensures r == NoEntry ==> tables[cur].buckets[b] == []
      ensures r == Moved ==>
                var c := old(tables)[old(cur)].buckets[b];
                c != [] && EntryOk(c[|c| - 1]) && View() == Move(p, old(View()), b, |old(tables)| - 1)
      ensures r == Moved ==>
                var c, n := old(tables)[old(cur)].buckets[b], |old(tables)| - 1;
                c != [] && c[|c| - 1] != [] && old(tables)[n].size > 0 && |old(tables)[n].buckets| == old(tables)[n].size &&
                var e: Entry, t := c[|c| - 1], old(tables)[n];
                var d := p.hash(e[0].key, t.seed) % t.size;
                && |tables| == n + 1 && tables[cur].buckets == old(tables)[old(cur)].buckets[b := c[..|c| - 1]]
                && tables[n].buckets == t.buckets[d := [e] + t.buckets[d]]
      ensures Valid() && Rehashed(old(View()), View(), b)
      ensures r == Moved ==> |tables[cur].buckets[b]| < |old(tables)[old(cur)].buckets[b]|
    {
      var last := LastTable(cur);
      if tables[last].nested { return NestedTarget; }
      var c := tables[cur].buckets[b];
      var x := 0;
      while x + 1 < |c|
        invariant x == 0 || x < |c|
      {
        x := x + 1;
      }
      if x == |c| { return NoEntry; }
      var e := c[x];
      assert EntryOk(e);
      var d := Bucket(p, tables[last], e[0].key);
      tables := tables[last := PutChain(tables[last], d, [e] + tables[last].buckets[d])];
      tables := tables[cur := PutChain(tables[cur], b, c[..x])];
      MoveOk(p, old(View()), b, last);
      MoveSays(p, old(View()), b, last);
      return Moved;
    }

    /** rhashtable_rehash_chain: false is -EAGAIN. A bucket without memory is done before the newest table
        is looked at. */
    method RehashChain(b: nat) returns (ok: bool)
      requires Valid() && cur + 1 < |tables| && b < tables[cur].size
      modifies this
      ensures Valid() && Rehashed(old(View()), View(), b)
      ensures ok <==> b in old(tables)[old(cur)].absent || !old(tables)[|old(tables)| - 1].nested
      ensures ok ==> tables[cur].buckets[b] == []
      ensures !ok ==> View() == old(View())
    {
      if b in tables[cur].absent {
        assert AbsentOk(tables[cur]);
        return true;
      }
      while true
        invariant Valid() && Rehashed(old(View()), View(), b)
        invariant old(tables)[|old(tables)| - 1].nested ==> View() == old(View())
        decreases |tables[cur].buckets[b]|
      {
        ghost var before := View();
        var r := RehashOne(b);
        RehashedAgain(old(View()), before, View(), b);
        if r == NestedTarget { return false; }
        if r == NoEntry { return true; }
      }
    }

    /** rhashtable_rehash_table: empty every bucket of the current table and publish the next one.
        done is false when there is no next table, or when the newest table is nested and the current one
        has a bucket in memory. */
    method RehashTable() returns (done: bool)
      requires Valid()
      modifies this
      ensures Valid() && nelems == old(nelems)
      ensures forall q: Query :: TablesSum(tables, q) == TablesSum(old(tables), q)
      ensures done ==> cur == old(cur) + 1 && Drained(tables[old(cur)])
      ensures !done ==> cur == old(cur)
      ensures done <==> old(tables)[old(cur)].future.Some? &&
                        (!old(tables)[|old(tables)| - 1].nested || NothingInMemory(old(tables)[old(cur)], old(tables)[old(cur)].size))
    {
      var future := tables[cur].future;
      if !future.Some? { return false; }
      var b := 0;
      while b < tables[cur].size
        invariant Valid() && b <= tables[cur].size && Emptied(old(View()), View(), b)
        invariant old(tables)[|old(tables)| - 1].nested ==> NothingInMemory(old(tables)[old(cur)], b)
      {
        ghost var before := View();
        var ok := RehashChain(b);
        if !ok { return false; }
        EmptiedMore(old(View()), before, View(), b);
        b := b + 1;
      }
      cur := future.value;
      return true;
    }

    /** rhashtable_rehash_attach: the compare-and-swap on future_tbl; false is -EEXIST. */
    method AttachNew(to: nat, size: nat, seed: nat, nested: bool) returns (ok: bool)
      requires Valid() && to < |tables| && size > 0
      modifies this
      ensures Valid() && View() == AttachTable(old(View()), to, size, seed, nested)
      ensures ok <==> old(tables)[to].future == None
      ensures !ok ==> tables == old(tables)
      ensures ok ==>
                && |tables| == |old(tables)| + 1 && tables[to].future == Some(|old(tables)|)
                && (forall i: nat :: i < |old(tables)| ==> tables[i].buckets == old(tables)[i].buckets)
                && var t := tables[|old(tables)|];
                   && t.size == size && t.seed == seed && t.nested == nested && t.future == None && |t.buckets| == size
                   && forall b: nat :: b < size ==> t.buckets[b] == [] && (b in t.absent <==> nested)
    {
      AttachInv(p, View(), to, size, seed, nested);
      if tables[to].future != None { return false; }
      tables := tables[to := tables[to].(future := Some(|tables|))] + [FreshTable(size, seed, nested)];
      return true;
    }
  }

  /** Two lists of tables that differ in their buckets only. */
  predicate SameTables(ts: seq<Table>, us: seq<Table>) {
    |ts| == |us| && forall i: nat :: i < |ts| ==> ts[i] == us[i].(buckets := ts[i].buckets)
  }

  /** Entries of bucket b of the current table have moved to other tables, and nothing else changed. */
  ghost predicate Rehashed(s: State, u: State, b: nat) {
    && u.cur == s.cur < |s.tables| && u.nelems == s.nelems && SameTables(u.tables, s.tables)
    && b < |s.tables[s.cur].buckets| == |u.tables[s.cur].buckets|
    && u.tables[s.cur].buckets == s.tables[s.cur].buckets[b := u.tables[s.cur].buckets[b]]
    && forall q: Query :: TablesSum(u.tables, q) == TablesSum(s.tables, q)
  }

  /** The first n buckets of the current table have been emptied, and nothing else changed. */
  ghost predicate Emptied(s: State, u: State, n: nat) {
    && u.cur == s.cur < |s.tables| && u.nelems == s.nelems && SameTables(u.tables, s.tables)
    && n <= |u.tables[s.cur].buckets|
    && (forall a: nat :: a < n ==> u.tables[s.cur].buckets[a] == [])
    && forall q: Query :: TablesSum(u.tables, q) == TablesSum(s.tables, q)
  }

  lemma EmptiedMore(s: State, t: State, u: State, b: nat)
    requires Emptied(s, t, b) && Rehashed(t, u, b) && u.tables[u.cur].buckets[b] == []
    ensures Emptied(s, u, b + 1)
  {
  }

  lemma RehashedAgain(s: State, t: State, u: State, b: nat)
    requires Rehashed(s, t, b) && Rehashed(t, u, b)
    ensures Rehashed(s, u, b)
  {
  }

  /** No bucket below n has memory. */
  predicate NothingInMemory(t: Table, n: nat) {
    forall b: nat :: b < n ==> b in t.absent
  }

  lemma StartSearched(p: Params, s: State, o: Object, keyed: bool)
    requires Inv(p, s)
    ensures Searched(p, s, Insert(o, keyed, s.cur, None, false, false))
  {
    forall j: nat | j < s.cur
      ensures KeyIn(s, j, o.key) == 0
    {
      EmptySum(s.tables[j].buckets, OfKey(o.key));
    }
  }

  /** A bucket without memory has no entry, so a table that has a successor is done with. */
  lemma MissedSearched(p: Params, s: State, o: Object, keyed: bool, at: nat)
    requires Inv(p, s) && Searched(p, s, Insert(o, keyed, at, None, false, false)) && at + 1 < |s.tables|
    requires Bucket(p, s.tables[at], o.key) in s.tables[at].absent
    ensures Searched(p, s, Insert(o, keyed, at + 1, None, false, false))
  {
    assert AbsentOk(s.tables[at]);
    KeyInChain(p, s, at, o.key);
  }

  /** A page more changes nothing that is stored. */
  lemma PageSearched(p: Params, s: State, u: State, o: Object, keyed: bool, at: nat, bs: set<nat>)
    requires Inv(p, s) && at < |s.tables| && Searched(p, s, Insert(o, keyed, at, None, false, false))
    requires u == s || u == PageAdded(s, at, bs)
    ensures Inv(p, u) && Searched(p, u, Insert(o, keyed, at, None, false, false))
    ensures forall q: Query :: TablesSum(u.tables, q) == TablesSum(s.tables, q)
  {
    PageOk(p, s, at, bs);
    SearchedSame(p, s, u, Insert(o, keyed, at, None, false, false));
  }

  /** The answer of one round at table at; page is whether an allocation succeeds there. */
  ghost predicate Answers(p: Params, s: State, o: Object, keyed: bool, at: nat, page: bool, r: Outcome)
    requires Inv(p, s) && at < |s.tables|
  {
    var t := s.tables[at];
    var b := p.hash(o.key, t.seed) % t.size;
    if keyed && KeyIn(s, at, o.key) > 0 then
      if p.rhlist then r.Merged? else r.Found? && IsEntry(s.tables, r.entry, o.key)
    else
      r == if t.future.Some? then Next
           else if b in t.absent && !page then Again
           else if |t.buckets[b]| >= 16 then Again
           else if s.nelems >= p.maxElems then TooBig
           else if s.nelems > t.size && (p.maxSize == 0 || t.size < p.maxSize) then Again
           else Added
  }

  /** Entry e is in one of the tables, and has the key. */
  ghost predicate IsEntry(ts: seq<Table>, e: Entry, key: nat) {
    && e != [] && e[0].key == key
    && exists i: nat, b: nat, x: nat :: i < |ts| && b < |ts[i].buckets| && x < |ts[i].buckets[b]| && ts[i].buckets[b][x] == e
  }

  /** The object is the new head of an entry with its key, and nothing else changed. */
  ghost predicate Joined(ts: seq<Table>, us: seq<Table>, o: Object) {
    exists i: nat, b: nat, x: nat :: JoinedAt(ts, us, o, i, b, x)
  }

  predicate JoinedAt(ts: seq<Table>, us: seq<Table>, o: Object, i: nat, b: nat, x: nat) {
    && i < |ts| && b < |ts[i].buckets| && x < |ts[i].buckets[b]|
    && var c: seq<Entry> := ts[i].buckets[b];
       && c[x] != [] && c[x][0].key == o.key
       && us == ts[i := ts[i].(buckets := ts[i].buckets[b := c[x := [o] + c[x]]])]
  }

  /** What one round does to the tables. */
  ghost predicate Effects(p: Params, s: State, u: State, o: Object, at: nat, r: Outcome)
    requires Inv(p, s) && at < |s.tables|
  {
    var t := s.tables[at];
    var b := p.hash(o.key, t.seed) % t.size;
    && |u.tables| == |s.tables| && u.cur == s.cur
    && (r.Added? ==>
          && u.tables[at].buckets == t.buckets[b := [[o]] + t.buckets[b]]
          && (forall i: nat :: i < |s.tables| && i != at ==> u.tables[i] == s.tables[i]) && u.nelems == s.nelems + 1)
    && (r.Merged? ==> Joined(s.tables, u.tables, o))
    && (r.Found? ==> u == s)
    && (!r.Added? && !r.Merged? ==> forall i: nat :: i < |s.tables| ==> u.tables[i].buckets == s.tables[i].buckets)
  }

  /** The answer of the last round is that of the whole chain of tables. */
  lemma AnswersLast(p: Params, s: State, o: Object, keyed: bool, at: nat, page: bool, r: Outcome)
    requires Inv(p, s) && Searched(p, s, Insert(o, keyed, at, None, false, false)) && Answers(p, s, o, keyed, at, page, r) && !r.Next?
    ensures keyed && TablesSum(s.tables, OfKey(o.key)) > 0 ==> KeyIn(s, at, o.key) > 0
    ensures !keyed || TablesSum(s.tables, OfKey(o.key)) == 0 ==> at == |s.tables| - 1 && !(keyed && KeyIn(s, at, o.key) > 0)
  {
    KeyNowhere(s.tables, o.key);
    if keyed && KeyIn(s, at, o.key) == 0 {
      forall i: nat | i < |s.tables|
        ensures BucketsSum(s.tables[i].buckets, OfKey(o.key)) == 0
      {
        assert KeyIn(s, i, o.key) == 0;
      }
    }
  }

  /** A round at a bucket that gets no memory. */
  lemma MissDone(p: Params, s: State, o: Object, keyed: bool, at: nat)
    requires Inv(p, s) && Searched(p, s, Insert(o, keyed, at, None, false, false))
    requires Bucket(p, s.tables[at], o.key) in s.tables[at].absent
    ensures var r := if s.tables[at].future.Some? then Next else Again;
      && Answers(p, s, o, keyed, at, false, r) && (s.tables[at].future.Some? ==> Answers(p, s, o, keyed, at, true, r))
      && Effects(p, s, s, o, at, r)
      && (r.Next? ==> s.tables[at].future == Some(at + 1) && Searched(p, s, Insert(o, keyed, at + 1, None, false, false)))
      && Tried(p, s, s, o, keyed, Again)
  {
    KeyInChain(p, s, at, o.key);
    assert AbsentOk(s.tables[at]);
    if s.tables[at].future.Some? { MissedSearched(p, s, o, keyed, at); }
  }

  /** A round at a bucket that has memory, maybe only just now. */
  lemma RoundDone(p: Params, s0: State, s: State, o: Object, keyed: bool, at: nat, page: Option<set<nat>>)
    requires Inv(p, s0) && Searched(p, s0, Insert(o, keyed, at, None, false, false)) && Paged(p, s0, s, o, at, page)
    requires Inv(p, s) && Bucket(p, s0.tables[at], o.key) !in s.tables[at].absent
    ensures var (u, r) := Section(p, s, o, keyed, at);
      && Answers(p, s0, o, keyed, at, page.Some?, r) && Effects(p, s0, u, o, at, r)
      && (if r.Next? then u == s0 && s0.tables[at].future == Some(at + 1) && Searched(p, s0, Insert(o, keyed, at + 1, None, false, false))
          else Tried(p, s0, u, o, keyed, r))
  {
    PageSearched(p, s0, s, o, keyed, at, if page.Some? then page.value else {});
    LookDone(p, s, o, keyed, at);
    LookAnswers(p, s0, s, o, keyed, at, page);
    LookEffects(p, s0, s, o, keyed, at, page);
  }

  /** s is s0 with the page of a bucket that had no memory, if one was to be had. */
  ghost predicate Paged(p: Params, s0: State, s: State, o: Object, at: nat, page: Option<set<nat>>)
    requires Inv(p, s0) && at < |s0.tables|
  {
    s == if page.Some? && s0.tables[at].future.None? && Bucket(p, s0.tables[at], o.key) in s0.tables[at].absent
         then PageAdded(s0, at, page.value) else s0
  }

  /** A look at a bucket that has memory, maybe only just now. */
  lemma LookAnswers(p: Params, s0: State, s: State, o: Object, keyed: bool, at: nat, page: Option<set<nat>>)
    requires Inv(p, s0) && Inv(p, s) && at < |s0.tables| && Paged(p, s0, s, o, at, page)
    requires Bucket(p, s0.tables[at], o.key) !in s.tables[at].absent
    ensures Answers(p, s0, o, keyed, at, page.Some?, Section(p, s, o, keyed, at).1)
    ensures Section(p, s, o, keyed, at).1.Found? || Section(p, s, o, keyed, at).1.Merged? ==> s == s0
  {
    DecideSays(p, s, o, keyed, at, s.nelems);
    assert KeyIn(s, at, o.key) == KeyIn(s0, at, o.key);
    if s != s0 {
      KeyInChain(p, s0, at, o.key);
      assert AbsentOk(s0.tables[at]);
    }
  }

  lemma LookEffects(p: Params, s0: State, s: State, o: Object, keyed: bool, at: nat, page: Option<set<nat>>)
    requires Inv(p, s0) && Inv(p, s) && at < |s0.tables| && Paged(p, s0, s, o, at, page)
    requires Section(p, s, o, keyed, at).1.Found? || Section(p, s, o, keyed, at).1.Merged? ==> s == s0
    ensures Effects(p, s0, Section(p, s, o, keyed, at).0, o, at, Section(p, s, o, keyed, at).1)
  {
    var (u, r) := Section(p, s, o, keyed, at);
    DecideFacts(p, s, o, keyed, at, s.nelems);
    ApplySays(p, s, o, at, r);
    if r.Merged? {
      var t := s.tables[at];
      var b := p.hash(o.key, t.seed) % t.size;
      var x: nat :| && x < |t.buckets[b]| && t.buckets[b][x] != [] && t.buckets[b][x][0].key == o.key
                    && u == s.(tables := s.tables[at := t.(buckets := t.buckets[b := t.buckets[b][x := [o] + t.buckets[b][x]]])]);
      assert JoinedAt(s.tables, u.tables, o, at, b, x);
    }
  }

  /** What an insert that is not sent on to another table has done. */
  ghost predicate Tried(p: Params, s: State, u: State, o: Object, keyed: bool, r: Outcome) {
    && Inv(p, s) && Inv(p, u)
    && (forall q: Query :: TablesSum(u.tables, q) == TablesSum(s.tables, q) + Gain(r, o, q))
    && (r.Found? ==> keyed && !p.rhlist && r.entry != [] && r.entry[0].key == o.key)
    && (r.Merged? ==> keyed && p.rhlist)
    && (keyed && r.Added? ==> TablesSum(s.tables, OfKey(o.key)) == 0)
    && (keyed && UniqueKeys(s) ==> UniqueKeys(u))
  }

  /** A key that was nowhere when it was added leaves keys unique. */
  lemma UniqueGain(p: Params, s: State, u: State, o: Object, r: Outcome)
    requires Inv(p, s) && Inv(p, u) && UniqueKeys(s)
    requires forall q: Query :: TablesSum(u.tables, q) == TablesSum(s.tables, q) + Gain(r, o, q)
    requires r.Added? ==> TablesSum(s.tables, OfKey(o.key)) == 0
    ensures UniqueKeys(u)
  {
    forall k: nat
      ensures TablesSum(u.tables, OfKey(k)) <= 1
    {
      assert TablesSum(s.tables, OfKey(k)) <= 1;
      assert TablesSum(u.tables, OfKey(k)) == TablesSum(s.tables, OfKey(k)) + Gain(r, o, OfKey(k));
    }
  }

  /** A look ends the insert or sends it on to the next table. */
  lemma LookDone(p: Params, s: State, o: Object, keyed: bool, at: nat)
    requires Inv(p, s) && Searched(p, s, Insert(o, keyed, at, None, false, false))
    requires Bucket(p, s.tables[at], o.key) !in s.tables[at].absent
    ensures var (u, r) := Section(p, s, o, keyed, at);
      && Tried(p, s, u, o, keyed, r)
      && (r.Next? ==> u == s && s.tables[at].future == Some(at + 1) && Searched(p, s, Insert(o, keyed, at + 1, None, false, false)))
  {
    var (u, r) := Section(p, s, o, keyed, at);
    SectionInv(p, s, o, keyed, at);
    DecideFacts(p, s, o, keyed, at, s.nelems);
    forall q: Query
      ensures TablesSum(u.tables, q) == TablesSum(s.tables, q) + Gain(r, o, q)
    {
      SectionSums(p, s, o, keyed, at, q);
    }
    if keyed && r.Added? {
      AddedAbsent(p, s, Insert(o, keyed, at, None, false, false), s.nelems);
    }
    if keyed && UniqueKeys(s) { UniqueGain(p, s, u, o, r); }
  }
}
