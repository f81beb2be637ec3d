/** lib/rhashtable.c: the resizable hash table as a system of atomic steps.

    A step is what happens at one moment to memory that others share: an insert's decision under the lock
    of its bucket, the addition of its object under the same lock, its finding that a bucket has no
    memory, its step to the next table after that, the allocation of a page of buckets, the move of one
    entry, the attachment of a new table, the publication of the next one. Any number of inserts and the
    one rehash worker interleave freely; a bucket lock excludes only who needs the same lock. Tables are
    numbered in the order they were attached. */
module RHashTable {
  import opened Wrappers

  datatype Object = Object(id: nat, key: nat)

  /** A bucket entry: one object, or, in an rhlist table, the objects with one key, newest first. */
  type Entry = seq<Object>

  /** absent are the buckets of a nested table whose page is not in memory yet. */
  datatype Table = Table(size: nat, seed: nat, nested: bool, future: Option<nat>, buckets: seq<seq<Entry>>,
                         absent: set<nat>)

  /** hash is the hash function; maxElems is ht->max_elems. */
  datatype Params = Params(hash: (nat, nat) -> nat, rhlist: bool, maxSize: nat, maxElems: nat)

  datatype State = State(tables: seq<Table>, cur: nat, nelems: nat)

  const ELASTICITY: nat := 16

  /** rht_head_hashfn, rht_bucket_index: table sizes are powers of two, so the mask is a remainder. */
  function Bucket(p: Params, t: Table, key: nat): (b: nat)
    requires t.size > 0
    ensures b < t.size
  {
    p.hash(key, t.seed) % t.size
  }

  function EmptyBuckets(n: nat): (s: seq<seq<Entry>>)
    ensures |s| == n && forall b: nat :: b < n ==> s[b] == []
  {
    seq(n, _ => [])
  }

  function AllBuckets(n: nat): (s: set<nat>)
    ensures forall b: nat :: b in s <==> b < n
  {
    if n == 0 then {} else AllBuckets(n - 1) + {n - 1}
  }

  /** bucket_table_alloc. A nested table has none of its buckets in memory at first. */
  function FreshTable(size: nat, seed: nat, nested: bool): Table {
    Table(size, seed, nested, None, EmptyBuckets(size), if nested then AllBuckets(size) else {})
  }

  /** rht_grow_above_100, for the number of elements that was read. */
  predicate GrowAbove100(p: Params, nelems: nat, t: Table) {
    nelems > t.size && (p.maxSize == 0 || t.size < p.maxSize)
  }

  // ----- what is stored

  /** What to count: occurrences of an object, entries with a key, or all entries. */
  datatype Query = OfObject(o: Object) | OfKey(k: nat) | All

  function Weight(e: Entry, q: Query): nat {
    match q
    case OfObject(o) => multiset(e)[o]
    case OfKey(k) => if e != [] && e[0].key == k then 1 else 0
    case All => 1
  }

  function ChainSum(c: seq<Entry>, q: Query): nat {
    if c == [] then 0 else Weight(c[0], q) + ChainSum(c[1..], q)
  }

  function BucketsSum(bs: seq<seq<Entry>>, q: Query): nat {
    if bs == [] then 0 else ChainSum(bs[0], q) + BucketsSum(bs[1..], q)
  }

  function TablesSum(ts: seq<Table>, q: Query): nat {
    if ts == [] then 0 else BucketsSum(ts[0].buckets, q) + TablesSum(ts[1..], q)
  }

  predicate Sized(t: Table) { t.size > 0 && |t.buckets| == t.size }

  // ----- invariant

  /** Every entry is in the bucket of its key, and its objects share that key. */
  ghost predicate Placed(p: Params, t: Table)
    requires Sized(t)
  {
    forall b: nat, x: nat :: b < t.size && x < |t.buckets[b]| ==>
      EntryOk(t.buckets[b][x]) && Bucket(p, t, t.buckets[b][x][0].key) == b
  }

  ghost predicate EntryOk(e: Entry) {
    |e| > 0 && forall y: nat :: y < |e| ==> e[y].key == e[0].key
  }

  /** Only a nested table lacks buckets, and those are empty. */
  predicate AbsentOk(t: Table)
    requires Sized(t)
  {
    forall b :: b in t.absent ==> t.nested && b < t.size && t.buckets[b] == []
  }

  predicate Drained(t: Table) {
    forall b: nat :: b < |t.buckets| ==> t.buckets[b] == []
  }

  ghost predicate Inv(p: Params, s: State) {
    && s.cur < |s.tables|
    && (forall i: nat :: i < |s.tables| ==> Sized(s.tables[i]) && Placed(p, s.tables[i]) && AbsentOk(s.tables[i]))
    && (forall i: nat :: i < |s.tables| ==>
          s.tables[i].future == if i + 1 < |s.tables| then Some(i + 1) else None)
    && (forall i: nat :: i < s.cur ==> Drained(s.tables[i]))
    && TablesSum(s.tables, All) == s.nelems
  }

  /** No key has two entries anywhere. */
  ghost predicate UniqueKeys(s: State) {
    forall k: nat :: TablesSum(s.tables, OfKey(k)) <= 1
  }

  // ----- the sums of changed chains and tables

  lemma {:induction false} ChainSumConcat(a: seq<Entry>, b: seq<Entry>, q: Query)
    ensures ChainSum(a + b, q) == ChainSum(a, q) + ChainSum(b, q)
  {
    if a == [] {
      assert a + b == b;
    } else {
      assert (a + b)[1..] == a[1..] + b;
      ChainSumConcat(a[1..], b, q);
    }
  }

  lemma ChainSumOne(e: Entry, q: Query)
    ensures ChainSum([e], q) == Weight(e, q)
  {
  }

  /** Replacing one entry of a chain. */
  lemma ChainSwap(c: seq<Entry>, x: nat, e: Entry, q: Query)
    requires x < |c|
    ensures ChainSum(c[x := e], q) == ChainSum(c, q) - Weight(c[x], q) + Weight(e, q)
    ensures ChainSum(c, q) >= Weight(c[x], q)
  {
    assert c == c[..x] + ([c[x]] + c[x + 1..]);
    assert c[x := e] == c[..x] + ([e] + c[x + 1..]);
    ChainSumConcat(c[..x], [c[x]] + c[x + 1..], q);
    ChainSumConcat(c[..x], [e] + c[x + 1..], q);
  }

  lemma {:induction false} BucketsSwap(bs: seq<seq<Entry>>, b: nat, c: seq<Entry>, q: Query)
    requires b < |bs|
    ensures BucketsSum(bs[b := c], q) == BucketsSum(bs, q) - ChainSum(bs[b], q) + ChainSum(c, q)
  {
    if b == 0 {
      assert bs[b := c][1..] == bs[1..];
    } else {
      assert bs[b := c][1..] == bs[1..][b - 1 := c];
      BucketsSwap(bs[1..], b - 1, c, q);
    }
  }

  lemma {:induction false} TablesSwap(ts: seq<Table>, i: nat, t: Table, q: Query)
    requires i < |ts|
    ensures TablesSum(ts[i := t], q) == TablesSum(ts, q) - BucketsSum(ts[i].buckets, q) + BucketsSum(t.buckets, q)
  {
    if i == 0 {
      assert ts[i := t][1..] == ts[1..];
    } else {
      assert ts[i := t][1..] == ts[1..][i - 1 := t];
      TablesSwap(ts[1..], i - 1, t, q);
    }
  }

  function PutChain(t: Table, b: nat, c: seq<Entry>): Table
    requires b < |t.buckets|
  {
    t.(buckets := t.buckets[b := c])
  }

  /** Exchanging the chain of one bucket changes every sum by the difference of the chains. */
  lemma ChainChange(ts: seq<Table>, i: nat, b: nat, c: seq<Entry>, q: Query)
    requires i < |ts| && b < |ts[i].buckets|
    ensures TablesSum(ts[i := PutChain(ts[i], b, c)], q)
            == TablesSum(ts, q) - ChainSum(ts[i].buckets[b], q) + ChainSum(c, q)
  {
    TablesSwap(ts, i, PutChain(ts[i], b, c), q);
    BucketsSwap(ts[i].buckets, b, c, q);
  }

  lemma {:induction false} SumAppend(ts: seq<Table>, t: Table, q: Query)
    ensures TablesSum(ts + [t], q) == TablesSum(ts, q) + BucketsSum(t.buckets, q)
  {
    if ts == [] {
      assert ts + [t] == [t];
    } else {
      assert (ts + [t])[1..] == ts[1..] + [t];
      SumAppend(ts[1..], t, q);
    }
  }

  lemma {:induction false} EmptySum(bs: seq<seq<Entry>>, q: Query)
    requires forall b: nat :: b < |bs| ==> bs[b] == []
    ensures BucketsSum(bs, q) == 0
  {
    if bs != [] { EmptySum(bs[1..], q); }
  }

  // ----- where a key is

  /** The entries with key k of table i. */
  function KeyIn(s: State, i: nat, k: nat): nat
    requires i < |s.tables|
  {
    BucketsSum(s.tables[i].buckets, OfKey(k))
  }

  /** Only the bucket a key hashes to has entries with it. */
  lemma {:induction false} KeyInBucket(bs: seq<seq<Entry>>, b: nat, k: nat)
    requires b < |bs|
    requires forall a: nat, x: nat :: a < |bs| && x < |bs[a]| && a != b ==> Weight(bs[a][x], OfKey(k)) == 0
    ensures BucketsSum(bs, OfKey(k)) == ChainSum(bs[b], OfKey(k))
  {
    if b == 0 {
      NoKeySum(bs[1..], k);
    } else {
      forall a: nat, x: nat | a < |bs[1..]| && x < |bs[1..][a]| && a != b - 1
        ensures Weight(bs[1..][a][x], OfKey(k)) == 0
      {
        assert bs[1..][a] == bs[a + 1];
      }
      KeyInBucket(bs[1..], b - 1, k);
      assert bs[0] == [] || Weight(bs[0][0], OfKey(k)) == 0;
      NoKeyChain(bs[0], k);
    }
  }

  lemma {:induction false} NoKeyChain(c: seq<Entry>, k: nat)
    requires forall x: nat :: x < |c| ==> Weight(c[x], OfKey(k)) == 0
    ensures ChainSum(c, OfKey(k)) == 0
  {
    if c != [] { NoKeyChain(c[1..], k); }
  }

  lemma {:induction false} NoKeySum(bs: seq<seq<Entry>>, k: nat)
    requires forall a: nat, x: nat :: a < |bs| && x < |bs[a]| ==> Weight(bs[a][x], OfKey(k)) == 0
    ensures BucketsSum(bs, OfKey(k)) == 0
  {
    if bs != [] {
      NoKeyChain(bs[0], k);
      forall a: nat, x: nat | a < |bs[1..]| && x < |bs[1..][a]|
        ensures Weight(bs[1..][a][x], OfKey(k)) == 0
      {
        assert bs[1..][a] == bs[a + 1];
      }
      NoKeySum(bs[1..], k);
    }
  }

  lemma KeyInChain(p: Params, s: State, i: nat, k: nat)
    requires i < |s.tables| && Sized(s.tables[i]) && Placed(p, s.tables[i])
    ensures KeyIn(s, i, k) == ChainSum(s.tables[i].buckets[Bucket(p, s.tables[i], k)], OfKey(k))
  {
    KeyInBucket(s.tables[i].buckets, Bucket(p, s.tables[i], k), k);
  }

  lemma {:induction false} KeyNowhere(ts: seq<Table>, k: nat)
    ensures TablesSum(ts, OfKey(k)) == 0 <==> forall i: nat :: i < |ts| ==> BucketsSum(ts[i].buckets, OfKey(k)) == 0
  {
    if ts != [] {
      KeyNowhere(ts[1..], k);
      assert forall i: nat :: 0 < i < |ts| ==> ts[i] == ts[1..][i - 1];
    }
  }

  // ----- one look of an insert at one table

  /** How a look at one table ends: Next goes on to the next table, Again gives up for now. */
  datatype Outcome = Added | Merged | Found(entry: Entry) | Next | Again | TooBig

  /** The first entry of the chain with the key, or the chain's length (rhashtable_lookup_one). */
  function FirstMatch(c: seq<Entry>, key: nat): (x: nat)
    ensures x <= |c|
    ensures x < |c| ==> c[x] != [] && c[x][0].key == key
    ensures x == |c| <==> ChainSum(c, OfKey(key)) == 0
  {
    if c == [] then 0
    else if c[0] != [] && c[0][0].key == key then 0
    else 1 + FirstMatch(c[1..], key)
  }

  /** rhashtable_lookup_one and the tests of rhashtable_insert_one, under the lock of one bucket. keyed is
      whether the caller gave a key to compare with; nelems is what was read of the number of elements,
      which that lock does not protect. */
  function Decide(p: Params, s: State, o: Object, keyed: bool, at: nat, nelems: nat): Outcome
    requires at < |s.tables| && Sized(s.tables[at])
  {
    var t := s.tables[at];
    var c := t.buckets[Bucket(p, t, o.key)];
    var x := if keyed then FirstMatch(c, o.key) else |c|;
    if x < |c| then if p.rhlist then Merged else Found(c[x])
    else if t.future.Some? then Next
    else if |c| >= ELASTICITY then Again
    else if nelems >= p.maxElems then TooBig
    else if GrowAbove100(p, nelems, t) then Again
    else Added
  }

  /** What the decision does to the table: obj becomes the first entry of its bucket, or the head of the
      list of its key. */
  function Apply(p: Params, s: State, o: Object, at: nat, r: Outcome): State
    requires at < |s.tables| && Sized(s.tables[at])
    requires r.Merged? ==> Matches(p, s, o, at)
  {
    var t := s.tables[at];
    var b := Bucket(p, t, o.key);
    var c := t.buckets[b];
    var x := FirstMatch(c, o.key);
    match r
    case Added => s.(tables := s.tables[at := PutChain(t, b, [[o]] + c)], nelems := s.nelems + 1)
    case Merged => s.(tables := s.tables[at := PutChain(t, b, c[x := [o] + c[x]])])
    case _ => s
  }

  /** The bucket of the object's key has an entry with that key. */
  predicate Matches(p: Params, s: State, o: Object, at: nat)
    requires at < |s.tables| && Sized(s.tables[at])
  {
    var c := s.tables[at].buckets[Bucket(p, s.tables[at], o.key)];
    FirstMatch(c, o.key) < |c|
  }

  /** One look at a table that nobody else changes meanwhile. */
  function Section(p: Params, s: State, o: Object, keyed: bool, at: nat): (State, Outcome)
    requires at < |s.tables| && Sized(s.tables[at])
  {
    var r := Decide(p, s, o, keyed, at, s.nelems);
    (Apply(p, s, o, at, r), r)
  }

  /** What a look adds to a count. */
  function Gain(r: Outcome, o: Object, q: Query): nat {
    match q
    case OfObject(x) => if (r.Added? || r.Merged?) && x == o then 1 else 0
    case OfKey(k) => if r.Added? && k == o.key then 1 else 0
    case All => if r.Added? then 1 else 0
  }

  /** A decision finds the key, or not, in a table that is not retired, and adds only to the newest. */
  lemma DecideFacts(p: Params, s: State, o: Object, keyed: bool, at: nat, nelems: nat)
    requires Inv(p, s) && at < |s.tables|
    ensures var r := Decide(p, s, o, keyed, at, nelems);
      && (r.Merged? ==> Matches(p, s, o, at))
      && (r.Merged? || r.Added? ==> s.cur <= at)
      && (r.Added? ==> at == |s.tables| - 1)
      && (r.Next? ==> at + 1 < |s.tables|)
      && (keyed && (r.Added? || r.Next?) ==> KeyIn(s, at, o.key) == 0)
  {
    KeyInChain(p, s, at, o.key);
  }

  /** What is answered: a key that the table has is found, or joined; for another one, or without a key,
      it depends on the successor, the chain and the number of elements. */
  lemma DecideSays(p: Params, s: State, o: Object, keyed: bool, at: nat, nelems: nat)
    requires Inv(p, s) && at < |s.tables|
    ensures var t := s.tables[at];
      var c, r := t.buckets[p.hash(o.key, t.seed) % t.size], Decide(p, s, o, keyed, at, nelems);
      if keyed && KeyIn(s, at, o.key) > 0 then
        if p.rhlist then r.Merged?
        else r.Found? && exists x: nat :: x < |c| && c[x] == r.entry && c[x] != [] && c[x][0].key == o.key
      else
        r == if t.future.Some? then Next
             else if |c| >= 16 then Again
             else if nelems >= p.maxElems then TooBig
             else if nelems > t.size && (p.maxSize == 0 || t.size < p.maxSize) then Again
             else Added
  {
    KeyInChain(p, s, at, o.key);
  }

  /** What becomes of the bucket: the object is its new first entry, or the new head of an entry with its
      key. */
  lemma ApplySays(p: Params, s: State, o: Object, at: nat, r: Outcome)
    requires Inv(p, s) && at < |s.tables| && (r.Merged? ==> Matches(p, s, o, at))
    ensures var t := s.tables[at];
      var b, u := p.hash(o.key, t.seed) % t.size, Apply(p, s, o, at, r);
      && (!r.Added? && !r.Merged? ==> u == s)
      && (r.Added? ==> u == s.(tables := s.tables[at := t.(buckets := t.buckets[b := [[o]] + t.buckets[b]])], nelems := s.nelems + 1))
      && (r.Merged? ==>
            exists x: nat :: && x < |t.buckets[b]| && t.buckets[b][x] != [] && t.buckets[b][x][0].key == o.key
                             && u == s.(tables := s.tables[at := t.(buckets := t.buckets[b := t.buckets[b][x := [o] + t.buckets[b][x]]])]))
  {
  }

  lemma ApplySums(p: Params, s: State, o: Object, at: nat, r: Outcome, q: Query)
    requires Inv(p, s) && at < |s.tables| && (r.Merged? ==> Matches(p, s, o, at))
    ensures TablesSum(Apply(p, s, o, at, r).tables, q) == TablesSum(s.tables, q) + Gain(r, o, q)
  {
    var t := s.tables[at];
    var b := Bucket(p, t, o.key);
    var c := t.buckets[b];
    var x := FirstMatch(c, o.key);
    if r.Merged? {
      ChainChange(s.tables, at, b, c[x := [o] + c[x]], q);
      ChainSwap(c, x, [o] + c[x], q);
    } else if r.Added? {
      ChainChange(s.tables, at, b, [[o]] + c, q);
      assert ([[o]] + c)[1..] == c;
    }
  }

  lemma ApplyInv(p: Params, s: State, o: Object, at: nat, r: Outcome)
    requires Inv(p, s) && at < |s.tables| && Bucket(p, s.tables[at], o.key) !in s.tables[at].absent
    requires r.Merged? || r.Added? ==> s.cur <= at
    requires r.Merged? ==> Matches(p, s, o, at)
    ensures var u := Apply(p, s, o, at, r);
      Inv(p, u) && u.cur == s.cur && |u.tables| == |s.tables| && (!r.Added? && !r.Merged? ==> u == s)
  {
    ApplySums(p, s, o, at, r, All);
    if r.Merged? || r.Added? {
      ApplyPlaced(p, s, o, at, r);
      assert AbsentOk(s.tables[at]);
    }
  }

  lemma ApplyPlaced(p: Params, s: State, o: Object, at: nat, r: Outcome)
    requires Inv(p, s) && at < |s.tables| && (r.Merged? || r.Added?)
    requires r.Merged? ==> Matches(p, s, o, at)
    ensures Sized(Apply(p, s, o, at, r).tables[at])
    ensures Placed(p, Apply(p, s, o, at, r).tables[at])
  {
    var t := s.tables[at];
    var c := t.buckets[Bucket(p, t, o.key)];
    var x := FirstMatch(c, o.key);
    if r.Merged? {
      assert EntryOk(c[x]) && EntryOk([o] + c[x]);
    }
  }

  /** A look leaves the other tables alone, and its own table alone except for its key. */
  lemma ApplyKeys(p: Params, s: State, o: Object, at: nat, r: Outcome, j: nat, k: nat)
    requires Inv(p, s) && at < |s.tables| && j < |s.tables| && (r.Merged? ==> Matches(p, s, o, at))
    ensures var u := Apply(p, s, o, at, r);
      |u.tables| == |s.tables| && KeyIn(u, j, k) == KeyIn(s, j, k) + (if j == at then Gain(r, o, OfKey(k)) else 0)
  {
    var t := s.tables[at];
    var b := Bucket(p, t, o.key);
    var c := t.buckets[b];
    var x := FirstMatch(c, o.key);
    if r.Merged? {
      BucketsSwap(t.buckets, b, c[x := [o] + c[x]], OfKey(k));
      ChainSwap(c, x, [o] + c[x], OfKey(k));
    } else if r.Added? {
      BucketsSwap(t.buckets, b, [[o]] + c, OfKey(k));
      assert ([[o]] + c)[1..] == c;
    }
  }

  lemma SectionSums(p: Params, s: State, o: Object, keyed: bool, at: nat, q: Query)
    requires Inv(p, s) && at < |s.tables|
    ensures var (u, r) := Section(p, s, o, keyed, at);
      TablesSum(u.tables, q) == TablesSum(s.tables, q) + Gain(r, o, q)
  {
    ApplySums(p, s, o, at, Decide(p, s, o, keyed, at, s.nelems), q);
  }

  lemma SectionInv(p: Params, s: State, o: Object, keyed: bool, at: nat)
    requires Inv(p, s) && at < |s.tables| && Bucket(p, s.tables[at], o.key) !in s.tables[at].absent
    ensures var (u, r) := Section(p, s, o, keyed, at);
      && Inv(p, u)
      && u.cur == s.cur && |u.tables| == |s.tables|
      && (r.Added? ==> at == |s.tables| - 1)
      && (r.Next? ==> at + 1 < |s.tables|)
      && (!r.Added? && !r.Merged? ==> u == s)
  {
    DecideFacts(p, s, o, keyed, at, s.nelems);
    ApplyInv(p, s, o, at, Decide(p, s, o, keyed, at, s.nelems));
  }

  // ----- the move of one entry

  /** rhashtable_rehash_one: the last entry of bucket b of the current table goes to the head of its
      bucket in table j. */
  function Move(p: Params, s: State, b: nat, j: nat): State
    requires s.cur < j < |s.tables| && Sized(s.tables[s.cur]) && Sized(s.tables[j]) && b < s.tables[s.cur].size
    requires s.tables[s.cur].buckets[b] != [] && |s.tables[s.cur].buckets[b][|s.tables[s.cur].buckets[b]| - 1]| > 0
  {
    var c := s.tables[s.cur].buckets[b];
    var e := c[|c| - 1];
    var d := Bucket(p, s.tables[j], e[0].key);
    var ts := s.tables[j := PutChain(s.tables[j], d, [e] + s.tables[j].buckets[d])];
    s.(tables := ts[s.cur := PutChain(ts[s.cur], b, c[..|c| - 1])])
  }

  lemma MoveOk(p: Params, s: State, b: nat, j: nat)
    requires Inv(p, s) && s.cur < j < |s.tables| && b < s.tables[s.cur].size && s.tables[s.cur].buckets[b] != []
    requires !s.tables[j].nested
    ensures EntryOk(s.tables[s.cur].buckets[b][|s.tables[s.cur].buckets[b]| - 1])
    ensures Inv(p, Move(p, s, b, j))
    ensures forall q: Query :: TablesSum(Move(p, s, b, j).tables, q) == TablesSum(s.tables, q)
  {
    var t := s.tables[s.cur];
    var c := t.buckets[b];
    var e := c[|c| - 1];
    assert EntryOk(e);
    var d := Bucket(p, s.tables[j], e[0].key);
    var ts := s.tables[j := PutChain(s.tables[j], d, [e] + s.tables[j].buckets[d])];
    var u := Move(p, s, b, j);
    forall q: Query
      ensures TablesSum(u.tables, q) == TablesSum(s.tables, q)
    {
      MoveSums(p, s, b, j, q);
    }
    assert AbsentOk(s.tables[j]) && AbsentOk(s.tables[s.cur]);
    assert Sized(u.tables[j]) && Placed(p, u.tables[j]) && AbsentOk(u.tables[j]);
    assert Sized(u.tables[s.cur]) && Placed(p, u.tables[s.cur]) && AbsentOk(u.tables[s.cur]);
  }

  lemma MoveSums(p: Params, s: State, b: nat, j: nat, q: Query)
    requires Inv(p, s) && s.cur < j < |s.tables| && b < s.tables[s.cur].size && s.tables[s.cur].buckets[b] != []
    requires EntryOk(s.tables[s.cur].buckets[b][|s.tables[s.cur].buckets[b]| - 1])
    ensures TablesSum(Move(p, s, b, j).tables, q) == TablesSum(s.tables, q)
  {
    var t := s.tables[s.cur];
    var c := t.buckets[b];
    var e := c[|c| - 1];
    var d := Bucket(p, s.tables[j], e[0].key);
    var f := s.tables[j].buckets[d];
    var ts := s.tables[j := PutChain(s.tables[j], d, [e] + f)];
    ChainChange(s.tables, j, d, [e] + f, q);
    assert ([e] + f)[1..] == f;
    ChainChange(ts, s.cur, b, c[..|c| - 1], q);
    assert c == c[..|c| - 1] + [e];
    ChainSumConcat(c[..|c| - 1], [e], q);
    ChainSumOne(e, q);
  }

  /** The last entry of the chain becomes the first one of its bucket in table j. */
  lemma MoveSays(p: Params, s: State, b: nat, j: nat)
    requires Inv(p, s) && s.cur < j < |s.tables| && b < s.tables[s.cur].size && s.tables[s.cur].buckets[b] != []
    requires EntryOk(s.tables[s.cur].buckets[b][|s.tables[s.cur].buckets[b]| - 1])
    ensures var c, u, t := s.tables[s.cur].buckets[b], Move(p, s, b, j), s.tables[j];
      var e := c[|c| - 1];
      var d := p.hash(e[0].key, t.seed) % t.size;
      && |u.tables| == |s.tables| && u.tables[s.cur].buckets == s.tables[s.cur].buckets[b := c[..|c| - 1]]
      && u.tables[j].buckets == t.buckets[d := [e] + t.buckets[d]]
  {
  }

  /** A move changes where one key is: out of the current table and into table j. */
  lemma MoveKeys(p: Params, s: State, b: nat, j: nat, i: nat, k: nat)
    requires Inv(p, s) && s.cur < j < |s.tables| && b < s.tables[s.cur].size && s.tables[s.cur].buckets[b] != []
    requires EntryOk(s.tables[s.cur].buckets[b][|s.tables[s.cur].buckets[b]| - 1]) && i < |s.tables|
    ensures var c := s.tables[s.cur].buckets[b];
      var w := Weight(c[|c| - 1], OfKey(k));
      && |Move(p, s, b, j).tables| == |s.tables|
      && KeyIn(Move(p, s, b, j), i, k) == KeyIn(s, i, k) + (if i == j then w else 0) - (if i == s.cur then w else 0)
      && KeyIn(s, s.cur, k) >= w
  {
    var t := s.tables[s.cur];
    var c := t.buckets[b];
    var e := c[|c| - 1];
    var d := Bucket(p, s.tables[j], e[0].key);
    var f := s.tables[j].buckets[d];
    BucketsSwap(s.tables[j].buckets, d, [e] + f, OfKey(k));
    assert ([e] + f)[1..] == f;
    BucketsSwap(t.buckets, b, c[..|c| - 1], OfKey(k));
    assert c == c[..|c| - 1] + [e];
    ChainSumConcat(c[..|c| - 1], [e], OfKey(k));
    ChainSumOne(e, OfKey(k));
  }

  // ----- a page of buckets

  /** A page of table i, which holds the buckets bs, is now in memory (nested_table_alloc). */
  function PageAdded(s: State, i: nat, bs: set<nat>): State
    requires i < |s.tables|
  {
    s.(tables := s.tables[i := s.tables[i].(absent := s.tables[i].absent - bs)])
  }

  lemma PageOk(p: Params, s: State, i: nat, bs: set<nat>)
    requires Inv(p, s) && i < |s.tables|
    ensures Inv(p, PageAdded(s, i, bs))
    ensures forall q: Query :: TablesSum(PageAdded(s, i, bs).tables, q) == TablesSum(s.tables, q)
  {
    var t := s.tables[i].(absent := s.tables[i].absent - bs);
    forall q: Query
      ensures TablesSum(PageAdded(s, i, bs).tables, q) == TablesSum(s.tables, q)
    {
      TablesSwap(s.tables, i, t, q);
    }
    assert Placed(p, s.tables[i]) && Placed(p, t) && AbsentOk(s.tables[i]);
  }
}
