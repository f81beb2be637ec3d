/** The walk that frees a whole tree without a stack (radix_tree_free_nodes, xas_free_nodes): from a node
    to its first child, from slot to slot, and from the end of a node up the parent link, freeing the
    node. At every moment the nodes freed are those that come before the walk's place in post-order. */
module TreeFree {
  import opened Wrappers
  import opened Digits
  import opened TreeState
  import opened TreeWalk

  /** Where node r ends. */
  function End(r: Ref): nat { SlotIndex(r, CHUNK) }

  /** What lies between slot offset of node c and the end of the root. */
  function Ahead(top: Ref, c: Ref, offset: nat): nat {
    if SlotIndex(c, offset) <= End(top) then End(top) - SlotIndex(c, offset) else 0
  }

  /** Node r comes, in post-order, before a walk at slot offset of node c. */
  predicate LeftBehind(r: Ref, c: Ref, offset: nat) {
    var x := SlotIndex(c, offset);
    End(r) < x || (End(r) == x && r.level < if offset < CHUNK then LEVELS else c.level)
  }

  lemma Cancel(a: nat, b: nat, p: nat)
    requires p > 0
    ensures a * p < b * p <==> a < b
    ensures a * p == b * p <==> a == b
  {
    if a < b { MulStrict(a, b, p); }
    if b < a { MulStrict(b, a, p); }
  }

  lemma MulStrict(a: nat, b: nat, p: nat)
    requires a < b && p > 0
    ensures a * p < b * p
  {
    assert b * p == a * p + (b - a) * p;
  }

  /** A node ends at a multiple of the size of the nodes of any lower level. */
  lemma EndMultiple(r: Ref, l: nat) returns (k: nat)
    requires r.level >= l
    ensures End(r) == k * CHUNK * Pow(l)
  {
    k := (r.block + 1) * Pow(r.level - l);
    PowSplit(l, r.level);
    assert End(r) == (r.block + 1) * CHUNK * (Pow(r.level - l) * Pow(l));
  }

  lemma EndUnique(r: Ref, s: Ref)
    requires End(r) == End(s) && r.level == s.level
    ensures r == s
  {
    Cancel(r.block * CHUNK + CHUNK, s.block * CHUNK + CHUNK, Pow(r.level));
  }

  lemma SlotsGrow(c: Ref, o: nat, p: nat)
    requires o < p
    ensures SlotIndex(c, o) < SlotIndex(c, p)
  {
    MulStrict(c.block * CHUNK + o, c.block * CHUNK + p, Pow(c.level));
  }

  /** A lower node that ends within slot o of c lies below that slot. */
  lemma EndsInSlot(t: Tree, c: Ref, o: nat, r: Ref)
    requires Shape(t) && t.head.Inner? && c in t.nodes && r in t.nodes && o < CHUNK && r.level < c.level
    requires SlotIndex(c, o) < End(r) <= SlotIndex(c, o + 1)
    ensures Child(c, o) in t.nodes
  {
    var last := End(r) - 1;
    assert NodeShape(t, c);
    PowStep(r.block + 1, r.level);
    PowStep(r.block, r.level);
    assert r.block * Pow(r.level + 1) <= last by { MulMono(r.block * CHUNK, r.block * CHUNK + 15, Pow(r.level)); }
    BlockUnique(last, r.level + 1, r.block);
    BlockUnique(last, c.level, c.block * CHUNK + o);
    PathUp(t, last, r.level, c.level - 1);
    assert At(last, c.level - 1) == Child(c, o);
  }

  /** A node of a level at least c's ends at the edge of slot o only if that is the last slot. */
  lemma EndsAtEdge(r: Ref, c: Ref, o: nat)
    requires r.level >= c.level && o < CHUNK && SlotIndex(c, o) < End(r) <= SlotIndex(c, o + 1)
    ensures o + 1 == CHUNK && End(r) == SlotIndex(c, o + 1)
  {
    var k := EndMultiple(r, c.level);
    Cancel(c.block * CHUNK + o, k * CHUNK, Pow(c.level));
    Cancel(c.block * CHUNK + o + 1, k * CHUNK, Pow(c.level));
    assert k * CHUNK > c.block * CHUNK + o;
    assert k * CHUNK <= c.block * CHUNK + o + 1;
    assert k * CHUNK == c.block * CHUNK + o + 1;
  }

  /** Passing a slot without a node passes no node. */
  lemma PassSlot(t: Tree, c: Ref, o: nat, r: Ref)
    requires Shape(t) && t.head.Inner? && c in t.nodes && r in t.nodes && o < CHUNK
    requires c.level > 0 ==> Child(c, o) !in t.nodes
    ensures LeftBehind(r, c, o + 1) <==> LeftBehind(r, c, o)
  {
    assert NodeShape(t, r) && NodeShape(t, c);
    SlotsGrow(c, o, o + 1);
    if LeftBehind(r, c, o + 1) && !LeftBehind(r, c, o) {
      if r.level < c.level {
        EndsInSlot(t, c, o, r);
      } else {
        EndsAtEdge(r, c, o);
      }
    }
  }

  /** Going down to the first slot of a child passes no node. */
  lemma EnterNode(c: Ref, o: nat, r: Ref)
    requires c.level > 0 && o < CHUNK
    ensures LeftBehind(r, Child(c, o), 0) <==> LeftBehind(r, c, o)
    ensures SlotIndex(Child(c, o), 0) == SlotIndex(c, o)
  {
    PowStep(c.block * CHUNK + o, c.level - 1);
  }

  /** A walk within a node has not passed it, and at its end has passed its children. */
  lemma NotYet(c: Ref, o: nat)
    requires o <= CHUNK
    ensures !LeftBehind(c, c, o)
  {
    if o < CHUNK { SlotsGrow(c, o, CHUNK); }
  }

  lemma ChildrenPassed(c: Ref, o: nat)
    requires c.level > 0 && o < CHUNK
    ensures LeftBehind(Child(c, o), c, CHUNK)
  {
    PowStep(c.block * CHUNK + o + 1, c.level - 1);
    if o + 1 < CHUNK { SlotsGrow(c, o + 1, CHUNK); }
    assert End(Child(c, o)) == SlotIndex(c, o + 1);
  }

  /** No node of a level at least p's ends between two slots of p. */
  lemma NoEndInside(r: Ref, p: Ref, o: nat)
    requires r.level >= p.level && 0 < o < CHUNK
    ensures End(r) != SlotIndex(p, o)
  {
    var k := EndMultiple(r, p.level);
    Cancel(k * CHUNK, p.block * CHUNK + o, Pow(p.level));
  }

  /** Going up from the end of node c passes c and nothing else. */
  lemma LeaveNode(t: Tree, c: Ref, r: Ref)
    requires Shape(t) && c in t.nodes && r in t.nodes && NodeShape(t, c) && t.nodes[c].parent.Some?
    ensures Up(c) in t.nodes && t.nodes[c].parent == Some(Up(c)) && t.nodes[c].offset < CHUNK
    ensures SlotIndex(Up(c), t.nodes[c].offset + 1) == End(c)
    ensures LeftBehind(r, Up(c), t.nodes[c].offset + 1) <==> LeftBehind(r, c, CHUNK) || r == c
  {
    UpSlot(t, c);
    assert NodeShape(t, r);
    var p, o := Up(c), t.nodes[c].offset + 1;
    if End(r) == End(c) && r != c {
      if r.level == c.level {
        EndUnique(r, c);
      } else if r.level > c.level && o < CHUNK {
        NoEndInside(r, p, o);
      }
    }
  }

  /** At the end of the root everything else has been passed. */
  lemma LastOne(t: Tree, r: Ref)
    requires Shape(t) && t.head.Inner? && r in t.nodes
    ensures LeftBehind(r, t.head.ref, CHUNK) <==> r != t.head.ref
  {
    NodeInRange(t, r);
    PowStep(1, t.head.ref.level);
    assert End(t.head.ref) == MaxIndex(t.head) + 1;
    if r.level == t.head.ref.level { TopUnique(t, r); }
    NotYet(t.head.ref, CHUNK);
  }

  // ----- the walk as a whole

  /** The nodes of log were freed in that order, each once and after all its children. */
  ghost predicate InOrder(keys: set<Ref>, log: seq<Ref>) {
    log == [] ||
    var rest, last := log[..|log| - 1], log[|log| - 1];
    InOrder(keys, rest) && last !in rest && AllIn(keys, last, rest)
  }

  /** Every child of r has been freed. */
  ghost predicate AllIn(keys: set<Ref>, r: Ref, log: seq<Ref>) {
    forall c :: c in keys && Up(c) == r ==> c in log
  }

  lemma {:induction false} InOrderMeans(keys: set<Ref>, log: seq<Ref>, j: nat)
    requires InOrder(keys, log) && j < |log|
    ensures log[j] !in log[..j] && forall c :: c in keys && Up(c) == log[j] ==> c in log[..j]
  {
    var n := |log| - 1;
    if j < n {
      InOrderMeans(keys, log[..n], j);
      assert log[..n][..j] == log[..j];
    }
  }

  /** All nodes have been freed, in the order of log. */
  ghost predicate AllFreed(t: Tree, log: seq<Ref>) {
    InOrder(t.nodes.Keys, log) && forall r :: r in log <==> r in t.nodes
  }

  /** The walk over tree t has come to slot offset of node c; now is what is left in memory. */
  ghost predicate Walk(t: Tree, now: set<Ref>, c: Ref, offset: nat, log: seq<Ref>)
    requires Shape(t) && t.head.Inner?
  {
    && c in t.nodes && offset <= CHUNK && now <= t.nodes.Keys
    && (forall r {:trigger LeftBehind(r, c, offset)} :: r in t.nodes ==> (r in now <==> !LeftBehind(r, c, offset)))
    && (forall r :: r in log <==> r in t.nodes && r !in now)
    && InOrder(t.nodes.Keys, log)
  }

  lemma WalkStart(t: Tree)
    requires Shape(t) && t.head.Inner?
    ensures Walk(t, t.nodes.Keys, t.head.ref, 0, [])
  {
    forall r | r in t.nodes
      ensures !LeftBehind(r, t.head.ref, 0)
    {
      assert SlotIndex(t.head.ref, 0) == 0;
      assert End(r) > 0 by { SlotsGrow(r, 0, CHUNK); }
    }
  }

  lemma WalkHere(t: Tree, now: set<Ref>, c: Ref, offset: nat, log: seq<Ref>)
    requires Shape(t) && t.head.Inner? && Walk(t, now, c, offset, log)
    ensures c in now && NodeShape(t, c) && SlotIndex(c, offset) <= End(t.head.ref)
  {
    NotYet(c, offset);
    SlotInRange(t, c, offset);
    PowStep(1, t.head.ref.level);
  }

  lemma WalkInto(t: Tree, now: set<Ref>, c: Ref, o: nat, log: seq<Ref>)
    requires Shape(t) && t.head.Inner? && Walk(t, now, c, o, log) && o < CHUNK && c.level > 0 && Child(c, o) in t.nodes
    ensures Walk(t, now, Child(c, o), 0, log) && SlotIndex(Child(c, o), 0) == SlotIndex(c, o)
  {
    forall r | r in t.nodes
      ensures LeftBehind(r, Child(c, o), 0) <==> LeftBehind(r, c, o)
    {
      EnterNode(c, o, r);
    }
    EnterNode(c, o, c);
  }

  lemma WalkOn(t: Tree, now: set<Ref>, c: Ref, o: nat, log: seq<Ref>)
    requires Shape(t) && t.head.Inner? && Walk(t, now, c, o, log) && o < CHUNK && (c.level > 0 ==> Child(c, o) !in t.nodes)
    ensures Walk(t, now, c, o + 1, log) && SlotIndex(c, o) < SlotIndex(c, o + 1)
  {
    forall r | r in t.nodes
      ensures LeftBehind(r, c, o + 1) <==> LeftBehind(r, c, o)
    {
      PassSlot(t, c, o, r);
    }
    SlotsGrow(c, o, o + 1);
  }

  lemma WalkFree(t: Tree, now: set<Ref>, c: Ref, log: seq<Ref>)
    requires Shape(t) && t.head.Inner? && Walk(t, now, c, CHUNK, log)
    ensures NodeShape(t, c) && c in now && InOrder(t.nodes.Keys, log + [c])
    ensures forall r :: r in log + [c] <==> r in t.nodes && r !in now - {c}
    ensures c == t.head.ref ==> now == {c}
    ensures c != t.head.ref ==>
              && t.nodes[c].parent == Some(Up(c)) && Walk(t, now - {c}, Up(c), t.nodes[c].offset + 1, log + [c])
  {
    WalkHere(t, now, c, CHUNK, log);
    var more := log + [c];
    assert c !in log;
    assert more[..|more| - 1] == log;
    forall d | d in t.nodes && Up(d) == c
      ensures d in log
    {
      assert NodeShape(t, d) && d.level < c.level;
      ChildrenPassed(c, d.block % CHUNK);
      assert Child(c, d.block % CHUNK) == d;
    }
    if c == t.head.ref {
      forall r | r in now
        ensures r == c
      {
        LastOne(t, r);
      }
    } else {
      forall r | r in t.nodes
        ensures LeftBehind(r, Up(c), t.nodes[c].offset + 1) <==> LeftBehind(r, c, CHUNK) || r == c
      {
        LeaveNode(t, c, r);
      }
      LeaveNode(t, c, c);
    }
  }

  /** Freeing node c, at its end, and going up. */
  lemma WalkUp(t: Tree, now: set<Ref>, c: Ref, log: seq<Ref>) returns (left: set<Ref>, more: seq<Ref>)
    requires Shape(t) && t.head.Inner? && Walk(t, now, c, CHUNK, log)
    ensures NodeShape(t, c) && c in now && left == now - {c}
    ensures c == t.head.ref ==> left == {} && AllFreed(t, more)
    ensures c != t.head.ref ==>
              t.nodes[c].parent == Some(Up(c)) && Up(c).level > 0 && Walk(t, left, Up(c), t.nodes[c].offset + 1, more)
  {
    WalkFree(t, now, c, log);
    left, more := now - {c}, log + [c];
  }

  // ----- what the XArray's walk leaves in the freed memory

  /** Entries become retry markers; links to nodes stay, for walkers that still follow them. */
  function Cleared(e: Entry): Entry { if e.Empty? || e.Inner? then e else Retry }

  /** The first k slots cleared. */
  function ClearedTo(slots: seq<Entry>, k: nat): (s: seq<Entry>)
    ensures |s| == |slots| && forall o: nat :: o < |slots| ==> s[o] == if o < k then Cleared(slots[o]) else slots[o]
  {
    seq(|slots|, o requires 0 <= o < |slots| => if o < k then Cleared(slots[o]) else slots[o])
  }

  /** A node after it was freed. */
  function Buried(n: Node): Node {
    n.(slots := ClearedTo(n.slots, CHUNK), count := 0, nrValues := 0)
  }

  /** Memory during the walk: the freed nodes are buried, the node the walk is in has its slots up to
      offset cleared, and the others are as they were. */
  ghost predicate Digging(t: Tree, now: map<Ref, Node>, live: set<Ref>, c: Ref, offset: nat) {
    now.Keys == t.nodes.Keys &&
    forall r {:trigger now[r]} :: r in t.nodes ==> now[r] == DugNode(t.nodes[r], r in live, r == c, offset)
  }

  function DugNode(n: Node, live: bool, here: bool, offset: nat): Node {
    if !live then Buried(n) else if here then n.(slots := ClearedTo(n.slots, offset)) else n
  }

  /** Above the leaves there is nothing to clear, and in a node just entered nothing is cleared yet. */
  lemma NothingCleared(t: Tree, c: Ref, k: nat)
    requires Shape(t) && c in t.nodes && (c.level > 0 || k == 0)
    ensures t.nodes[c].(slots := ClearedTo(t.nodes[c].slots, k)) == t.nodes[c]
  {
    assert NodeShape(t, c);
    assert ClearedTo(t.nodes[c].slots, k) == t.nodes[c].slots;
  }

  lemma ClearNext(slots: seq<Entry>, k: nat)
    requires k < |slots|
    ensures ClearedTo(slots, k)[k] == slots[k]
    ensures ClearedTo(slots, k + 1) == ClearedTo(slots, k)[k := Cleared(slots[k])]
  {
  }

  lemma DigStart(t: Tree)
    requires Shape(t) && t.head.Inner?
    ensures Digging(t, t.nodes, t.nodes.Keys, t.head.ref, 0)
  {
    NothingCleared(t, t.head.ref, 0);
  }

  /** The walk moves to a place where nothing has been cleared. */
  lemma DigMove(t: Tree, now: map<Ref, Node>, live: set<Ref>, c: Ref, o: nat, d: Ref, p: nat)
    requires Shape(t) && Digging(t, now, live, c, o) && c in t.nodes && d in t.nodes
    requires c.level > 0 || c !in live
    requires d.level > 0 || p == 0
    ensures Digging(t, now, live, d, p)
  {
    if c.level > 0 { NothingCleared(t, c, o); }
    NothingCleared(t, d, p);
  }

  lemma DigNext(t: Tree, now: map<Ref, Node>, live: set<Ref>, c: Ref, o: nat)
    requires Shape(t) && Digging(t, now, live, c, o) && c in t.nodes && c in live && o < CHUNK
    ensures NodeShape(t, c) && |now[c].slots| == CHUNK && now[c].slots[o] == t.nodes[c].slots[o] && now[c].level == c.level
    ensures t.nodes[c].slots[o].Empty? ==> Digging(t, now, live, c, o + 1)
    ensures t.nodes[c].slots[o].Item?() ==>
              Digging(t, now[c := now[c].(slots := now[c].slots[o := Retry])], live, c, o + 1)
  {
    assert NodeShape(t, c);
    var slots := t.nodes[c].slots;
    ClearNext(slots, o);
    if slots[o].Empty? { assert ClearedTo(slots, o + 1) == ClearedTo(slots, o); }
  }

  /** Freeing the node the walk is in, at its end. */
  lemma DigFree(t: Tree, now: map<Ref, Node>, live: set<Ref>, c: Ref)
    requires Shape(t) && Digging(t, now, live, c, CHUNK) && c in t.nodes && c in live
    ensures NodeShape(t, c) && now[c].parent == t.nodes[c].parent && now[c].offset == t.nodes[c].offset
    ensures Digging(t, now[c := now[c].(count := 0, nrValues := 0)], live - {c}, c, CHUNK)
  {
    assert NodeShape(t, c);
  }
}
