/** xas_set_range() and the loop of xa_store_range() in lib/xarray.c: how a range of indices is cut into
    blocks that each fit in one node. Shifts are kept divided by XA_CHUNK_SHIFT. */
module XArrayRange {
  import opened Wrappers
  import opened Digits

  const MASK: nat := 15      // XA_CHUNK_MASK

  /** sibs + 1 slots of a node of the given level, from index first on. */
  datatype Chunk = Chunk(first: nat, level: nat, sibs: nat)
  {
    /** xas_size */
    function Size(): nat { (sibs + 1) * Pow(level) }
  }

  /** The block lies in the range, and in one node. */
  ghost predicate Fits(b: Chunk, last: nat) {
    && b.level < LEVELS
    && b.first + b.Size() - 1 <= last
    && Block(b.first, b.level) * Pow(b.level) == b.first
    && Digit(b.first, b.level) + b.sibs <= MASK
  }

  /** No larger block would do: the next level up has no slot that starts at first and fits, and one more
      slot would leave the node or the range. */
  ghost predicate Largest(b: Chunk, last: nat) {
    && (Digit(b.first, b.level) != 0 || b.first + Pow(b.level + 1) - 1 > last)
    && (Digit(b.first, b.level) + b.sibs == MASK || b.first + (b.sibs + 2) * Pow(b.level) - 1 > last)
  }

  /** The whole index space: its block is as large as a word, and no node has slots of that size. */
  predicate Whole(first0: nat, last: nat) { first0 == 0 && last == WORD - 1 }

  /** What the distance to last leaves over sibs slots. */
  function Rest(first0: nat, last: nat, shift: nat, sibs: nat): int { last - first0 - sibs * Pow(shift) }

  /** The loop of xas_set_range after some rounds: first is what is left of first0, a multiple of
      16^shift; sibs is the quotient of the distance; offset tells whether the remainder is as large as it
      can be. */
  ghost predicate Ranging(first0: nat, last: nat, shift: nat, first: nat, sibs: nat, offset: nat) {
    && first0 == first * Pow(shift) && first == Block(first0, shift)
    && 0 <= Rest(first0, last, shift, sibs) < Pow(shift)
    && offset <= MASK && (offset == MASK <==> Rest(first0, last, shift, sibs) == Pow(shift) - 1)
    && (shift > 0 && sibs == 0 ==> offset == MASK)
  }

  lemma RangeStep(first0: nat, last: nat, shift: nat, first: nat, sibs: nat, offset: nat)
    requires first0 <= last && Ranging(first0, last, shift, first, sibs, offset)
    requires first % CHUNK == 0 && sibs >= MASK && (sibs == MASK ==> offset == MASK)
    ensures Ranging(first0, last, shift + 1, first / CHUNK, sibs / CHUNK, if offset == MASK then sibs % CHUNK else offset)
  {
    var p, q, d := Pow(shift), sibs / CHUNK, sibs % CHUNK;
    assert sibs == q * CHUNK + d;
    assert sibs * p == q * (CHUNK * p) + d * p;
    assert first * p == first / CHUNK * (CHUNK * p);
    Remainder(d, Rest(first0, last, shift, sibs), p);
  }

  lemma Remainder(d: nat, rem: nat, p: nat)
    requires d < CHUNK && rem < p
    ensures d * p + rem < CHUNK * p
    ensures d * p + rem == CHUNK * p - 1 <==> d == MASK && rem == p - 1
  {
    if d < MASK {
      MulMono(d + 1, MASK, p);
      assert (d + 1) * p == d * p + p;
    }
  }

  /** The shift leaves the word only for the whole index space. */
  lemma ShiftInWord(first0: nat, last: nat, shift: nat, first: nat, sibs: nat, offset: nat)
    requires first0 <= last < WORD && shift <= LEVELS && Ranging(first0, last, shift, first, sibs, offset)
    requires sibs >= MASK && (sibs == MASK ==> offset == MASK)
    ensures shift < LEVELS && (shift == LEVELS - 1 ==> Whole(first0, last))
  {
    PowWord();
    if shift >= LEVELS - 1 {
      PowMono(LEVELS - 1, shift);
      var p := Pow(shift);
      MulMono(MASK, sibs, p);
      if sibs > MASK {
        MulMono(CHUNK, sibs, p);
      }
    }
  }

  /** For the whole index space the loop goes on until then. */
  lemma WholeGoesOn(shift: nat, first: nat, sibs: nat, offset: nat)
    requires shift <= LEVELS && Ranging(0, WORD - 1, shift, first, sibs, offset)
    ensures first == 0
    ensures if shift < LEVELS then sibs >= MASK && (sibs == MASK ==> offset == MASK) else sibs == 0
  {
    PowWord();
    var p := Pow(shift);
    PowSplit(shift, LEVELS);
    var k := Pow(LEVELS - shift);
    if sibs < k - 1 { MulMono(sibs + 1, k - 1, p); Distribute(sibs, 1, p); Distribute(k - 1, 1, p); }
    if sibs >= k { MulMono(k, sibs, p); }
    Distribute(k - 1, 1, p);
    assert sibs == k - 1;
    if first > 0 { MulMono(1, first, p); }
    if shift < LEVELS { PowMono(1, LEVELS - shift); }
  }

  /** The loop of xas_set_range. */
  method RangeLoop(first0: nat, last: nat) returns (shift: nat, first: nat, sibs: nat)
    requires first0 <= last < WORD
    ensures if Whole(first0, last) then shift == LEVELS && first == 0 && sibs == 0 else Ready(first0, last, shift, first, sibs)
  {
    var o: nat := MASK;
    shift, first, sibs := 0, first0, last - first0;
    while first % CHUNK == 0
      invariant Ranging(first0, last, shift, first, sibs, o)
      invariant shift <= LEVELS && (shift == LEVELS ==> Whole(first0, last))
      decreases LEVELS - shift
    {
      if sibs < MASK { break; }
      if sibs == MASK && o < MASK { break; }
      RangeStep(first0, last, shift, first, sibs, o);
      ShiftInWord(first0, last, shift, first, sibs, o);
      shift := shift + 1;
      if o == MASK { o := sibs % CHUNK; }
      sibs := sibs / CHUNK;
      first := first / CHUNK;
    }
    if Whole(first0, last) {
      WholeGoesOn(shift, first, sibs, o);
    } else {
      RangeEnds(first0, last, shift, first, sibs, o);
    }
  }

  /** What the loop has come to, cut to the node and then to the range, is the largest block that fits. */
  ghost predicate Ready(first0: nat, last: nat, shift: nat, first: nat, sibs: nat) {
    var o := first % CHUNK;
    var s := if o + sibs > MASK then MASK - o else sibs;
    if LastOf(first, s, shift) > last then
      s > 0 && Fits(Chunk(first0, shift, s - 1), last) && Largest(Chunk(first0, shift, s - 1), last)
    else Fits(Chunk(first0, shift, s), last) && Largest(Chunk(first0, shift, s), last)
  }

  /** xas_set_range. For the whole index space the shift comes to the width of a word. */
  method SetRange(first0: nat, last: nat) returns (b: Chunk)
    requires first0 <= last < WORD
    ensures if Whole(first0, last) then b == Chunk(0, LEVELS, 0)
            else b.first == first0 && Fits(b, last) && Largest(b, last)
  {
    var shift, first, sibs := RangeLoop(first0, last);
    var offset := first % CHUNK;
    if offset + sibs > MASK {
      sibs := MASK - offset;
    }
    PowWord();
    if LastOf(first, sibs, shift) > last {
      sibs := sibs - 1;
    }
    b := Chunk(first0, shift, sibs);
  }

  /** ((first + sibs + 1) << shift) - 1, in a word; nothing is left of 1 << 64. */
  function LastOf(first: nat, sibs: nat, shift: nat): nat { Minus1(((first + sibs + 1) * Pow(shift)) % WORD) }

  /** x - 1 in a word. */
  function Minus1(x: nat): nat
    requires x < WORD
  {
    if x == 0 then WORD - 1 else x - 1
  }

  /** What is left to do fits: the sibling count, cut to the node, is too large by at most one, and then
      it is not 0. */
  lemma RangeEnds(first0: nat, last: nat, shift: nat, first: nat, sibs: nat, offset: nat)
    requires first0 <= last < WORD && shift < LEVELS && Ranging(first0, last, shift, first, sibs, offset)
    requires first % CHUNK != 0 || sibs < MASK || (sibs == MASK && offset < MASK)
    ensures Ready(first0, last, shift, first, sibs)
  {
    HigherTooBig(first0, last, shift, first, sibs, offset);
    var o := first % CHUNK;
    var s := if o + sibs > MASK then MASK - o else sibs;
    LastOfExact(first0, last, shift, first, sibs, offset, s);
    if first0 + (s + 1) * Pow(shift) - 1 > last {
      if s < sibs { MulMono(s + 1, sibs, Pow(shift)); }
      MulMono(s, sibs, Pow(shift));
      ChunkFits(first0, last, shift, first, s - 1);
    } else {
      ChunkFits(first0, last, shift, first, s);
    }
  }

  /** The test after the loop, which wraps at the end of the word, compares what it means to. */
  lemma LastOfExact(first0: nat, last: nat, shift: nat, first: nat, sibs: nat, offset: nat, s: nat)
    requires first0 <= last < WORD && shift < LEVELS && Ranging(first0, last, shift, first, sibs, offset) && s <= sibs
    ensures LastOf(first, s, shift) > last <==> first0 + (s + 1) * Pow(shift) - 1 > last
  {
    SlotEnds(first, s, Pow(shift));
    MulMono(s, sibs, Pow(shift));
    Distribute(first, s, Pow(shift));
    EndInWord(shift, first, s, last);
    Wraps((first + s + 1) * Pow(shift), last);
  }

  lemma ChunkFits(first0: nat, last: nat, shift: nat, first: nat, s: nat)
    requires first0 == first * Pow(shift) && first == Block(first0, shift) && shift < LEVELS
    requires first % CHUNK + s <= MASK && first0 + (s + 1) * Pow(shift) - 1 <= last
    ensures Fits(Chunk(first0, shift, s), last)
  {
  }

  /** Where the loop stops, no slot of the next level starts at first and fits. */
  lemma HigherTooBig(first0: nat, last: nat, shift: nat, first: nat, sibs: nat, offset: nat)
    requires first0 <= last && Ranging(first0, last, shift, first, sibs, offset)
    requires first % CHUNK != 0 || sibs < MASK || (sibs == MASK && offset < MASK)
    ensures Digit(first0, shift) != 0 || first0 + Pow(shift + 1) - 1 > last
    ensures first0 + (sibs + 2) * Pow(shift) - 1 > last
  {
    var p := Pow(shift);
    SlotEnds(first, sibs + 1, p);
    SlotEnds(first, sibs, p);
    if first % CHUNK == 0 {
      MulMono(sibs, MASK, p);
      SlotEnds(first, MASK, p);
      if sibs < MASK { MulMono(sibs + 1, MASK, p); SlotEnds(first, sibs, p); }
    }
  }

  lemma SlotEnds(first: nat, s: nat, p: nat)
    ensures (first + s + 1) * p == first * p + (s + 1) * p == first * p + s * p + p
  {
  }

  lemma Wraps(e: nat, last: nat)
    requires 0 < e <= WORD && last < WORD
    ensures Minus1(e % WORD) > last <==> e - 1 > last
  {
    if e == WORD { assert e % WORD == 0; }
  }

  /** A block whose last slot starts in the word ends in the word. */
  lemma EndInWord(shift: nat, first: nat, s: nat, last: nat)
    requires (first + s) * Pow(shift) <= last < WORD && shift < LEVELS
    ensures 0 < (first + s + 1) * Pow(shift) <= WORD
  {
    PowWord();
    PowSplit(shift, LEVELS);
    var k := Pow(LEVELS - shift);
    if first + s >= k { MulMono(k, first + s, Pow(shift)); }
    MulMono(first + s + 1, k, Pow(shift));
    MulMono(1, first + s + 1, Pow(shift));
  }

  // ----- the loop of xa_store_range

  /** The blocks lie end to end from first to before next, all within last. */
  ghost predicate Run(blocks: seq<Chunk>, first: nat, next: nat, last: nat) {
    if blocks == [] then first == next
    else blocks[0].first == first && Fits(blocks[0], last) && Run(blocks[1..], first + blocks[0].Size(), next, last)
  }

  /** The blocks lie end to end, from first to last. */
  ghost predicate Tiles(blocks: seq<Chunk>, first: nat, last: nat) { Run(blocks, first, last + 1, last) }

  predicate Holds(b: Chunk, i: nat) { b.first <= i < b.first + b.Size() }

  /** So every index of the range lies in exactly one block, and no other index in any. */
  lemma {:induction false} TilesPartition(blocks: seq<Chunk>, first: nat, last: nat, i: nat)
    requires Tiles(blocks, first, last)
    ensures first <= i <= last <==> exists k: nat :: k < |blocks| && Holds(blocks[k], i)
    ensures forall j: nat, k: nat :: j < |blocks| && k < |blocks| && Holds(blocks[j], i) && Holds(blocks[k], i) ==> j == k
  {
    if blocks != [] {
      var b, rest := blocks[0], blocks[1..];
      TilesPartition(rest, first + b.Size(), last, i);
      assert forall k: nat :: k < |rest| ==> rest[k] == blocks[k + 1];
      if Holds(b, i) {
        assert Holds(blocks[0], i);
      } else if first <= i <= last {
        var k: nat :| k < |rest| && Holds(rest[k], i);
        assert Holds(blocks[k + 1], i);
      }
      if k: nat :| k < |blocks| && Holds(blocks[k], i) {
        if k > 0 { assert Holds(rest[k - 1], i); }
      }
      forall j: nat, k: nat | j < |blocks| && k < |blocks| && Holds(blocks[j], i) && Holds(blocks[k], i)
        ensures j == k
      {
        if j > 0 { assert Holds(rest[j - 1], i); }
        if k > 0 { assert Holds(rest[k - 1], i); }
      }
    }
  }

  lemma {:induction false} RunAppend(blocks: seq<Chunk>, first: nat, b: Chunk, last: nat)
    requires Run(blocks, first, b.first, last) && Fits(b, last)
    ensures Run(blocks + [b], first, b.first + b.Size(), last)
  {
    if blocks != [] {
      assert (blocks + [b])[1..] == blocks[1..] + [b];
      RunAppend(blocks[1..], first + blocks[0].Size(), b, last);
    } else {
      assert (blocks + [b])[1..] == [];
    }
  }

  /** xa_store_range, less the stores: the blocks it stores to until it has come to last. None is -EINVAL;
      ends is whether the test at the end of its loop holds then. */
  method StoreRange(first0: nat, last: nat) returns (blocks: Option<seq<Chunk>>, ends: bool)
    requires first0 < WORD && last < WORD
    ensures blocks == None <==> last < first0
    ensures blocks.Some? && !Whole(first0, last) ==> blocks.value != [] && Tiles(blocks.value, first0, last)
    ensures Whole(first0, last) ==> blocks == Some([Chunk(0, LEVELS, 0)])
    ensures ends <==> last < first0 || last < WORD - 1
  {
    if last < first0 { return None, true; }
    var done := [];
    var first := first0;
    if Whole(first0, last) {
      PowWord();
      var b := SetRange(first, last);
      EndsBelowMaximum(b, last);
      return Some([b]), Next(b) > last;
    }
    while true
      invariant first0 <= first <= last && !Whole(first, last) && Run(done, first0, first, last)
      decreases last - first
    {
      var b := SetRange(first, last);
      RunAppend(done, first0, b, last);
      BlockEnds(b, last);
      done := done + [b];
      var next := Next(b);
      if next > last || next == 0 {
        EndsBelowMaximum(b, last);
        return Some(done), next > last;
      }
      first := next;
    }
  }

  /** first += xas_size(), in a word. */
  function Next(b: Chunk): nat { (b.first + b.Size()) % WORD }

  /** After a block comes an index past it, or 0 where the word ends. */
  lemma BlockEnds(b: Chunk, last: nat)
    requires last < WORD && Fits(b, last)
    ensures b.first < b.first + b.Size() <= last + 1
    ensures Next(b) == if b.first + b.Size() == WORD then 0 else b.first + b.Size()
    ensures (Next(b) > last || Next(b) == 0) <==> b.first + b.Size() == last + 1
  {
    MulMono(1, b.sibs + 1, Pow(b.level));
  }

  /** The test that ends the loop comes out true after the last block exactly when last is below the
      maximum word. With the maximum word the index wraps to 0 and the loop goes on for ever. */
  lemma EndsBelowMaximum(b: Chunk, last: nat)
    requires last < WORD && b.first + b.Size() == last + 1
    ensures Next(b) > last <==> last < WORD - 1
    ensures last == WORD - 1 ==> Next(b) == 0
  {
  }
}
