/** Finding a set bit in a node's tag row.

    radix_tree_find_next_bit() is documented to return the next set bit, and takes the word
    apart with __ffs(). asm/bitsperlong.h defines __ffs(x) as fls64(x) - 1, which is the highest
    set bit. Both readings are modelled; `lowest` says which one __ffs() follows. */
module Bits {
  import opened Wrappers

  /** The lowest set bit at or after from, or |bits|. */
  function Lowest(bits: seq<bool>, from: nat): (r: nat)
    requires from <= |bits|
    ensures from <= r <= |bits|
    ensures r < |bits| ==> bits[r]
    ensures forall o: nat :: from <= o < r ==> !bits[o]
    decreases |bits| - from
  {
    if from == |bits| || bits[from] then from else Lowest(bits, from + 1)
  }

  /** The highest set bit at or after from, or |bits|. */
  function Highest(bits: seq<bool>, from: nat): (r: nat)
    requires from <= |bits|
    ensures from <= r <= |bits|
    ensures r < |bits| ==> bits[r]
    ensures forall o: nat :: from <= o < |bits| && bits[o] ==> o <= r < |bits|
    decreases |bits| - from
  {
    if from == |bits| then from
    else
      var h := Highest(bits, from + 1);
      if h < |bits| || !bits[from] then h else from
  }

  /** radix_tree_find_next_bit. An offset past the row finds nothing. */
  function NextBit(bits: seq<bool>, from: nat, lowest: bool): (r: nat)
    ensures r <= |bits|
    ensures r < |bits| ==> from <= r && bits[r]
    ensures r == |bits| ==> forall o: nat :: from <= o < |bits| ==> !bits[o]
    ensures lowest ==> forall o: nat :: from <= o < r ==> !bits[o]
  {
    if from > |bits| then |bits| else if lowest then Lowest(bits, from) else Highest(bits, from)
  }

  /** With __ffs() as written the documented next set bit comes out exactly when at most one bit is
      set at or after the offset. */
  lemma NextBitAsWritten(bits: seq<bool>, from: nat)
    ensures NextBit(bits, from, false) == NextBit(bits, from, true)
            <==> forall o: nat, p: nat :: from <= o < |bits| && from <= p < |bits| && bits[o] && bits[p] ==> o == p
  {
    var h, l := NextBit(bits, from, false), NextBit(bits, from, true);
    if h == l {
      forall o: nat, p: nat | from <= o < |bits| && from <= p < |bits| && bits[o] && bits[p]
        ensures o == p
      {
        assert o <= h && p <= h && !(o < l) && !(p < l);
      }
    }
  }

  /** With IDs 1 to 15 of a leaf free, the search after ID 0 comes back with 15, not with 1. */
  lemma NextBitExample()
    ensures var bits := seq(16, i => i > 0);
      NextBit(bits, 1, true) == 1 && NextBit(bits, 1, false) == 15
  {
    var bits := seq(16, i => i > 0);
    assert bits[1] && bits[15];
  }

  // ----- find_next_bit() of linux/bitops.h

  /** Some bit of the 32-bit word that bit b lies in is set. */
  predicate WordAny(mem: seq<bool>, b: nat) {
    exists o: nat :: b / 32 * 32 <= o < b / 32 * 32 + 32 && o < |mem| && mem[o]
  }

  /** The first set bit from b on, wherever it is; None if memory ends before there is one. */
  function Scan(mem: seq<bool>, b: nat): (r: Option<nat>)
    ensures r.Some? ==> b <= r.value < |mem| && mem[r.value] && forall o: nat :: b <= o < r.value ==> !mem[o]
    ensures r == None ==> forall o: nat :: b <= o < |mem| ==> !mem[o]
    decreases |mem| - b
  {
    if b >= |mem| then None else if mem[b] then Some(b) else Scan(mem, b + 1)
  }

  /** What find_next_bit() comes to as written: words are skipped from bit b in steps of 32, and the
      first one with any bit set is scanned from that bit on without an end. */
  ghost function AsWritten(mem: seq<bool>, max: nat, b: nat): Option<nat>
    decreases max - b
  {
    if b >= max then Some(max)
    else if WordAny(mem, b) then Scan(mem, b)
    else AsWritten(mem, max, b + 32)
  }

  /** find_next_bit. None: it reads past the end of mem. */
  method FindNextBit(mem: seq<bool>, max: nat, b0: nat) returns (r: Option<nat>)
    requires max <= |mem| && |mem| % 32 == 0
    ensures r == AsWritten(mem, max, b0)
  {
    var b := b0;
    while b < max
      invariant AsWritten(mem, max, b) == AsWritten(mem, max, b0)
      decreases max - b
    {
      var any := true in mem[b / 32 * 32..b / 32 * 32 + 32];
      AnyInWord(mem, b);
      if any {
        while b < |mem|
          invariant Scan(mem, b) == AsWritten(mem, max, b0)
        {
          if mem[b] { return Some(b); }
          b := b + 1;
        }
        return None;
      }
      b := b + 32;
    }
    return Some(max);
  }

  lemma AnyInWord(mem: seq<bool>, b: nat)
    requires b < |mem| && |mem| % 32 == 0
    ensures true in mem[b / 32 * 32..b / 32 * 32 + 32] <==> WordAny(mem, b)
  {
    var w := b / 32 * 32;
    if WordAny(mem, b) {
      var o: nat :| w <= o < w + 32 && o < |mem| && mem[o];
      assert mem[w..w + 32][o - w];
    }
    if true in mem[w..w + 32] {
      var k: nat :| k < 32 && mem[w..w + 32][k];
      assert mem[w + k];
    }
  }

  /** The search neither runs past the last set bit nor steps over one: the first word it does not skip
      has a bit set at or after where it stands, and between the start of a word and where the search
      enters it after a skip no bit is set. */
  ghost predicate Sound(bits: seq<bool>, b: nat)
    decreases |bits| - b
  {
    b >= |bits| ||
    if WordAny(bits, b) then exists o: nat :: b <= o < |bits| && bits[o]
    else
      && (forall o: nat :: b / 32 * 32 + 32 <= o < b + 32 && o < |bits| ==> !bits[o])
      && Sound(bits, b + 32)
  }

  /** On a bitmap of whole words, find_next_bit() as written gives the next set bit, or the size,
      exactly when it is sound. */
  lemma {:induction false} FindNextBitExact(bits: seq<bool>, b: nat)
    requires |bits| % 32 == 0
    ensures AsWritten(bits, |bits|, b) == Some(NextBit(bits, b, true)) <==> Sound(bits, b)
    decreases |bits| - b
  {
    if b < |bits| {
      var n := NextBit(bits, b, true);
      if WordAny(bits, b) {
        var s := Scan(bits, b);
        if s.Some? { assert bits[s.value] && !(s.value < n); }
      } else {
        FindNextBitExact(bits, b + 32);
        NoneInWord(bits, b);
        var m := NextBit(bits, b + 32, true);
        if forall o: nat :: b / 32 * 32 + 32 <= o < b + 32 && o < |bits| ==> !bits[o] {
          assert forall o: nat :: b <= o < b + 32 && o < |bits| ==> !bits[o];
          assert n == m;
        } else {
          var o: nat :| b / 32 * 32 + 32 <= o < b + 32 && o < |bits| && bits[o];
          assert n <= o;
          WrittenIsBeyond(bits, b + 32);
        }
      }
    }
  }

  lemma NoneInWord(bits: seq<bool>, b: nat)
    requires !WordAny(bits, b)
    ensures forall o: nat :: b <= o < b / 32 * 32 + 32 && o < |bits| ==> !bits[o]
  {
  }

  lemma {:induction false} WrittenIsBeyond(bits: seq<bool>, b: nat)
    ensures AsWritten(bits, |bits|, b).Some? ==> AsWritten(bits, |bits|, b).value >= b || AsWritten(bits, |bits|, b).value == |bits|
    decreases |bits| - b
  {
    if b < |bits| && !WordAny(bits, b) { WrittenIsBeyond(bits, b + 32); }
  }

  /** From the start of a word the search is sound. */
  lemma {:induction false} SoundFromWord(bits: seq<bool>, b: nat)
    requires |bits| % 32 == 0 && b % 32 == 0
    ensures Sound(bits, b)
    decreases |bits| - b
  {
    if b < |bits| {
      if WordAny(bits, b) {
        var o: nat :| b <= o < b + 32 && o < |bits| && bits[o];
      } else {
        SoundFromWord(bits, b + 32);
      }
    }
  }

  /** Memory in which the row of marks is a 64-bit word; what comes after the word is arbitrary. */
  ghost predicate RowMemory(mem: seq<bool>, row: seq<bool>) {
    |row| == 16 && |mem| >= 64 && |mem| % 32 == 0 && mem[..16] == row && forall o: nat :: 16 <= o < 64 ==> !mem[o]
  }

  /** find_next_bit() as written gives the next marked slot of the row, whatever comes after it. */
  ghost predicate WrittenInRow(row: seq<bool>, b: nat) {
    forall mem :: RowMemory(mem, row) ==> AsWritten(mem, 16, b) == Some(NextBit(row, b, true))
  }

  /** Some slot from b on is marked, or none at all. Past the row there is nothing to search. */
  predicate RowSound(row: seq<bool>, b: nat) {
    b >= |row| || (exists o: nat :: b <= o < |row| && row[o]) || (forall o: nat :: o < |row| ==> !row[o])
  }

  lemma WrittenExactly(row: seq<bool>, b: nat)
    requires |row| == 16 && b <= 16
    ensures WrittenInRow(row, b) <==> RowSound(row, b)
  {
    var mem := row + seq(48, _ => false);
    assert mem[..16] == row && RowMemory(mem, row);
    forall m | RowMemory(m, row)
      ensures AsWritten(m, 16, b) == Some(NextBit(row, b, true)) <==> RowSound(row, b)
    {
      assert forall o: nat :: o < 16 ==> m[o] == row[o];
      if b < 16 { FindNextInRow(m, b); }
    }
  }

  /** A row of 16 marks at the start of a 64-bit word: find_next_bit() as written gives the next marked
      slot, or 16, exactly when there is one, or when no slot of the row is marked at all. */
  lemma FindNextInRow(mem: seq<bool>, b: nat)
    requires |mem| >= 64 && |mem| % 32 == 0 && b < 16 && forall o: nat :: 16 <= o < 64 ==> !mem[o]
    ensures AsWritten(mem, 16, b) == Some(NextBit(mem[..16], b, true))
            <==> (exists o: nat :: b <= o < 16 && mem[o]) || (forall o: nat :: o < 16 ==> !mem[o])
  {
    var row := mem[..16];
    var n := NextBit(row, b, true);
    assert forall o: nat :: o < 16 ==> row[o] == mem[o];
    assert WordAny(mem, b) <==> exists o: nat :: o < 16 && mem[o] by {
      assert b / 32 == 0;
    }
    if WordAny(mem, b) {
      var s := Scan(mem, b);
      if exists o: nat :: b <= o < 16 && mem[o] {
        var o: nat :| b <= o < 16 && mem[o];
        assert row[o] && n <= o;
        assert s.Some? && s.value <= o;
        assert mem[s.value] && row[s.value];
        assert n == s.value;
      } else if s.Some? {
        assert s.value >= 64;
      }
    } else {
      assert AsWritten(mem, 16, b) == AsWritten(mem, 16, b + 32);
    }
  }
}
