/**
 The buddy allocator: block headers in the arena, read at computed offsets and changed in
 place by the split and merge loops.
 */
module Buddies {
  import opened Dyadic
  import opened BuddyBlocks
  import opened FitModes

  // occupied_block_metadata_size: the header byte and the pointer to the trusted memory.
  const USED_HEADER := 9
  // What an allocation adds to the request: sizeof(occupied_block_metadata_size), a size_t.
  const ADDED := 8

  /** The bytes at one offset, read as a block header followed by the owner's address. */
  datatype Header = Header(occupied: bool, sizeK: nat, owner: int)

  predicate HeaderOf(h: Header, b: Block, id: int) {
    h.occupied == b.used && h.sizeK == b.sizeK && (b.used ==> h.owner == id)
  }

  predicate Fits(b: Block, need: nat) {
    !b.used && Bytes(b) >= need
  }

  /** What the fit mode asks of the block it returns. */
  ghost predicate Chosen(blocks: seq<Block>, b: Block, need: nat, mode: FitMode) {
    && b in blocks && Fits(b, need)
    && forall x :: x in blocks && Fits(x, need) ==>
         match mode
         case FirstFit => b.off <= x.off
         case BestFit => Bytes(b) < Bytes(x) || (Bytes(b) == Bytes(x) && b.off <= x.off)
         case WorstFit => x.off <= b.off
  }

  ghost predicate NoneFits(blocks: seq<Block>, need: nat) {
    forall x :: x in blocks ==> !Fits(x, need)
  }

  /** size >> i. */
  function ShiftRight(size: nat, i: nat): nat {
    if i == 0 then size else ShiftRight(size / 2, i - 1)
  }

  lemma {:induction false} ShiftStep(size: nat, i: nat)
    ensures ShiftRight(size, i + 1) == ShiftRight(size, i) / 2
  {
    if i > 0 { ShiftStep(size / 2, i - 1); }
  }

  lemma {:induction false} ShiftOut(size: nat, i: nat)
    requires size < Pow2(i)
    ensures ShiftRight(size, i) == 0
  {
    if i > 0 { ShiftOut(size / 2, i - 1); }
  }

  /**
   The exponent of the smallest power of two that is at least a size of so many bits. For zero,
   the -1 comes back as the largest number of that many bits.
   */
  method NearestGreaterK(size: nat, bits: nat) returns (k: nat)
    requires size < Pow2(bits)
    ensures size == 0 ==> k == Pow2(bits) - 1
    ensures size > 0 ==> k <= bits && size <= Pow2(k) && (k > 0 ==> Pow2(k - 1) < size)
  {
    hide Pow2, ShiftRight, Leading;
    var ones, index := 0, -1;
    ShiftOut(size, bits);
    var i := bits - 1;
    while i >= 0
      invariant -1 <= i < bits && -1 <= index < bits
      invariant ones == 0 ==> index == -1 && ShiftRight(size, i + 1) == 0
      invariant ones > 0 ==> i < index && Leading(ShiftRight(size, i + 1), index - i - 1, ones)
    {
      ShiftStep(size, i);
      if ShiftRight(size, i) % 2 == 1 {
        if ones == 0 {
          index := i;
          LeadingOne();
        } else {
          LeadingStep(ShiftRight(size, i), index - i, ones, 1);
        }
        ones := ones + 1;
      } else if ones > 0 {
        LeadingStep(ShiftRight(size, i), index - i, ones, 0);
      }
      i := i - 1;
    }
    ShiftNone(size);
    if ones > 0 { LeadingBit(size, index, ones); }
    var result := if ones <= 1 then index else index + 1;
    k := if result < 0 then result + Pow2(bits) else result;
  }

  ghost predicate IsPow2(size: nat) {
    exists e: nat :: size == Pow2(e)
  }

  /** How the least power of two compares with the size it was taken for, and with sixteen. */
  lemma Claimed(size: nat, k: nat, bits: nat)
    requires bits >= 3 && (size == 0 ==> k == Pow2(bits) - 1)
    requires size > 0 ==> size <= Pow2(k) && (k > 0 ==> Pow2(k - 1) < size)
    ensures k < MIN_K <==> 0 < size <= 8
    ensures Pow2(k) >= size && (Pow2(k) == size <==> IsPow2(size))
    ensures size > 0 ==> Pow2(k) < 2 * size || Pow2(k) == 1
  {
    assert Pow2(3) == 8;
    Pow2Monotone(3, bits);
    if size > 0 {
      if k < MIN_K { Pow2Monotone(k, 3); } else { Pow2Monotone(3, k - 1); }
      if e: nat :| size == Pow2(e) {
        if e < k { Pow2Monotone(e, k - 1); }
        if k < e { Pow2Monotone(k, e); }
      }
    }
  }

  /** The leading bit of s is bit e, and exactly one bit is set when ones is 1. */
  predicate Leading(s: nat, e: nat, ones: nat) {
    Pow2(e) <= s < 2 * Pow2(e) && (ones == 1 <==> s == Pow2(e))
  }

  lemma LeadingBit(size: nat, e: nat, ones: nat)
    requires ones > 0 && Leading(size, e, ones)
    ensures size > 0 && Pow2(e) <= size < Pow2(e + 1) && (ones == 1 <==> size == Pow2(e))
    ensures e > 0 ==> Pow2(e - 1) < Pow2(e)
  {
  }

  lemma LeadingOne()
    ensures Leading(1, 0, 1)
  {
  }

  lemma ShiftNone(size: nat)
    ensures ShiftRight(size, 0) == size
  {
  }

  lemma LeadingStep(s: nat, e: nat, ones: nat, bit: nat)
    requires e > 0 && ones > 0 && Leading(s / 2, e - 1, ones) && s % 2 == bit
    ensures Leading(s, e, ones + bit)
  {
  }

  /** The smallest block size, 2^MIN_K or more, that holds need bytes. */
  ghost predicate LeastBlock(b: Block, need: nat) {
    Bytes(b) >= need && (b.sizeK == 0 || Bytes(b) < 2 * need)
  }

  ghost predicate Headers(cells: seq<Header>, blocks: seq<Block>, id: int) {
    forall b :: b in blocks ==> b.off < |cells| && HeaderOf(cells[b.off], b, id)
  }

  /** Writing inside a stretch of blocks leaves the headers of the others alone. */
  lemma Rewritten(before: seq<Header>, after: seq<Header>, pre: seq<Block>, old': seq<Block>, mid: seq<Block>,
          post: seq<Block>,
        k: nat, at: nat, end: nat, id: int)
    requires |before| == |after| && Layout(pre + (old' + post), k) && Headers(before, pre + (old' + post), id)
    requires old' != [] && Tiles(old', at, end) && Headers(after, mid, id)
    requires forall i :: 0 <= i < |after| && !(at <= i < end) ==> after[i] == before[i]
    ensures Headers(after, pre + (mid + post), id)
  {
    hide Tiles, Pow2;
    forall x | x in pre + (mid + post)
      ensures x.off < |after| && HeaderOf(after[x.off], x, id)
    {
      if x !in mid {
        assert x in pre + (old' + post);
        Outside(pre, old', post, k, at, end, x);
        if x in pre { assert x.off < Limit(x) <= at; }
      }
    }
  }

  /** Every byte of every occupied block is as it was. */
  ghost predicate PayloadKept(blocks: seq<Block>, before: seq<Header>, after: seq<Header>) {
    |before| == |after| &&
    forall x, i {:trigger x in UsedBlocks(blocks), after[i]} ::
      x in UsedBlocks(blocks) && x.off <= i < Limit(x) && i < |after| ==> after[i] == before[i]
  }

  /** Writing the header of a free block touches no occupied one. */
  lemma KeptBesides(was: seq<Block>, blocks: seq<Block>, k: nat, at: nat, start: seq<Header>, before: seq<Header>,
          after: seq<Header>)
    requires Layout(was, k) && (exists lo :: lo in was && !lo.used && lo.off == at) && UsedBlocks(blocks) == UsedBlocks(was) && PayloadKept(was, start, before)
    requires |before| == |after| && forall i :: 0 <= i < |after| && i != at ==> after[i] == before[i]
    ensures PayloadKept(blocks, start, after)
  {
    hide Tiles, Pow2;
    var lo :| lo in was && !lo.used && lo.off == at;
    forall x, i {:trigger x in UsedBlocks(blocks), after[i]} | x in UsedBlocks(blocks) && x.off <= i < Limit(x) && i < |after|
      ensures after[i] == start[i]
    {
      assert x in UsedBlocks(was) && x in was;
      Apart(was, 0, Pow2(k), x, lo);
      assert before[i] == start[i];
    }
  }

  lemma SameSize(x: Block, y: Block)
    requires Bytes(x) == Bytes(y)
    ensures x.sizeK == y.sizeK
  {
    if x.sizeK < y.sizeK { Pow2Monotone(LogBytes(x), LogBytes(y)); }
    if y.sizeK < x.sizeK { Pow2Monotone(LogBytes(y), LogBytes(x)); }
  }

  lemma FreePairOrdered(blocks: seq<Block>, k: nat, x: Block, y: Block)
    requires Layout(blocks, k) && x in blocks && y in blocks && FreePair(x, y)
    ensures FreePair(y, x) && x.off != y.off
    ensures x.off < y.off ==> y.off == Limit(x)
    ensures y.off < x.off ==> x.off == Limit(y)
  {
    hide Xor, Aligned;
    FreePairSymmetric(x, y);
    BuddyOffset(x.off, LogBytes(x));
  }

  /**
   The bytes behind the nine-byte header hold the request unless the request and its eight
   added bytes fill a block size exactly.
   */
  lemma UsableBytes(b: Block, size: nat)
    requires LeastBlock(b, size + ADDED)
    ensures Bytes(b) - USED_HEADER >= size <==> !IsBlockSize(size + ADDED)
  {
    if IsBlockSize(size + ADDED) {
      var k: nat :| IsBlockSizeAt(size + ADDED, k);
      if k < LogBytes(b) { Pow2Monotone(k, LogBytes(b)); }
      if LogBytes(b) < k { Pow2Monotone(LogBytes(b), k); }
      if LogBytes(b) < k || (k < LogBytes(b) && b.sizeK == 0) { assert false; }
      assert Pow2(k) <= Bytes(b) && size + ADDED == Pow2(k);
      assert Bytes(b) == Pow2(k);
    } else {
      assert !IsBlockSizeAt(size + ADDED, LogBytes(b));
    }
  }

  /** A request of eight bytes gets a block of sixteen, which has seven behind its header. */
  lemma EightBytes(b: Block)
    requires LeastBlock(b, 8 + ADDED)
    ensures IsBlockSize(8 + ADDED) && Bytes(b) == 16 && Bytes(b) - USED_HEADER < 8
  {
    assert IsBlockSizeAt(16, 4);
    UsableBytes(b, 8);
    if LogBytes(b) > 4 { Pow2Monotone(5, LogBytes(b)); }
  }

  lemma SmallSizes()
    ensures Pow2(4) == 16 && Pow2(5) == 32 && Pow2(6) == 64
    ensures Aligned(0, 5) && Aligned(32, 4) && Aligned(48, 4)
  {
    AlignedZero(5);
  }

  lemma SmallBuddies()
    ensures Xor(0, 32) != 0 && Xor(48, 16) != 48
  {
    hide Pow2, Aligned, Xor;
    SmallSizes();
    BuddyOffset(0, 5);
    BuddyOffset(48, 4);
  }

  /** A heap of 64 bytes: its worst fit for sixteen is the last block, though the first is twice as large. */
  lemma WorstFitNotLargest() returns (blocks: seq<Block>, first: Block, last: Block)
    ensures Layout(blocks, 6) && Coalesced(blocks)
    ensures Chosen(blocks, last, 16, WorstFit) && first in blocks && Fits(first, 16) && Bytes(first) == 2 * Bytes(last)
  {
    hide Pow2, Aligned, Xor;
    SmallSizes();
    SmallBuddies();
    var b := Block(32, 0, true);
    first, last := Block(0, 1, false), Block(48, 0, false);
    blocks := [first, b, last];
    assert blocks[1..] == [b, last] && [b, last][1..] == [last] && [last][1..] == [];
    assert Bytes(first) == 32 && Bytes(b) == 16 && Bytes(last) == 16;
    assert Tiles([last], 48, 64) && Tiles([b, last], 32, 64);
  }

  predicate IsBlockSizeAt(n: nat, k: nat) {
    k >= MIN_K && n == Pow2(k)
  }

  ghost predicate IsBlockSize(n: nat) {
    exists k: nat :: IsBlockSizeAt(n, k)
  }

  /** What the callers hold. */
  ghost function Pointers(blocks: seq<Block>): set<nat> {
    set b | b in UsedBlocks(blocks) :: b.off + USED_HEADER
  }

  lemma NothingHeld(blocks: seq<Block>)
    ensures Pointers(blocks) == {} ==> UsedBlocks(blocks) == {}
  {
    if x :| x in UsedBlocks(blocks) { assert x.off + USED_HEADER in Pointers(blocks); }
  }

  class BuddyHeap {
    const cells: array<Header>
    const arenaK: nat
    const id: int
    ghost var blocks: seq<Block>

    ghost predicate Written()
      reads this, cells
    {
      Headers(cells[..], blocks, id)
    }

    ghost predicate Shaped()
      reads this, cells
    {
      cells.Length == Pow2(arenaK) && Layout(blocks, arenaK) && Written()
    }

    /**
     The headers found by walking from the start of the arena tile it, every block aligned to
     its size, and no two free buddies of equal size are left.
     */
    ghost predicate Valid()
      reads this, cells
    {
      Shaped() && Coalesced(blocks)
    }

    constructor (k: nat, trusted: int)
      requires k >= MIN_K
      ensures Valid() && fresh(cells) && arenaK == k && id == trusted
      ensures blocks == [Block(0, k - MIN_K, false)]
    {
      arenaK := k;
      id := trusted;
      cells := new Header[Pow2(k)](_ => Header(false, 0, 0));
      blocks := [Block(0, k - MIN_K, false)];
      new;
      cells[0] := cells[0].(occupied := false, sizeK := k - MIN_K);
      AlignedZero(k);
      SingleTiles(blocks[0]);
      BuddyOffset(0, k);
    }

    /**
     The constructor's check: one to eight bytes are refused. The cells are the arena the heap
     claims to have; it is what was allocated exactly for a power of two. Zero bytes pass too.
     */
    static method Create(space: nat, bits: nat, trusted: int) returns (heap: BuddyHeap?)
      requires space < Pow2(bits) && bits >= 3
      ensures heap == null <==> 0 < space <= 8
      ensures heap != null ==> fresh(heap) && fresh(heap.cells) && heap.Valid() && UsedBlocks(heap.blocks) == {}
      ensures heap != null ==> heap.cells.Length >= space && (heap.cells.Length == space <==> IsPow2(space))
      ensures heap != null && space > 0 ==> heap.cells.Length < 2 * space
    {
      var k := NearestGreaterK(space, bits);
      Claimed(space, k, bits);
      if k < MIN_K {
        return null;
      }
      heap := new BuddyHeap(k, trusted);
    }

    // ----- the iterator -----

    /** A walk position: the blocks from here to the end of the arena. */
    ghost predicate AtPosition(it: nat, rest: seq<Block>)
      reads this, cells
    {
      Shaped() && Tiles(rest, it, cells.Length) && (forall b :: b in rest ==> b in blocks)
    }

    /** Reading the header at a position before the end. */
    lemma HeaderHere(it: nat, rest: seq<Block>)
      requires AtPosition(it, rest) && it != cells.Length
      ensures rest != [] && rest[0] in blocks && rest[0].off == it < cells.Length
      ensures HeaderOf(cells[it], rest[0], id)
      ensures AtPosition(Limit(rest[0]), rest[1..])
    {
    }

    method GetBlocksInfo() returns (info: seq<(nat, bool)>)
      requires Valid()
      ensures |info| == |blocks| && forall i :: 0 <= i < |blocks| ==> info[i] == (Bytes(blocks[i]), blocks[i].used)
    {
      info := [];
      var it: nat := 0;
      ghost var rest := blocks;
      while it != cells.Length
        invariant AtPosition(it, rest) && |info| + |rest| == |blocks| && rest == blocks[|info|..]
        invariant forall i :: 0 <= i < |info| ==> info[i] == (Bytes(blocks[i]), blocks[i].used)
        decreases |rest|
      {
        HeaderHere(it, rest);
        var size := Pow2(cells[it].sizeK + MIN_K);
        info := info + [(size, cells[it].occupied)];
        it := it + size;
        rest := rest[1..];
      }
      Finished(rest, it);
    }

    method AvailableMemory() returns (available: nat)
      requires Valid()
      ensures available == FreeBytes(blocks)
      ensures available + HeldBytes(UsedBlocks(blocks)) == cells.Length
    {
      BytesAddUp(blocks, 0, cells.Length);
      available := 0;
      var it: nat := 0;
      ghost var rest := blocks;
      while it != cells.Length
        invariant AtPosition(it, rest) && available + FreeBytes(rest) == FreeBytes(blocks)
        decreases |rest|
      {
        HeaderHere(it, rest);
        var size := Pow2(cells[it].sizeK + MIN_K);
        if !cells[it].occupied { available := available + size; }
        it := it + size;
        rest := rest[1..];
      }
      Finished(rest, it);
    }

    method GetBlockFirstFit(need: nat) returns (at: int)
      requires Valid()
      ensures at == -1 ==> NoneFits(blocks, need)
      ensures at != -1 ==> exists b :: Chosen(blocks, b, need, FirstFit) && b.off == at
    {
      hide Pow2, Chosen, NoneFits, Tiles, AllAligned, Coalesced, Before;
      EmptyWalk(need);
      var it: nat := 0;
      ghost var rest, seen := blocks, [];
      while it != cells.Length
        invariant AtPosition(it, rest) && blocks == seen + rest && Before(seen, it) && NoneFits(seen, need)
        decreases |rest|
      {
        HeaderHere(it, rest);
        var size := Pow2(cells[it].sizeK + MIN_K);
        Consider(seen, rest[0], false, rest[0], need, FirstFit);
        if !cells[it].occupied && size >= need {
          FirstOfRest(seen, rest, it, cells.Length, need);
          return it;
        }
        seen := seen + [rest[0]];
        it := it + size;
        rest := rest[1..];
      }
      Finished(rest, it);
      assert seen == blocks;
      return -1;
    }

    method GetBlockBestFit(need: nat) returns (at: int)
      requires Valid()
      ensures at == -1 ==> NoneFits(blocks, need)
      ensures at != -1 ==> exists b :: Chosen(blocks, b, need, BestFit) && b.off == at
    {
      hide Pow2, Chosen, NoneFits, Tiles, AllAligned, Coalesced, Before;
      EmptyWalk(need);
      at := -1;
      var it: nat := 0;
      ghost var rest, seen, b := blocks, [], Block(0, 0, true);
      while it != cells.Length
        invariant AtPosition(it, rest) && blocks == seen + rest && Before(seen, it)
        invariant at == -1 ==> NoneFits(seen, need)
        invariant at != -1 ==> b in blocks && Chosen(seen, b, need, BestFit) && b.off == at
        decreases |rest|
      {
        HeaderHere(it, rest);
        var size := Pow2(cells[it].sizeK + MIN_K);
        Consider(seen, b, at != -1, rest[0], need, BestFit);
        if at != -1 { assert HeaderOf(cells[at], b, id); }
        if !cells[it].occupied && size >= need && (at == -1 || size < Pow2(cells[at].sizeK + MIN_K)) {
          at, b := it, rest[0];
        }
        seen := seen + [rest[0]];
        it := it + size;
        rest := rest[1..];
      }
      Finished(rest, it);
      assert seen == blocks;
    }

    /** The last fitting block, whatever its size. */
    method GetBlockWorstFit(need: nat) returns (at: int)
      requires Valid()
      ensures at == -1 ==> NoneFits(blocks, need)
      ensures at != -1 ==> exists b :: Chosen(blocks, b, need, WorstFit) && b.off == at
    {
      hide Pow2, Chosen, NoneFits, Tiles, AllAligned, Coalesced, Before;
      EmptyWalk(need);
      at := -1;
      var it: nat := 0;
      ghost var rest, seen, b := blocks, [], Block(0, 0, true);
      while it != cells.Length
        invariant AtPosition(it, rest) && blocks == seen + rest && Before(seen, it)
        invariant at == -1 ==> NoneFits(seen, need)
        invariant at != -1 ==> b in blocks && Chosen(seen, b, need, WorstFit) && b.off == at
        decreases |rest|
      {
        HeaderHere(it, rest);
        var size := Pow2(cells[it].sizeK + MIN_K);
        Consider(seen, b, at != -1, rest[0], need, WorstFit);
        if !cells[it].occupied && size >= need { at, b := it, rest[0]; }
        seen := seen + [rest[0]];
        it := it + size;
        rest := rest[1..];
      }
      Finished(rest, it);
      assert seen == blocks;
    }

    // ----- allocation and release -----

    /** The buddy's address: the offset with one bit flipped, the bit of the block's size. */
    function GetBuddy(at: nat): nat
      requires at < cells.Length
      reads cells
    {
      Xor(at, Pow2(cells[at].sizeK + MIN_K))
    }

    /** The header read at the buddy's address is that of a live block, no larger than this one. */
    lemma BuddyHeaderIsReal(b: Block) returns (y: Block)
      requires Shaped() && b in blocks && b.off < cells.Length && Bytes(b) < cells.Length
      ensures y in blocks && y.off == GetBuddy(b.off) < cells.Length
      ensures HeaderOf(cells[GetBuddy(b.off)], y, id) && y.sizeK <= b.sizeK && y != b
    {
      y := BuddyIsLive(blocks, arenaK, b);
    }

    /** Halving the chosen block while half of it still holds the request. */
    method SplitLoop(at: nat, need: nat, ghost b: Block) returns (ghost cur: Block)
      requires Valid() && b in blocks && b.off == at && Fits(b, need)
      modifies this`blocks, cells
      ensures Shaped() && CoalescedExcept(blocks, cur) && UsedBlocks(blocks) == old(UsedBlocks(blocks))
      ensures cur in blocks && !cur.used && cur.off == at && LeastBlock(cur, need) && Limit(cur) <= Limit(b)
      ensures forall i :: 0 <= i < cells.Length && !(at <= i < Limit(b)) ==> cells[i] == old(cells[i])
    {
      hide Tiles, Xor, Aligned, UsedBlocks;
      ghost var pre, post := SplitAt(blocks, b);
      cur := b;
      InBounds(blocks, 0, cells.Length, b);
      while cells[at].sizeK > 0 && Pow2(cells[at].sizeK + MIN_K) >= need * 2
        invariant Shaped() && CoalescedExcept(blocks, cur) && UsedBlocks(blocks) == old(UsedBlocks(blocks))
        invariant blocks == pre + ([cur] + post) && cur in blocks && cur.off == at && Fits(cur, need)
        invariant Limit(cur) <= Limit(b) <= cells.Length
        invariant forall i :: 0 <= i < cells.Length && !(at <= i < Limit(b)) ==> cells[i] == old(cells[i])
        decreases cur.sizeK
      {
        ghost var lo, hi := LowerHalf(cur), UpperHalf(cur);
        SplitStep(pre, cur, post, arenaK);
        SplitTiles(cur);
        SingleTiles(cur);
        ghost var before := cells[..];
        cells[at] := cells[at].(sizeK := cells[at].sizeK - 1);
        var buddy := GetBuddy(at);
        assert buddy == hi.off;
        cells[buddy] := cells[buddy].(occupied := false, sizeK := cells[at].sizeK);
        assert HeaderOf(cells[..][lo.off], lo, id) && HeaderOf(cells[..][hi.off], hi, id);
        Rewritten(before, cells[..], pre, [cur], [lo, hi], post, arenaK, at, Limit(cur), id);
        blocks := pre + ([lo, hi] + post);
        assert [lo, hi] + post == [lo] + ([hi] + post);
        cur, post := lo, [hi] + post;
      }
    }

    /** Setting the occupied bit and storing the trusted memory's address behind the header. */
    method Occupy(at: nat, ghost cur: Block) returns (ghost b: Block)
      requires Shaped() && cur in blocks && cur.off == at && !cur.used && CoalescedExcept(blocks, cur)
      modifies this`blocks, cells
      ensures Valid() && b == cur.(used := true) && UsedBlocks(blocks) == old(UsedBlocks(blocks)) + {b}
      ensures forall i :: 0 <= i < cells.Length && i != at ==> cells[i] == old(cells[i])
    {
      hide Tiles, Xor, Aligned, Pow2, UsedBlocks;
      ghost var pre, post := SplitAt(blocks, cur);
      Marked(pre, cur, post, arenaK);
      b := cur.(used := true);
      ghost var before := cells[..];
      cells[at] := cells[at].(occupied := true);
      cells[at] := cells[at].(owner := id);
      SingleTiles(cur);
      assert HeaderOf(cells[..][at], b, id);
      Rewritten(before, cells[..], pre, [cur], [b], post, arenaK, at, Limit(cur), id);
      blocks := pre + ([b] + post);
    }

    /**
     The block returned starts nine bytes before the pointer and is the least block size that
     holds the request and eight bytes; everything occupied before stays, header and payload.
     */
    method Allocate(size: nat, mode: FitMode) returns (at: int, ghost b: Block)
      requires Valid()
      modifies this`blocks, cells
      ensures Valid()
      ensures at == -1 <==> forall x :: x in old(blocks) && !x.used ==> Bytes(x) < size + 8
      ensures at == -1 ==> blocks == old(blocks) && cells[..] == old(cells[..])
      ensures at != -1 ==> at == b.off + 9 && b.used && LeastBlock(b, size + 8)
      ensures at != -1 ==> b !in old(UsedBlocks(blocks)) && UsedBlocks(blocks) == old(UsedBlocks(blocks)) + {b}
      ensures at != -1 ==> exists hole :: Chosen(old(blocks), hole, size + ADDED, mode) && hole.off == b.off && Limit(b) <= Limit(hole)
      ensures forall x, i {:trigger x in old(UsedBlocks(blocks)), cells[i]} ::
                x in old(UsedBlocks(blocks)) && x.off <= i < Limit(x) && i < cells.Length ==> cells[i] == old(cells[i])
    {
      hide Tiles, Xor, Aligned, Pow2;
      var need := size + ADDED;
      b := Block(0, 0, true);
      var block: int;
      match mode {
        case FirstFit => block := GetBlockFirstFit(need);
        case BestFit => block := GetBlockBestFit(need);
        case WorstFit => block := GetBlockWorstFit(need);
      }
      if block == -1 { return -1, b; }
      ghost var hole :| Chosen(blocks, hole, need, mode) && hole.off == block;
      ghost var cur := SplitLoop(block, need, hole);
      b := Occupy(block, cur);
      forall x, i {:trigger x in old(UsedBlocks(blocks)), cells[i]} | x in old(UsedBlocks(blocks)) && x.off <= i < Limit(x) && i < cells.Length
        ensures cells[i] == old(cells[i])
      {
        Apart(old(blocks), 0, cells.Length, x, hole);
      }
      at := block + USED_HEADER;
    }

    /**
     The first allocation of a new arena of 2^k bytes, all of which are free before it: granted
     exactly if the bytes asked for and eight more are there, nine bytes behind the start.
     */
    static method FirstAllocation(k: nat, size: nat, mode: FitMode, trusted: int)
      returns (heap: BuddyHeap, before: nat, at: int, after: nat)
      requires k >= 4
      ensures fresh(heap) && heap.Valid() && before == Pow2(k)
      ensures at == if size + 8 <= Pow2(k) then 9 else -1
      ensures at == -1 ==> after == before
      ensures at != -1 ==> after + 16 <= before && before - after >= size + 8
                           && (before - after == 16 || before - after < 2 * (size + 8))
    {
      heap := new BuddyHeap(k, trusted);
      before := heap.AvailableMemory();
      ghost var whole := Block(0, k - MIN_K, false);
      assert heap.blocks == [whole] && UsedBlocks(heap.blocks) == {};
      ghost var b;
      at, b := heap.Allocate(size, mode);
      after := heap.AvailableMemory();
      if at != -1 {
        OnlyHeld(b);
        LeastBytes(b);
        assert UsedBlocks(heap.blocks) == {b};
      }
    }

    /** One turn of the merge loop: the lower of the two grows over both. */
    method JoinBuddy(block: nat, buddy: nat, ghost cur: Block, ghost other: Block)
      returns (lower: nat, ghost merged: Block)
      requires Shaped() && cur in blocks && cur.off == block && other in blocks && other.off == buddy
      requires FreePair(cur, other) && CoalescedExcept(blocks, cur)
      modifies this`blocks, cells
      ensures Shaped() && CoalescedExcept(blocks, merged) && UsedBlocks(blocks) == old(UsedBlocks(blocks))
      ensures merged in blocks && merged.off == lower < cells.Length && !merged.used && merged.sizeK == cur.sizeK + 1
      ensures lower == cur.off || lower == other.off
      ensures forall i :: 0 <= i < cells.Length && i != lower ==> cells[i] == old(cells[i])
      ensures forall i :: 0 <= i < cells.Length ==> cells[i].owner == old(cells[i].owner)
    {
      hide Tiles, Xor, Aligned, UsedBlocks, Pow2;
      ghost var lo, hi := if buddy < block then other else cur, if buddy < block then cur else other;
      FreePairOrdered(blocks, arenaK, cur, other);
      ghost var pre, post := Adjacent(blocks, arenaK, lo, hi);
      MergeStep(pre, lo, hi, post, arenaK, cur);
      PairTiles(lo, hi);
      lower := if buddy < block then buddy else block;
      ghost var before := cells[..];
      cells[lower] := cells[lower].(sizeK := cells[lower].sizeK + 1);
      merged := Merged(lo);
      assert HeaderOf(cells[..][lower], merged, id);
      Rewritten(before, cells[..], pre, [lo, hi], [merged], post, arenaK, lo.off, Limit(hi), id);
      blocks := pre + ([merged] + post);
    }

    /** Joining a free block with its free buddy of equal size, as long as there is one. */
    method MergeLoop(at: nat, ghost from: Block)
      requires Shaped() && from in blocks && from.off == at && !from.used && CoalescedExcept(blocks, from)
      modifies this`blocks, cells
      ensures Valid() && UsedBlocks(blocks) == old(UsedBlocks(blocks))
      ensures forall x, i {:trigger x in UsedBlocks(blocks), cells[i]} ::
                x in UsedBlocks(blocks) && x.off <= i < Limit(x) && i < cells.Length ==> cells[i] == old(cells[i])
      ensures forall i :: 0 <= i < cells.Length ==> cells[i].owner == old(cells[i].owner)
    {
      hide Tiles, Xor, Aligned, UsedBlocks, Pow2;
      var block := at;
      ghost var cur, other := from, from;
      InBounds(blocks, 0, cells.Length, cur);
      var buddy := GetBuddy(block);
      if Bytes(cur) < cells.Length { other := BuddyIsLive(blocks, arenaK, cur); }
      while Pow2(cells[block].sizeK + MIN_K) < Pow2(arenaK)
            && Pow2(cells[block].sizeK + MIN_K) == Pow2(cells[buddy].sizeK + MIN_K) && !cells[buddy].occupied
        invariant Shaped() && CoalescedExcept(blocks, cur) && UsedBlocks(blocks) == old(UsedBlocks(blocks))
        invariant cur in blocks && cur.off == block < cells.Length && !cur.used
        invariant buddy == Xor(block, Bytes(cur))
        invariant Bytes(cur) < Pow2(arenaK) ==> other in blocks && other.off == buddy && other != cur
        invariant forall i :: 0 <= i < cells.Length ==> cells[i].owner == old(cells[i].owner)
        invariant PayloadKept(blocks, old(cells[..]), cells[..])
        decreases arenaK - cur.sizeK
      {
        SameSize(cur, other);
        ghost var was, before := blocks, cells[..];
        block, cur := JoinBuddy(block, buddy, cur, other);
        KeptBesides(was, blocks, arenaK, cur.off, old(cells[..]), before, cells[..]);
        FitsArena(blocks, arenaK, cur);
        buddy := GetBuddy(block);
        if Bytes(cur) < Pow2(arenaK) { other := BuddyIsLive(blocks, arenaK, cur); }
      }
      FitsArena(blocks, arenaK, cur);
      if Bytes(cur) < Pow2(arenaK) {
        MergeDone(blocks, arenaK, cur, other);
      } else {
        WholeArena(blocks, arenaK, cur);
      }
    }

    /**
     A pointer whose header names another owner is refused. A block of this heap is freed and
     merged; everything else occupied stays, header and payload. The owner word stays too, so
     this check alone would let the pointer pass again.
     */
    method Deallocate(at: nat) returns (ok: bool, ghost b: Block)
      requires Valid() && USED_HEADER <= at < USED_HEADER + cells.Length
      requires cells[at - USED_HEADER].owner == id ==> exists x :: x in UsedBlocks(blocks) && x.off == at - USED_HEADER
      modifies this`blocks, cells
      ensures Valid()
      ensures ok <==> old(cells[at - USED_HEADER].owner) == id
      ensures !ok ==> blocks == old(blocks) && cells[..] == old(cells[..])
      ensures ok ==> b.off == at - USED_HEADER && b in old(UsedBlocks(blocks)) && UsedBlocks(blocks) == old(UsedBlocks(blocks)) - {b}
      ensures forall x, i {:trigger x in UsedBlocks(blocks), cells[i]} ::
                x in UsedBlocks(blocks) && x.off <= i < Limit(x) && i < cells.Length ==> cells[i] == old(cells[i])
      ensures ok ==> cells[at - USED_HEADER].owner == id && forall x :: x in UsedBlocks(blocks) ==> x.off != at - USED_HEADER
    {
      hide Tiles, Xor, Aligned, Pow2;
      var block := at - USED_HEADER;
      b := Block(0, 0, true);
      if cells[block].owner != id { return false, b; }
      b :| b in UsedBlocks(blocks) && b.off == block;
      OnlyStart(blocks, arenaK, b);
      ghost var free := Release(block, b);
      MergeLoop(block, free);
      ok := true;
      forall x, i {:trigger x in UsedBlocks(blocks), cells[i]} | x in UsedBlocks(blocks) && x.off <= i < Limit(x) && i < cells.Length
        ensures cells[i] == old(cells[i])
      {
        Apart(old(blocks), 0, cells.Length, x, b);
      }
    }

    method Release(at: nat, ghost b: Block) returns (ghost free: Block)
      requires Valid() && b in blocks && b.off == at && b.used
      modifies this`blocks, cells
      ensures Shaped() && free == b.(used := false) && free in blocks && CoalescedExcept(blocks, free)
      ensures UsedBlocks(blocks) == old(UsedBlocks(blocks)) - {b}
      ensures forall i :: 0 <= i < cells.Length && i != at ==> cells[i] == old(cells[i])
      ensures forall i :: 0 <= i < cells.Length ==> cells[i].owner == old(cells[i].owner)
    {
      hide Tiles, Xor, Aligned, Pow2, UsedBlocks;
      ghost var pre, post := SplitAt(blocks, b);
      Marked(pre, b, post, arenaK);
      SingleTiles(b);
      free := b.(used := false);
      ghost var before := cells[..];
      cells[at] := cells[at].(occupied := false);
      assert HeaderOf(cells[..][at], free, id);
      Rewritten(before, cells[..], pre, [b], [free], post, arenaK, at, Limit(b), id);
      blocks := pre + ([free] + post);
    }

    /** What a caller writes into its own block never reaches a header. */
    method WritePayload(b: Block, i: nat, junk: Header)
      requires Valid() && b in UsedBlocks(blocks) && b.off + USED_HEADER <= i < Limit(b)
      modifies cells
      ensures Valid() && blocks == old(blocks)
    {
      InBounds(blocks, 0, cells.Length, b);
      forall x | x in blocks
        ensures x.off != i
      {
        if x != b { Apart(blocks, 0, cells.Length, x, b); }
      }
      cells[i] := junk;
    }

    /** Freeing everything, in whatever order, leaves one free block of the full size. */
    method DeallocateAll(order: seq<nat>)
      requires Valid() && arenaK >= MIN_K
      requires forall i, j :: 0 <= i < j < |order| ==> order[i] != order[j]
      requires forall p :: p in order <==> p in Pointers(blocks)
      modifies this`blocks, cells
      ensures Valid() && blocks == [Block(0, arenaK - MIN_K, false)]
      ensures cells[0].sizeK == arenaK - MIN_K && !cells[0].occupied
    {
      var i := 0;
      while i < |order|
        invariant 0 <= i <= |order| && Valid()
        invariant forall p :: p in order[i..] <==> p in Pointers(blocks)
      {
        assert order[i] in order[i..];
        ghost var x :| x in UsedBlocks(blocks) && x.off + USED_HEADER == order[i];
        InBounds(blocks, 0, cells.Length, x);
        ghost var was := blocks;
        var ok, b := Deallocate(order[i]);
        SameOffset(was, arenaK, x, b);
        assert order[i..] == [order[i]] + order[i + 1..];
        forall p | p in Pointers(blocks)
          ensures p in order[i + 1..]
        {
          var y :| y in UsedBlocks(blocks) && y.off + USED_HEADER == p;
          assert p in Pointers(was);
          if p == order[i] { SameOffset(was, arenaK, x, y); }
        }
        forall p | p in order[i + 1..]
          ensures p in Pointers(blocks)
        {
          assert p in order[i..];
          var y :| y in UsedBlocks(was) && y.off + USED_HEADER == p;
          assert y in UsedBlocks(blocks);
        }
        i := i + 1;
      }
      NothingHeld(blocks);
      AllFreed(blocks, arenaK);
      assert HeaderOf(cells[blocks[0].off], blocks[0], id);
    }

    lemma Finished(rest: seq<Block>, it: nat)
      requires AtPosition(it, rest) && it == cells.Length
      ensures rest == []
    {
      TilesTotal(rest, it, it);
    }
  }

  ghost predicate Before(seen: seq<Block>, it: nat) {
    forall x :: x in seen ==> x.off < it
  }

  lemma EmptyWalk(need: nat)
    ensures NoneFits([], need) && Before([], 0)
  {
  }

  /** Walking past one more block: the candidate stands or gives way. */
  lemma Consider(seen: seq<Block>, best: Block, found: bool, x: Block, need: nat, mode: FitMode)
    requires if found then Chosen(seen, best, need, mode) else NoneFits(seen, need)
    requires Before(seen, x.off)
    ensures Before(seen + [x], Limit(x))
    ensures !found && !Fits(x, need) ==> NoneFits(seen + [x], need)
    ensures found && !Fits(x, need) ==> Chosen(seen + [x], best, need, mode)
    ensures Fits(x, need) && (!found || mode.WorstFit?) ==> Chosen(seen + [x], x, need, mode)
    ensures Fits(x, need) && found && mode.BestFit? ==>
              if Bytes(x) < Bytes(best) then Chosen(seen + [x], x, need, mode) else Chosen(seen + [x], best, need, mode)
  {
  }

  lemma FirstOfRest(seen: seq<Block>, rest: seq<Block>, it: nat, end: nat, need: nat)
    requires rest != [] && Tiles(rest, it, end) && NoneFits(seen, need) && Fits(rest[0], need)
    ensures Chosen(seen + rest, rest[0], need, FirstFit)
  {
    forall x | x in rest
      ensures it <= x.off
    {
      InBounds(rest, it, end, x);
    }
  }

  function FreeBytes(blocks: seq<Block>): nat {
    if blocks == [] then 0
    else (if blocks[0].used then 0 else Bytes(blocks[0])) + FreeBytes(blocks[1..])
  }

  /** The bytes of the blocks that callers hold. */
  ghost function HeldBytes(held: set<Block>): nat {
    if held == {} then 0
    else
      var x :| x in held;
      Bytes(x) + HeldBytes(held - {x})
  }

  /** One block more or less. */
  lemma {:induction false} HeldWithout(held: set<Block>, x: Block)
    requires x in held
    ensures HeldBytes(held) == Bytes(x) + HeldBytes(held - {x})
  {
    var y :| y in held && HeldBytes(held) == Bytes(y) + HeldBytes(held - {y});
    if y != x {
      HeldWithout(held - {y}, x);
      HeldWithout(held - {x}, y);
      assert held - {y} - {x} == held - {x} - {y};
    }
  }

  lemma OnlyHeld(b: Block)
    ensures HeldBytes({b}) == Bytes(b)
  {
    HeldWithout({b}, b);
    assert {b} - {b} == {};
  }

  lemma LeastBytes(b: Block)
    ensures Bytes(b) >= 16 && (b.sizeK == 0 ==> Bytes(b) == 16)
  {
    assert Pow2(4) == 16;
    Pow2Monotone(4, LogBytes(b));
  }

  /** Free bytes and held bytes make up the stretch. */
  lemma {:induction false} BytesAddUp(blocks: seq<Block>, at: nat, end: nat)
    requires Tiles(blocks, at, end)
    ensures at + FreeBytes(blocks) + HeldBytes(UsedBlocks(blocks)) == end
  {
    if blocks == [] {
      assert UsedBlocks(blocks) == {};
    } else {
      hide Bytes;
      var b, rest := blocks[0], blocks[1..];
      BytesAddUp(rest, Limit(b), end);
      if b in rest { InBounds(rest, Limit(b), end, b); SomeBytes(b); }
      assert forall x :: x in blocks <==> x == b || x in rest;
      if b.used {
        assert UsedBlocks(blocks) - {b} == UsedBlocks(rest);
        HeldWithout(UsedBlocks(blocks), b);
      } else {
        assert UsedBlocks(blocks) == UsedBlocks(rest);
      }
    }
  }

  lemma SomeBytes(b: Block)
    ensures Bytes(b) > 0
  {
  }
}
