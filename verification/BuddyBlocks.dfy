/**
 The blocks of a buddy heap, in address order: they tile the arena, each aligned to its own
 size, and no two free buddies of equal size stand side by side.
 */
module BuddyBlocks {
  import opened Dyadic

  // A block must hold the one-byte header and a pointer: nine bytes, so 2^4 at least.
  const MIN_K := 4

  /** Where the block starts, the k stored in its header, and whether it is occupied. */
  datatype Block = Block(off: nat, sizeK: nat, used: bool)

  function LogBytes(b: Block): nat {
    b.sizeK + MIN_K
  }

  function Bytes(b: Block): nat {
    Pow2(LogBytes(b))
  }

  function Limit(b: Block): nat {
    b.off + Bytes(b)
  }

  /** The blocks follow one another without a gap from `at` to `end`. */
  ghost predicate Tiles(blocks: seq<Block>, at: nat, end: nat) {
    if blocks == [] then at == end
    else blocks[0].off == at && Tiles(blocks[1..], Limit(blocks[0]), end)
  }

  function Total(blocks: seq<Block>): nat {
    if blocks == [] then 0 else Bytes(blocks[0]) + Total(blocks[1..])
  }

  lemma {:induction false} TilesTotal(blocks: seq<Block>, at: nat, end: nat)
    requires Tiles(blocks, at, end)
    ensures end == at + Total(blocks)
  {
    if blocks != [] { TilesTotal(blocks[1..], Limit(blocks[0]), end); }
  }

  lemma {:induction false} TilesAppend(a: seq<Block>, b: seq<Block>, at: nat, end: nat)
    ensures Tiles(a + b, at, end) <==> Tiles(a, at, at + Total(a)) && Tiles(b, at + Total(a), end)
  {
    if a == [] {
      assert a + b == b;
    } else {
      assert (a + b)[0] == a[0] && (a + b)[1..] == a[1..] + b;
      TilesAppend(a[1..], b, Limit(a[0]), end);
    }
  }

  lemma {:induction false} InBounds(blocks: seq<Block>, at: nat, end: nat, x: Block)
    requires Tiles(blocks, at, end) && x in blocks
    ensures at <= x.off && Limit(x) <= end
  {
    if x == blocks[0] {
      TilesTotal(blocks[1..], Limit(x), end);
    } else {
      assert x in blocks[1..];
      InBounds(blocks[1..], Limit(blocks[0]), end, x);
    }
  }

  lemma {:induction false} Apart(blocks: seq<Block>, at: nat, end: nat, x: Block, y: Block)
    requires Tiles(blocks, at, end) && x in blocks && y in blocks && x != y
    ensures Limit(x) <= y.off || Limit(y) <= x.off
  {
    if x == blocks[0] {
      InBounds(blocks[1..], Limit(x), end, y);
    } else if y == blocks[0] {
      InBounds(blocks[1..], Limit(y), end, x);
    } else {
      Apart(blocks[1..], Limit(blocks[0]), end, x, y);
    }
  }

  /** Every byte of the arena belongs to a block. */
  lemma {:induction false} BlockAt(blocks: seq<Block>, at: nat, end: nat, p: nat) returns (x: Block)
    requires Tiles(blocks, at, end) && at <= p < end
    ensures x in blocks && x.off <= p < Limit(x)
  {
    if p < Limit(blocks[0]) {
      x := blocks[0];
    } else {
      x := BlockAt(blocks[1..], Limit(blocks[0]), end, p);
    }
  }

  lemma {:induction false} TilesUnique(a: seq<Block>, b: seq<Block>, at: nat, end: nat)
    requires Tiles(a, at, end) && Tiles(b, at, end)
    requires forall x :: x in a ==> x in b
    ensures a == b
  {
    if a == [] {
      TilesTotal(b, at, end);
    } else {
      assert b != [] by { TilesTotal(a, at, end); }
      if a[0] != b[0] { Apart(b, at, end, a[0], b[0]); }
      forall x | x in a[1..]
        ensures x in b[1..]
      {
        InBounds(a[1..], Limit(a[0]), end, x);
        assert x in b && x != b[0];
      }
      TilesUnique(a[1..], b[1..], Limit(a[0]), end);
    }
  }

  // ----- layouts -----

  ghost predicate AllAligned(blocks: seq<Block>) {
    forall b :: b in blocks ==> Aligned(b.off, LogBytes(b))
  }

  /** The blocks tile an arena of 2^k bytes, each aligned to its own size. */
  ghost predicate Layout(blocks: seq<Block>, k: nat) {
    Tiles(blocks, 0, Pow2(k)) && AllAligned(blocks)
  }

  /** Two free blocks that the merge loop would join. */
  predicate FreePair(x: Block, y: Block) {
    !x.used && !y.used && x.sizeK == y.sizeK && y.off == Xor(x.off, Bytes(x))
  }

  ghost predicate Coalesced(blocks: seq<Block>) {
    forall x, y :: x in blocks && y in blocks ==> !FreePair(x, y)
  }

  ghost predicate CoalescedExcept(blocks: seq<Block>, z: Block) {
    forall x, y :: x in blocks && y in blocks && FreePair(x, y) ==> x == z || y == z
  }

  ghost function UsedBlocks(blocks: seq<Block>): set<Block> {
    set b | b in blocks && b.used
  }

  lemma FitsArena(blocks: seq<Block>, k: nat, x: Block)
    requires Layout(blocks, k) && x in blocks
    ensures LogBytes(x) <= k && Limit(x) <= Pow2(k)
  {
    InBounds(blocks, 0, Pow2(k), x);
    if k < LogBytes(x) { Pow2Monotone(k, LogBytes(x)); }
  }

  lemma SameOffset(blocks: seq<Block>, k: nat, x: Block, y: Block)
    requires Layout(blocks, k) && x in blocks && y in blocks && x.off <= y.off < Limit(x)
    ensures x == y
  {
    if x != y { Apart(blocks, 0, Pow2(k), x, y); }
  }

  lemma OnlyStart(blocks: seq<Block>, k: nat, x: Block)
    requires Layout(blocks, k) && x in blocks
    ensures forall y :: y in blocks && y.off == x.off ==> y == x
  {
    forall y | y in blocks && y.off == x.off
      ensures y == x
    {
      SameOffset(blocks, k, x, y);
    }
  }

  /** A stretch known to cover [at, end) splits the tiling of the arena there. */
  lemma {:induction false} Segment(pre: seq<Block>, mid: seq<Block>, post: seq<Block>, start: nat, at: nat, end: nat,
          n: nat)
    requires mid != [] && Tiles(mid, at, end)
    ensures Tiles(pre + (mid + post), start, n) <==> Tiles(pre, start, at) && Tiles(post, end, n)
  {
    TilesTotal(mid, at, end);
    if pre == [] {
      assert pre + (mid + post) == mid + post;
      TilesAppend(mid, post, start, n);
      assert (mid + post)[0] == mid[0];
    } else {
      var all := pre + (mid + post);
      assert all[0] == pre[0] && all[1..] == pre[1..] + (mid + post);
      Segment(pre[1..], mid, post, Limit(pre[0]), at, end, n);
    }
  }

  /** Exchanging a stretch of blocks for another stretch over the same bytes. */
  lemma Exchange(pre: seq<Block>, old': seq<Block>, mid: seq<Block>, post: seq<Block>, k: nat, at: nat, end: nat)
    requires Layout(pre + (old' + post), k) && old' != [] && mid != []
    requires Tiles(old', at, end) && Tiles(mid, at, end) && AllAligned(mid)
    ensures Layout(pre + (mid + post), k)
  {
    hide Tiles, Pow2;
    Segment(pre, old', post, 0, at, end, Pow2(k));
    Segment(pre, mid, post, 0, at, end, Pow2(k));
  }

  /** The neighbours of a stretch lie outside it. */
  lemma Outside(pre: seq<Block>, mid: seq<Block>, post: seq<Block>, k: nat, at: nat, end: nat, x: Block)
    requires Layout(pre + (mid + post), k) && mid != [] && Tiles(mid, at, end)
    ensures x in pre ==> Limit(x) <= at
    ensures x in post ==> end <= x.off
  {
    hide Tiles, Pow2;
    Segment(pre, mid, post, 0, at, end, Pow2(k));
    if x in pre { InBounds(pre, 0, at, x); }
    if x in post { InBounds(post, end, Pow2(k), x); }
  }

  lemma SplitAt(blocks: seq<Block>, x: Block) returns (pre: seq<Block>, post: seq<Block>)
    requires x in blocks
    ensures blocks == pre + ([x] + post)
  {
    var i :| 0 <= i < |blocks| && blocks[i] == x;
    pre, post := blocks[..i], blocks[i + 1..];
  }

  // ----- buddies -----

  /**
   Below the arena's size, the address computed by exclusive or is the start of a live block,
   and that block is no larger.
   */
  lemma BuddyIsLive(blocks: seq<Block>, k: nat, x: Block) returns (y: Block)
    requires Layout(blocks, k) && x in blocks && Bytes(x) < Pow2(k)
    ensures y in blocks && y.off == Xor(x.off, Bytes(x)) && y.sizeK <= x.sizeK && y != x
  {
    hide Xor, Aligned, Tiles;
    var l := LogBytes(x);
    FitsArena(blocks, k, x);
    BuddyOffset(x.off, l);
    var p := ParentOf(x.off, l);
    var buddy := Xor(x.off, Pow2(l));
    AlignedZero(k);
    Nested(p, l + 1, 0, k);
    y := BlockAt(blocks, 0, Pow2(k), buddy);
    if LogBytes(y) <= l {
      Nested(buddy, l, y.off, LogBytes(y));
    } else {
      AlignedDown(y.off, l + 1, LogBytes(y));
      if p < y.off { MultiplesApart(p, y.off, l + 1); }
      Nested(p, l + 1, y.off, LogBytes(y));
      SameOffset(blocks, k, y, x);
      assert false;
    }
  }

  /** Merging two buddies gives an aligned block over the same bytes. */
  lemma Joined(lo: Block, hi: Block)
    requires Aligned(lo.off, LogBytes(lo)) && hi.sizeK == lo.sizeK && lo.off < hi.off
    requires hi.off == Xor(lo.off, Bytes(lo))
    ensures hi.off == Limit(lo)
    ensures Aligned(lo.off, LogBytes(lo) + 1)
  {
    BuddyOffset(lo.off, LogBytes(lo));
  }

  /** Splitting a block leaves a lower half whose buddy is the upper half. */
  lemma Halves(b: Block)
    requires b.sizeK > 0 && Aligned(b.off, LogBytes(b))
    ensures var l, half := LogBytes(b) - 1, Pow2(LogBytes(b) - 1);
            && 2 * half == Bytes(b) && Xor(b.off, half) == b.off + half
            && Aligned(b.off, l) && Aligned(b.off + half, l)
  {
    var l, half := LogBytes(b) - 1, Pow2(LogBytes(b) - 1);
    AlignedDown(b.off, l, l + 1);
    AlignedShift(b.off, l);
    BuddyOffset(b.off, l);
    var p := ParentOf(b.off, l);
    if b.off != p { MultiplesApart(p, b.off, l + 1); }
  }

  // ----- the steps of the split and merge loops -----

  lemma FreePairSymmetric(x: Block, y: Block)
    requires Aligned(x.off, LogBytes(x)) && FreePair(x, y)
    ensures FreePair(y, x)
  {
    BuddyOffset(x.off, LogBytes(x));
  }

  lemma OutsidersUnpaired(pre: seq<Block>, mid: seq<Block>, post: seq<Block>, k: nat, at: nat, end: nat, z: Block,
          x: Block, y: Block)
    requires Layout(pre + (mid + post), k) && Tiles(mid, at, end) && z in mid
    requires CoalescedExcept(pre + (mid + post), z)
    requires (x in pre || x in post) && (y in pre || y in post)
    ensures !FreePair(x, y)
  {
    hide Tiles, FreePair;
    InBounds(mid, at, end, z);
    Outside(pre, mid, post, k, at, end, x);
    Outside(pre, mid, post, k, at, end, y);
  }

  function LowerHalf(b: Block): Block
    requires b.sizeK > 0
  {
    Block(b.off, b.sizeK - 1, false)
  }

  function UpperHalf(b: Block): Block
    requires b.sizeK > 0
  {
    Block(b.off + Bytes(LowerHalf(b)), b.sizeK - 1, false)
  }

  lemma SingleTiles(b: Block)
    ensures Tiles([b], b.off, Limit(b))
  {
    assert [b][1..] == [];
  }

  lemma PairTiles(lo: Block, hi: Block)
    requires hi.off == Limit(lo)
    ensures Tiles([lo, hi], lo.off, Limit(hi))
  {
    assert [lo, hi][1..] == [hi];
    SingleTiles(hi);
  }

  lemma SplitTiles(b: Block)
    requires b.sizeK > 0 && Aligned(b.off, LogBytes(b))
    ensures Tiles([LowerHalf(b), UpperHalf(b)], b.off, Limit(b)) && AllAligned([LowerHalf(b), UpperHalf(b)])
    ensures FreePair(LowerHalf(b), UpperHalf(b))
  {
    hide Xor, Aligned;
    Halves(b);
    var lo, hi := LowerHalf(b), UpperHalf(b);
    assert Limit(hi) == Limit(b);
    PairTiles(lo, hi);
  }

  /** One turn of the split loop. */
  lemma SplitStep(pre: seq<Block>, b: Block, post: seq<Block>, k: nat)
    requires b.sizeK > 0 && !b.used
    requires Layout(pre + ([b] + post), k) && CoalescedExcept(pre + ([b] + post), b)
    ensures var after := pre + ([LowerHalf(b), UpperHalf(b)] + post);
            && Layout(after, k) && CoalescedExcept(after, LowerHalf(b))
            && UsedBlocks(after) == UsedBlocks(pre + ([b] + post))
  {
    hide Xor, Aligned;
    var lo, hi := LowerHalf(b), UpperHalf(b);
    assert b in pre + ([b] + post);
    SplitTiles(b);
    SingleTiles(b);
    Exchange(pre, [b], [lo, hi], post, k, b.off, Limit(b));
    var after := pre + ([lo, hi] + post);
    forall x, y | x in after && y in after && FreePair(x, y)
      ensures x == lo || y == lo
    {
      FreePairSymmetric(x, y);
      if x == hi { OnlyBuddy(after, k, hi, lo, y); }
      if y == hi { OnlyBuddy(after, k, hi, lo, x); }
      if x != lo && x != hi && y != lo && y != hi {
        OutsidersUnpaired(pre, [b], post, k, b.off, Limit(b), b, x, y);
      }
    }
  }

  /** A block has at most one buddy. */
  lemma OnlyBuddy(blocks: seq<Block>, k: nat, x: Block, y: Block, z: Block)
    requires Layout(blocks, k) && x in blocks && y in blocks && z in blocks
    requires (FreePair(x, y) || FreePair(y, x)) && FreePair(x, z)
    ensures y == z
  {
    hide Xor, Aligned;
    if FreePair(y, x) { FreePairSymmetric(y, x); }
    SameOffset(blocks, k, y, z);
  }

  function Merged(lo: Block): Block {
    Block(lo.off, lo.sizeK + 1, false)
  }

  /** One turn of the merge loop: cur and its free buddy become one block. */
  lemma MergeStep(pre: seq<Block>, lo: Block, hi: Block, post: seq<Block>, k: nat, cur: Block)
    requires Layout(pre + ([lo, hi] + post), k) && FreePair(lo, hi) && lo.off < hi.off
    requires cur == lo || cur == hi
    requires CoalescedExcept(pre + ([lo, hi] + post), cur)
    ensures var after := pre + ([Merged(lo)] + post);
            && Layout(after, k) && CoalescedExcept(after, Merged(lo))
            && UsedBlocks(after) == UsedBlocks(pre + ([lo, hi] + post))
  {
    hide Xor, Aligned;
    var b := Merged(lo);
    assert lo in pre + ([lo, hi] + post);
    Joined(lo, hi);
    assert Bytes(b) == 2 * Bytes(lo);
    PairTiles(lo, hi);
    SingleTiles(b);
    Exchange(pre, [lo, hi], [b], post, k, lo.off, Limit(b));
    var after := pre + ([b] + post);
    forall x, y | x in after && y in after && FreePair(x, y)
      ensures x == b || y == b
    {
      if x != b && y != b { OutsidersUnpaired(pre, [lo, hi], post, k, lo.off, Limit(b), cur, x, y); }
    }
  }

  /** Changing only the occupied bit of a block. */
  lemma Marked(pre: seq<Block>, b: Block, post: seq<Block>, k: nat)
    requires Layout(pre + ([b] + post), k) && CoalescedExcept(pre + ([b] + post), b)
    ensures var b' := b.(used := !b.used); var after := pre + ([b'] + post);
            && Layout(after, k) && CoalescedExcept(after, b') && (b'.used ==> Coalesced(after))
            && UsedBlocks(after) == if b.used then UsedBlocks(pre + ([b] + post)) - {b} else UsedBlocks(pre + ([b] + post)) + {b'}
  {
    hide Xor, Aligned;
    var b' := b.(used := !b.used);
    var before, after := pre + ([b] + post), pre + ([b'] + post);
    assert b in before;
    SingleTiles(b);
    SingleTiles(b');
    Exchange(pre, [b], [b'], post, k, b.off, Limit(b));
    forall x, y | x in after && y in after && FreePair(x, y)
      ensures x == b' || y == b'
    {
      if x != b' && y != b' { OutsidersUnpaired(pre, [b], post, k, b.off, Limit(b), b, x, y); }
    }
    forall x | x in pre || x in post
      ensures x != b
    {
      Outside(pre, [b], post, k, b.off, Limit(b), x);
    }
  }

  /** Blocks that touch are neighbours in the list. */
  lemma Adjacent(blocks: seq<Block>, k: nat, lo: Block, hi: Block) returns (pre: seq<Block>, post: seq<Block>)
    requires Layout(blocks, k) && lo in blocks && hi in blocks && hi.off == Limit(lo)
    ensures blocks == pre + ([lo, hi] + post)
  {
    pre, post := SplitAt(blocks, lo);
    Segment(pre, [lo], post, 0, lo.off, Limit(lo), Pow2(k));
    InBounds(blocks, 0, Pow2(k), hi);
    assert post != [] && post[0] in blocks;
    SameOffset(blocks, k, post[0], hi);
    assert [lo] + post == [lo, hi] + post[1..];
    post := post[1..];
  }

  /** When the merge loop stops below the arena's size, nothing is left to merge. */
  lemma MergeDone(blocks: seq<Block>, k: nat, cur: Block, buddy: Block)
    requires Layout(blocks, k) && cur in blocks && CoalescedExcept(blocks, cur)
    requires buddy in blocks && buddy.off == Xor(cur.off, Bytes(cur)) && !FreePair(cur, buddy)
    ensures Coalesced(blocks)
  {
    hide Xor, Aligned;
    forall x, y | x in blocks && y in blocks
      ensures !FreePair(x, y)
    {
      if FreePair(x, y) {
        FreePairSymmetric(x, y);
        SameOffset(blocks, k, buddy, if x == cur then y else x);
      }
    }
  }

  lemma WholeArena(blocks: seq<Block>, k: nat, cur: Block)
    requires Layout(blocks, k) && cur in blocks && Bytes(cur) == Pow2(k)
    requires CoalescedExcept(blocks, cur)
    ensures Coalesced(blocks)
  {
    forall x, y | x in blocks && y in blocks
      ensures !FreePair(x, y)
    {
      if FreePair(x, y) {
        InBounds(blocks, 0, Pow2(k), x);
        InBounds(blocks, 0, Pow2(k), y);
        BuddyOffset(x.off, LogBytes(x));
      }
    }
  }

  // ----- the coalesced form is unique -----

  /** No block of a coalesced layout is a proper part of a region without occupied blocks. */
  lemma {:induction false} NoFreePart(blocks: seq<Block>, k: nat, x: Block, at: nat, l: nat)
    requires Layout(blocks, k) && Coalesced(blocks) && x in blocks
    requires Aligned(at, l) && l <= k && at <= x.off < at + Pow2(l)
    requires forall y :: y in blocks && at <= y.off < at + Pow2(l) ==> !y.used
    ensures LogBytes(x) >= l
    decreases x.sizeK
  {
    if LogBytes(x) < l {
      Pow2Monotone(LogBytes(x), l);
      Pow2Monotone(l, k);
      var y := BuddyIsLive(blocks, k, x);
      StaysInside(x.off, LogBytes(x), at, l);
      if y.sizeK < x.sizeK {
        NoFreePart(blocks, k, y, at, l);
      } else {
        assert FreePair(x, y);
      }
      assert false;
    }
  }

  lemma StaysInside(x: nat, a: nat, at: nat, l: nat)
    requires Aligned(x, a) && Aligned(at, l) && a < l && at <= x < at + Pow2(l)
    ensures at <= Xor(x, Pow2(a)) < at + Pow2(l)
  {
    hide Xor, Aligned;
    BuddyOffset(x, a);
    var p := ParentOf(x, a);
    AlignedDown(at, a + 1, l);
    if p < at { MultiplesApart(p, at, a + 1); }
    Nested(p, a + 1, at, l);
  }

  /** One direction: a free block of the one layout is a block of the other. */
  lemma FreeBlockShared(a: seq<Block>, b: seq<Block>, k: nat, x: Block)
    requires Layout(a, k) && Layout(b, k) && Coalesced(a) && Coalesced(b)
    requires UsedBlocks(a) == UsedBlocks(b) && x in a && !x.used
    ensures x in b
  {
    FitsArena(a, k, x);
    var y := BlockAt(b, 0, Pow2(k), x.off);
    FitsArena(b, k, y);
    if y.used {
      assert y in UsedBlocks(a);
      SameOffset(a, k, y, x);
    }
    Nested(x.off, LogBytes(x), y.off, LogBytes(y));
    NoUsedInside(a, b, k, x);
    NoUsedInside(b, a, k, y);
    if LogBytes(x) <= LogBytes(y) {
      NoFreePart(a, k, x, y.off, LogBytes(y));
    } else {
      NoFreePart(b, k, y, x.off, LogBytes(x));
    }
  }

  lemma NoUsedInside(a: seq<Block>, b: seq<Block>, k: nat, x: Block)
    requires Layout(a, k) && Layout(b, k) && UsedBlocks(a) == UsedBlocks(b) && x in a && !x.used
    ensures forall y :: y in b && x.off <= y.off < Limit(x) ==> !y.used
  {
    forall y | y in b && x.off <= y.off < Limit(x)
      ensures !y.used
    {
      if y.used {
        assert y in UsedBlocks(b);
        SameOffset(a, k, x, y);
      }
    }
  }

  /** The occupied blocks determine the whole heap: what was allocated before leaves no trace. */
  lemma CanonicalForm(a: seq<Block>, b: seq<Block>, k: nat)
    requires Layout(a, k) && Layout(b, k) && Coalesced(a) && Coalesced(b)
    requires UsedBlocks(a) == UsedBlocks(b)
    ensures a == b
  {
    forall x | x in a
      ensures x in b
    {
      if x.used { assert x in UsedBlocks(b); } else { FreeBlockShared(a, b, k, x); }
    }
    TilesUnique(a, b, 0, Pow2(k));
  }

  /** With nothing occupied, the heap is one free block of the full size. */
  lemma AllFreed(blocks: seq<Block>, k: nat)
    requires k >= MIN_K && Layout(blocks, k) && Coalesced(blocks) && UsedBlocks(blocks) == {}
    ensures blocks == [Block(0, k - MIN_K, false)]
  {
    var whole := Block(0, k - MIN_K, false);
    AlignedZero(k);
    assert Tiles([whole], 0, Pow2(k));
    BuddyOffset(0, k);
    assert UsedBlocks([whole]) == {};
    CanonicalForm(blocks, [whole], k);
  }
}
