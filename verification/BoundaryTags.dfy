/**
 The boundary-tag allocator: the occupied blocks linked both ways, the holes found between
 them by an iterator that stands either on a block or in the hole behind one.
 */
module BoundaryTags {
  import opened FitModes
  import opened Links
  import opened TaggedBlocks

  /** _occupied_ptr and _occupied of the iterator. */
  datatype Iter = Iter(ptr: Link, occupied: bool)

  /** Where an iterator stands: in the hole before block k, on block k, or past the end. */
  datatype Spot = InHole(k: nat) | OnBlock(k: nat) | Done

  /** Where hole k starts; hole |tags| is the one behind the last block. */
  function Start(tags: seq<Tag>, k: nat): nat
    requires k <= |tags|
  {
    Total(tags[..k])
  }

  function Hole(tags: seq<Tag>, n: nat, k: nat): nat
    requires k <= |tags| && Total(tags) <= n
  {
    if k < |tags| then tags[k].gap else n - Total(tags)
  }

  /** The block before hole k, or the trusted memory. */
  function Before(tags: seq<Tag>, k: nat): Link
    requires k <= |tags|
  {
    LastOf(tags[..k], 0, Trusted)
  }

  ghost predicate NoneFits(tags: seq<Tag>, n: nat, upto: nat, need: nat)
    requires upto <= |tags| + 1 && Total(tags) <= n
  {
    forall j :: 0 <= j < upto ==> Hole(tags, n, j) < need
  }

  /** Hole k is what the fit mode asks for among the first so many. */
  ghost predicate Chosen(tags: seq<Tag>, n: nat, upto: nat, k: nat, need: nat, mode: FitMode)
    requires upto <= |tags| + 1 && Total(tags) <= n
  {
    && k < upto && Hole(tags, n, k) >= need
    && forall j :: 0 <= j < upto && Hole(tags, n, j) >= need ==>
         match mode
         case FirstFit => k <= j
         case BestFit => Hole(tags, n, k) < Hole(tags, n, j) || (Hole(tags, n, k) == Hole(tags, n, j) && k <= j)
         case WorstFit => Hole(tags, n, k) > Hole(tags, n, j) || (Hole(tags, n, k) == Hole(tags, n, j) && k <= j)
  }

  lemma {:induction false} OneTag(t: Tag, at: nat, prev: Link)
    ensures Total([t]) == Length(t) && LastOf([t], at, prev) == At(at + t.gap)
  {
    assert [t][1..] == [];
  }

  lemma {:induction false} AtTag(cells: seq<Meta>, tags: seq<Tag>, id: int, k: nat)
    requires Holds(cells, tags, 0, Trusted, Null, id) && k < |tags|
    ensures tags == tags[..k] + tags[k..] && tags[k..] == [tags[k]] + tags[k + 1..]
    ensures var off := Start(tags, k) + tags[k].gap;
            && off < |cells| && Start(tags, k + 1) == off + HEADER + tags[k].size
            && cells[off] == Meta(tags[k].size, FirstOf(tags[k + 1..], Start(tags, k + 1), Null), Before(tags, k), id)
            && Before(tags, k + 1) == At(off)
  {
    hide Holds, Total, LastOf;
    var pre, t, rest := tags[..k], tags[k], tags[k + 1..];
    assert tags == pre + ([t] + rest) && tags[..k + 1] == pre + [t];
    Ends(cells, pre, [t] + rest, id);
    OneHeld(cells, t, rest, Total(pre), LastOf(pre, 0, Trusted), id);
    TotalAppend(pre, [t]);
    LastOfAppend(pre, [t], 0, Trusted);
    OneTag(t, Total(pre), LastOf(pre, 0, Trusted));
  }

  /** Where block k leads. */
  lemma {:induction false} NextOfTag(cells: seq<Meta>, tags: seq<Tag>, id: int, k: nat)
    requires Holds(cells, tags, 0, Trusted, Null, id) && k < |tags|
    ensures var off := Start(tags, k) + tags[k].gap;
            && off < |cells| && off + HEADER + cells[off].size == Start(tags, k + 1) && Before(tags, k + 1) == At(off)
            && cells[off].next == (if k + 1 < |tags| then At(Start(tags, k + 1) + tags[k + 1].gap) else Null)
    ensures k + 1 == |tags| ==> Start(tags, k + 1) == Total(tags)
  {
    hide Holds, LastOf, Total;
    AtTag(cells, tags, id, k);
    if k + 1 == |tags| { TotalFrom(tags, k + 1); }
  }

  /** Each block's neighbours in the list point back at it and do not overlap it. */
  lemma {:induction false} DoublyLinked(cells: seq<Meta>, tags: seq<Tag>, id: int, k: nat)
    requires Holds(cells, tags, 0, Trusted, Null, id) && k < |tags|
    ensures var off := Start(tags, k) + tags[k].gap;
            && off < |cells|
            && (if k == 0 then cells[off].prev == Trusted
                else var p := cells[off].prev;
                     p.At? && p.off < |cells| && cells[p.off].next == At(off) && p.off + HEADER + cells[p.off].size <= off)
            && (if k + 1 == |tags| then cells[off].next == Null
                else var q := cells[off].next;
                     q.At? && q.off < |cells| && cells[q.off].prev == At(off) && off + HEADER + cells[off].size <= q.off)
  {
    hide Holds, LastOf, Total, Start, Before;
    AtTag(cells, tags, id, k);
    NextOfTag(cells, tags, id, k);
    if k > 0 { NextOfTag(cells, tags, id, k - 1); } else { TotalFrom(tags, 0); }
    if k + 1 < |tags| { AtTag(cells, tags, id, k + 1); }
  }

  lemma {:induction false} TotalFrom(tags: seq<Tag>, k: nat)
    requires k <= |tags|
    ensures Start(tags, k) + Total(tags[k..]) == Total(tags) && Start(tags, 0) == 0
            && Start(tags, |tags|) == Total(tags)
    ensures Before(tags, 0) == Trusted
  {
    assert tags == tags[..k] + tags[k..] && tags[..|tags|] == tags;
    TotalAppend(tags[..k], tags[k..]);
  }

  // ----- where an iterator stands -----

  predicate Placed(tags: seq<Tag>, spot: Spot) {
    (spot.InHole? ==> spot.k <= |tags|) && (spot.OnBlock? ==> spot.k < |tags|)
  }

  ghost predicate Stands(tags: seq<Tag>, n: nat, it: Iter, spot: Spot)
    requires Total(tags) <= n
  {
    match spot
    case InHole(k) => k <= |tags| && Hole(tags, n, k) > 0 && it == Iter(Before(tags, k), false)
    case OnBlock(k) => k < |tags| && it == Iter(At(Start(tags, k) + tags[k].gap), true)
    case Done => it.ptr == Null
  }

  /** The spot at hole k, or beyond it if it is empty. */
  function From(tags: seq<Tag>, n: nat, k: nat): Spot
    requires Total(tags) <= n && k <= |tags|
  {
    if Hole(tags, n, k) > 0 then InHole(k) else if k < |tags| then OnBlock(k) else Done
  }

  function NextSpot(tags: seq<Tag>, n: nat, spot: Spot): Spot
    requires Total(tags) <= n && Placed(tags, spot) && !spot.Done?
  {
    match spot
    case InHole(k) => if k < |tags| then OnBlock(k) else Done
    case OnBlock(k) => From(tags, n, k + 1)
  }

  /** How many holes the walk has left behind. */
  function Upto(tags: seq<Tag>, spot: Spot): (upto: nat)
    requires Placed(tags, spot)
    ensures upto <= |tags| + 1
  {
    match spot case InHole(k) => k case OnBlock(k) => k + 1 case Done => |tags| + 1
  }

  function Rank(tags: seq<Tag>, spot: Spot): nat
    requires Placed(tags, spot)
  {
    match spot case InHole(k) => 2 * (|tags| - k) + 2 case OnBlock(k) => 2 * (|tags| - k) + 1 case Done => 0
  }

  lemma {:induction false} AtEnd(tags: seq<Tag>, n: nat, it: Iter, spot: Spot)
    requires Total(tags) <= n && Placed(tags, spot) && Stands(tags, n, it, spot)
    ensures it.ptr == Null <==> spot.Done?
    ensures it.ptr != Null ==> (it.occupied <==> spot.OnBlock?)
    ensures spot.InHole? ==> spot.k <= |tags|
  {
    if spot.InHole? { LastOfInBounds(tags[..spot.k], 0, Trusted); }
  }

  lemma WalkedAll(tags: seq<Tag>)
    ensures Placed(tags, Done) && Upto(tags, Done) == |tags| + 1
  {
  }

  lemma {:induction false} BehindHole(tags: seq<Tag>, n: nat, it: Iter, k: nat)
    requires Total(tags) <= n && Stands(tags, n, it, InHole(k))
    ensures k <= |tags| && it.ptr == Before(tags, k)
  {
  }

  /** Where the candidate of a search stands: nowhere, or in the hole found. */
  lemma {:induction false} KeptStands(tags: seq<Tag>, n: nat, it: Iter, k: nat)
    requires Total(tags) <= n && (it.ptr != Null ==> k <= |tags| && Stands(tags, n, it, InHole(k)))
    ensures var spot := if it.ptr == Null then Done else InHole(k); Placed(tags, spot) && Stands(tags, n, it, spot)
  {
  }

  lemma {:induction false} Moves(tags: seq<Tag>, n: nat, spot: Spot)
    requires Total(tags) <= n && Placed(tags, spot) && !spot.Done?
    ensures Placed(tags, NextSpot(tags, n, spot)) && Rank(tags, NextSpot(tags, n, spot)) < Rank(tags, spot)
  {
  }

  lemma {:induction false} StartNone(tags: seq<Tag>, n: nat, need: nat)
    requires Total(tags) <= n && need > 0
    ensures var spot := From(tags, n, 0); Placed(tags, spot) && NoneFits(tags, n, Upto(tags, spot), need)
  {
  }

  /** No hole has fitted so far: the hole here is the first, or none has fitted still. */
  lemma {:induction false} StepNone(tags: seq<Tag>, n: nat, spot: Spot, need: nat, mode: FitMode)
    requires Total(tags) <= n && need > 0 && Placed(tags, spot) && !spot.Done?
    requires NoneFits(tags, n, Upto(tags, spot), need)
    ensures Placed(tags, NextSpot(tags, n, spot))
    ensures if spot.InHole? && Hole(tags, n, spot.k) >= need
            then Chosen(tags, n, Upto(tags, NextSpot(tags, n, spot)), spot.k, need, mode)
                 && (mode.FirstFit? ==> Chosen(tags, n, |tags| + 1, spot.k, need, mode))
            else NoneFits(tags, n, Upto(tags, NextSpot(tags, n, spot)), need)
  {
    hide Total;
  }

  /** Some hole has fitted: it stands, or the hole here takes its place. */
  lemma {:induction false} StepChosen(tags: seq<Tag>, n: nat, spot: Spot, k: nat, need: nat, mode: FitMode)
    requires Total(tags) <= n && need > 0 && Placed(tags, spot) && !spot.Done? && !mode.FirstFit?
    requires Chosen(tags, n, Upto(tags, spot), k, need, mode)
    ensures Placed(tags, NextSpot(tags, n, spot))
    ensures var better := spot.InHole? && Hole(tags, n, spot.k) >= need
                          && (if mode.BestFit? then Hole(tags, n, spot.k) < Hole(tags, n, k)
                              else Hole(tags, n, spot.k) > Hole(tags, n, k));
            Chosen(tags, n, Upto(tags, NextSpot(tags, n, spot)), if better then spot.k else k, need, mode)
  {
    hide Total;
  }

  /** What the walk has seen and what lies before it make up all regions. */
  ghost predicate InfoSoFar(tags: seq<Tag>, n: nat, info: seq<(nat, bool)>, spot: Spot)
    requires Total(tags) <= n
  {
    Placed(tags, spot) && info + RegionsAt(tags, spot, n - Total(tags)) == Regions(tags, n - Total(tags))
  }

  lemma {:induction false} InfoStart(tags: seq<Tag>, n: nat)
    requires Total(tags) <= n
    ensures InfoSoFar(tags, n, [], From(tags, n, 0))
  {
    RegionsStart(tags, n - Total(tags));
  }

  lemma {:induction false} InfoStep(tags: seq<Tag>, n: nat, info: seq<(nat, bool)>, it: Iter, spot: Spot, size: nat)
    requires Total(tags) <= n && Placed(tags, spot) && !spot.Done? && Stands(tags, n, it, spot)
    requires size == if spot.InHole? then Hole(tags, n, spot.k) else HEADER + tags[spot.k].size
    requires InfoSoFar(tags, n, info, spot)
    ensures Placed(tags, NextSpot(tags, n, spot))
            && InfoSoFar(tags, n, info + [(size, it.occupied)], NextSpot(tags, n, spot))
  {
    hide LastOf, Total, Regions, RegionsAt;
    var tail := n - Total(tags);
    RegionsStep(tags, spot, tail);
    var here, rest := [(size, it.occupied)], RegionsAt(tags, NextSpot(tags, n, spot), tail);
    assert RegionsAt(tags, spot, tail) == here + rest;
    assert info + (here + rest) == (info + here) + rest;
  }

  lemma {:induction false} InfoEnd(tags: seq<Tag>, n: nat, info: seq<(nat, bool)>)
    requires Total(tags) <= n && InfoSoFar(tags, n, info, Done)
    ensures info == Regions(tags, n - Total(tags)) && SumOf(info) == n
  {
    RegionsFill(tags, n - Total(tags));
  }

  class TaggedHeap {
    const cells: array<Meta>
    const id: int
    var first: Link
    ghost var tags: seq<Tag>

    /**
     The occupied blocks are linked both ways in address order, disjoint and inside the arena;
     every hole is empty or has room for a header.
     */
    ghost predicate Valid()
      reads this, cells
    {
      && HEADER <= cells.Length && Total(tags) <= cells.Length
      && Holds(cells[..], tags, 0, Trusted, Null, id) && first == FirstOf(tags, 0, Null)
      && GapsUsable(tags) && (Total(tags) == cells.Length || Total(tags) + HEADER <= cells.Length)
    }

    constructor (space: nat, trusted: int)
      requires space >= HEADER
      ensures Valid() && fresh(cells) && cells.Length == space && id == trusted && tags == []
    {
      id := trusted;
      cells := new Meta[space](_ => Meta(0, Null, Null, 0));
      first := Null;
      tags := [];
    }

    /** The constructor's check: a space that cannot hold one header is refused. */
    static method Create(space: nat, trusted: int) returns (heap: TaggedHeap?)
      ensures heap == null <==> space < 32
      ensures heap != null ==> fresh(heap) && fresh(heap.cells) && heap.Valid() && heap.cells.Length == space && heap.tags == []
    {
      if space < HEADER { return null; }
      heap := new TaggedHeap(space, trusted);
    }

    /** The size of the hole behind a block, or of the first one for the trusted memory. */
    method NextFreeBlockSize(block: Link, ghost k: nat) returns (size: nat)
      requires Valid() && k <= |tags| && block == Before(tags, k)
      ensures size == Hole(tags, cells.Length, k)
    {
      TotalFrom(tags, k);
      if block == Trusted {
        BeforeBlock(cells[..], tags, id, k);
        if first == Null {
          return cells.Length;
        }
        return first.off;
      }
      BeforeBlock(cells[..], tags, id, k);
      AtTag(cells[..], tags, id, k - 1);
      var end := block.off + HEADER + cells[block.off].size;
      if cells[block.off].next == Null {
        return cells.Length - end;
      }
      return cells[block.off].next.off - end;
    }

    // ----- the iterator -----

    method Begin() returns (it: Iter)
      requires Valid()
      ensures Stands(tags, cells.Length, it, From(tags, cells.Length, 0))
    {
      TotalFrom(tags, 0);
      var occupied := first == At(0);
      it := Iter(if occupied then At(0) else Trusted, occupied);
    }

    method Advance(it: Iter, ghost spot: Spot) returns (it': Iter)
      requires Valid() && Placed(tags, spot) && !spot.Done? && Stands(tags, cells.Length, it, spot)
      ensures Stands(tags, cells.Length, it', NextSpot(tags, cells.Length, spot))
    {
      hide Holds, LastOf, Total, Start, Before;
      ghost var k := spot.k;
      TotalFrom(tags, k);
      if it.occupied {
        NextOfTag(cells[..], tags, id, k);
        var block := cells[it.ptr.off];
        var end := it.ptr.off + HEADER + block.size;
        var occupied := block.next == At(end) || (block.next == Null && end == cells.Length);
        it' := Iter(if occupied then block.next else it.ptr, occupied);
      } else {
        BeforeBlock(cells[..], tags, id, k);
        if k > 0 { NextOfTag(cells[..], tags, id, k - 1); }
        it' := Iter(if it.ptr == Trusted then first else cells[it.ptr.off].next, true);
      }
    }

    method Size(it: Iter, ghost spot: Spot) returns (size: nat)
      requires Valid() && Placed(tags, spot) && Stands(tags, cells.Length, it, spot)
      ensures spot.InHole? ==> size == Hole(tags, cells.Length, spot.k)
      ensures spot.OnBlock? ==> size == HEADER + tags[spot.k].size
      ensures spot.Done? ==> size == 0
    {
      hide Holds, LastOf, Total;
      AtEnd(tags, cells.Length, it, spot);
      if it.ptr == Null {
        return 0;
      }
      if it.occupied {
        AtTag(cells[..], tags, id, spot.k);
        return cells[it.ptr.off].size + HEADER;
      }
      size := NextFreeBlockSize(it.ptr, spot.k);
    }

    method GetBlocksInfo() returns (info: seq<(nat, bool)>)
      requires Valid()
      ensures info == Regions(tags, cells.Length - Total(tags)) && SumOf(info) == cells.Length
      ensures OccupiedIn(info, 0) == Live(tags, 0) && WellFormed(info)
    {
      hide SumOf, Regions, OccupiedIn, WellFormed, Live, RegionsAt, Stands, Placed, From, NextSpot, Rank, InfoSoFar, Holds, LastOf, Total;
      ghost var t, n := tags, cells.Length;
      info := [];
      StartNone(t, n, 1);
      InfoStart(t, n);
      var it := Begin();
      ghost var spot := From(t, n, 0);
      while it.ptr != Null
        invariant Placed(t, spot) && Stands(t, n, it, spot) && InfoSoFar(t, n, info, spot)
        decreases Rank(t, spot)
      {
        AtEnd(t, n, it, spot);
        Moves(t, n, spot);
        var size := Size(it, spot);
        InfoStep(t, n, info, it, spot, size);
        info := info + [(size, it.occupied)];
        it := Advance(it, spot);
        spot := NextSpot(t, n, spot);
      }
      AtEnd(t, n, it, spot);
      InfoEnd(t, n, info);
      RegionsExactly(t, n - Total(t), 0);
    }

    method GetBlockFirstFit(need: nat) returns (block: Link, ghost k: nat)
      requires Valid() && need > 0
      ensures block == Null ==> NoneFits(tags, cells.Length, |tags| + 1, need)
      ensures block != Null ==> Chosen(tags, cells.Length, |tags| + 1, k, need, FirstFit) && block == Before(tags, k)
    {
      hide Hole, Stands, Placed, NextSpot, From, Upto, Rank, NoneFits, Chosen, Holds, LastOf, Total;
      k := 0;
      ghost var t, n := tags, cells.Length;
      StartNone(t, n, need);
      var it := Begin();
      ghost var spot := From(t, n, 0);
      while it.ptr != Null
        invariant Placed(t, spot) && Stands(t, n, it, spot) && NoneFits(t, n, Upto(t, spot), need)
        decreases Rank(t, spot)
      {
        AtEnd(t, n, it, spot);
        Moves(t, n, spot);
        var size := Size(it, spot);
        StepNone(t, n, spot, need, FirstFit);
        if !it.occupied && size >= need {
          BehindHole(t, n, it, spot.k);
          return it.ptr, spot.k;
        }
        it := Advance(it, spot);
        spot := NextSpot(t, n, spot);
      }
      AtEnd(t, n, it, spot);
      WalkedAll(t);
      block := Null;
    }

    method GetBlockBestFit(need: nat) returns (block: Link, ghost k: nat)
      requires Valid() && need > 0
      ensures block == Null ==> NoneFits(tags, cells.Length, |tags| + 1, need)
      ensures block != Null ==> Chosen(tags, cells.Length, |tags| + 1, k, need, BestFit) && block == Before(tags, k)
    {
      hide Hole, Stands, Placed, NextSpot, From, Upto, Rank, NoneFits, Chosen, Holds, LastOf, Total;
      k := 0;
      ghost var t, n := tags, cells.Length;
      var result := Iter(Null, false);
      StartNone(t, n, need);
      var it := Begin();
      ghost var spot := From(t, n, 0);
      while it.ptr != Null
        invariant Placed(t, spot) && Stands(t, n, it, spot)
        invariant if result.ptr == Null then NoneFits(t, n, Upto(t, spot), need) else Chosen(t, n, Upto(t, spot), k, need, BestFit)
        invariant result.ptr != Null ==> k <= |t| && Stands(t, n, result, InHole(k))
        decreases Rank(t, spot)
      {
        AtEnd(t, n, it, spot);
        Moves(t, n, spot);
        var size := Size(it, spot);
        ghost var kept := if result.ptr == Null then Done else InHole(k);
        KeptStands(t, n, result, k);
        var best := Size(result, kept);
        if result.ptr == Null { StepNone(t, n, spot, need, BestFit); } else { StepChosen(t, n, spot, k, need, BestFit); }
        if !it.occupied && size >= need && (size < best || result.ptr == Null) {
          result := it;
          k := spot.k;
        }
        it := Advance(it, spot);
        spot := NextSpot(t, n, spot);
      }
      AtEnd(t, n, it, spot);
      WalkedAll(t);
      if result.ptr != Null { BehindHole(t, n, result, k); }
      block := result.ptr;
    }

    method GetBlockWorstFit(need: nat) returns (block: Link, ghost k: nat)
      requires Valid() && need > 0
      ensures block == Null ==> NoneFits(tags, cells.Length, |tags| + 1, need)
      ensures block != Null ==> Chosen(tags, cells.Length, |tags| + 1, k, need, WorstFit) && block == Before(tags, k)
    {
      hide Hole, Stands, Placed, NextSpot, From, Upto, Rank, NoneFits, Chosen, Holds, LastOf, Total;
      k := 0;
      ghost var t, n := tags, cells.Length;
      var result := Iter(Null, false);
      StartNone(t, n, need);
      var it := Begin();
      ghost var spot := From(t, n, 0);
      while it.ptr != Null
        invariant Placed(t, spot) && Stands(t, n, it, spot)
        invariant if result.ptr == Null then NoneFits(t, n, Upto(t, spot), need) else Chosen(t, n, Upto(t, spot), k, need, WorstFit)
        invariant result.ptr != Null ==> k <= |t| && Stands(t, n, result, InHole(k))
        decreases Rank(t, spot)
      {
        AtEnd(t, n, it, spot);
        Moves(t, n, spot);
        var size := Size(it, spot);
        ghost var kept := if result.ptr == Null then Done else InHole(k);
        KeptStands(t, n, result, k);
        var worst := Size(result, kept);
        if result.ptr == Null { StepNone(t, n, spot, need, WorstFit); } else { StepChosen(t, n, spot, k, need, WorstFit); }
        if !it.occupied && size >= need && size > worst {
          result := it;
          k := spot.k;
        }
        it := Advance(it, spot);
        spot := NextSpot(t, n, spot);
      }
      AtEnd(t, n, it, spot);
      WalkedAll(t);
      if result.ptr != Null { BehindHole(t, n, result, k); }
      block := result.ptr;
    }

    // ----- allocation and release -----

    /** A block put at the start of hole k, between the blocks around it. */
    method PutBlock(block: Link, size: nat, ghost k: nat) returns (at: nat, ghost x: (nat, nat))
      requires Valid() && k <= |tags| && block == Before(tags, k) && Hole(tags, cells.Length, k) >= HEADER + size
      requires var left := Hole(tags, cells.Length, k) - HEADER - size; left == 0 || left >= HEADER
      modifies this`first, this`tags, cells
      ensures Valid() && at == Start(old(tags), k)
      ensures tags == old(tags[..k]) + ([Tag(0, size)] + Shifted(old(tags[k..]), -HEADER - size))
      ensures x.0 == at && x.1 == size && x !in old(Live(tags, 0)) && Live(tags, 0) == old(Live(tags, 0)) + {x}
      ensures KeptPayload(old(Live(tags, 0)), old(cells[..]), cells[..])
    {
      hide Holds, LastOf, Total, Live;
      ghost var before, pre, post := cells[..], tags[..k], tags[k..];
      assert tags == pre + post;
      TotalFrom(tags, k);
      BeforeBlock(before, tags, id, k);
      Ends(before, pre, post, id);
      InsertHeaders(before, pre, post, size, id);
      FirstOfAppend(pre, post, 0, Null);
      var begin := block == Trusted;
      at := if begin then 0 else block.off + HEADER + cells[block.off].size;
      var next := if begin then first else cells[block.off].next;
      cells[at] := Meta(size, next, block, id);
      if next != Null {
        cells[next.off] := Meta(cells[next.off].size, cells[next.off].next, At(at), cells[next.off].owner);
      }
      if begin {
        first := At(at);
      } else {
        cells[block.off] := Meta(cells[block.off].size, At(at), cells[block.off].prev, cells[block.off].owner);
      }
      assert cells[..] == InsertedCells(before, at, size, next, block, id);
      x := (at, size);
      NotLive(pre, post, x);
      InsertedShape(pre, post, size);
      InsertedKept(before, cells[..], pre, post, at, size, next, block, id);
      tags := pre + ([Tag(0, size)] + Shifted(post, -HEADER - size));
    }

    lemma InArena()
      requires Valid()
      ensures Total(tags) <= cells.Length
    {
    }

    /**
     Allocation fails exactly when no hole holds the request and a header. The caller gets at
     least the bytes asked for, in the hole the fit mode picks; what would be left of the hole
     goes with them when it could not hold a header.
     */
    method Allocate(size: nat, mode: FitMode) returns (at: int, ghost k: nat, ghost x: (nat, nat))
      requires Valid()
      modifies this`first, this`tags, cells
      ensures Valid()
      ensures at == -1 <==> forall j :: 0 <= j <= |old(tags)| ==> Hole(old(tags), cells.Length, j) < size + 32
      ensures at == -1 ==> first == old(first) && tags == old(tags) && cells[..] == old(cells[..])
      ensures at != -1 ==> Chosen(old(tags), cells.Length, |old(tags)| + 1, k, size + HEADER, mode)
      ensures at != -1 ==> k <= |old(tags)| && at == BytesBefore(old(tags), k) + 32 && x.0 == at - 32
      ensures at != -1 ==> x.1 == (var hole := Hole(old(tags), cells.Length, k); if hole < size + 64 then hole - 32 else size)
      ensures at != -1 ==>
                && at == Start(old(tags), k) + HEADER && x.0 == at - HEADER && x !in old(Live(tags, 0))
                && Live(tags, 0) == old(Live(tags, 0)) + {x}
      ensures KeptPayload(old(Live(tags, 0)), old(cells[..]), cells[..])
    {
      hide Valid, KeptPayload, Live, Total, BytesBefore;
      InArena();
      var totalSize := size + HEADER;
      x := (0, 0);
      var block;
      match mode {
        case FirstFit => block, k := GetBlockFirstFit(totalSize);
        case BestFit => block, k := GetBlockBestFit(totalSize);
        case WorstFit => block, k := GetBlockWorstFit(totalSize);
      }
      if block == Null {
        SameKept(Live(tags, 0), cells[..]);
        return -1, k, x;
      }
      SomeFits(tags, cells.Length, k, totalSize, mode);
      TotalBytes(tags, k);
      var freeBlockSize := NextFreeBlockSize(block, k);
      if freeBlockSize < totalSize + HEADER {
        totalSize := freeBlockSize;
      }
      at, x := PutBlock(block, totalSize - HEADER, k);
      at := at + HEADER;
    }

    /** A new heap and its first allocation: granted exactly if the bytes asked for and 32 more are there. */
    static method FirstAllocation(space: nat, size: nat, mode: FitMode, trusted: int)
      returns (heap: TaggedHeap?, at: int)
      ensures heap == null <==> space < 32
      ensures at == if size + 32 <= space then 32 else -1
      ensures heap != null ==> fresh(heap) && heap.Valid()
      ensures heap != null ==>
                Live(heap.tags, 0) == if size + 32 > space then {} else {(0, if space < size + 64 then space - 32 else size)}
    {
      heap := Create(space, trusted);
      if heap == null {
        return null, -1;
      }
      ghost var k, x;
      at, k, x := heap.Allocate(size, mode);
      assert Hole([], space, 0) == space;
    }

    /**
     A pointer whose header names another owner is refused. A block of this heap leaves the
     list, and its bytes join the holes around it. The owner word stays, so this check alone
     would let the pointer pass again.
     */
    method Deallocate(at: nat) returns (ok: bool, ghost x: (nat, nat))
      requires Valid() && HEADER <= at < HEADER + cells.Length
      requires cells[at - HEADER].owner == id ==> exists y :: y in Live(tags, 0) && y.0 == at - HEADER
      modifies this`first, this`tags, cells
      ensures Valid()
      ensures ok <==> old(cells[at - HEADER].owner) == id
      ensures !ok ==> first == old(first) && tags == old(tags) && cells[..] == old(cells[..])
      ensures ok ==> x.0 == at - HEADER && x in old(Live(tags, 0)) && Live(tags, 0) == old(Live(tags, 0)) - {x}
      ensures KeptPayload(Live(tags, 0), old(cells[..]), cells[..])
      ensures ok ==> cells[at - HEADER].owner == id && forall y :: y in Live(tags, 0) ==> y.0 != at - HEADER
    {
      x := (0, 0);
      var block := at - HEADER;
      if cells[block].owner != id {
        SameKept(Live(tags, 0), cells[..]);
        return false, x;
      }
      x :| x in Live(tags, 0) && x.0 == block;
      TakeBlock(block, x);
      ok := true;
    }

    method TakeBlock(block: nat, ghost x: (nat, nat))
      requires Valid() && x in Live(tags, 0) && x.0 == block
      modifies this`first, this`tags, cells
      ensures Valid() && Live(tags, 0) == old(Live(tags, 0)) - {x}
      ensures KeptPayload(Live(tags, 0), old(cells[..]), cells[..])
      ensures block < cells.Length && cells[block].owner == old(cells[block].owner)
      ensures forall y :: y in Live(tags, 0) ==> y.0 != block
    {
      hide Holds, LastOf, Total, Live, KeptPayload, GapsUsable;
      ghost var i := LiveBlock(tags, 0, x);
      OnlyStart(tags, x);
      ghost var before, pre, t, post := cells[..], tags[..i], tags[i], tags[i + 1..];
      assert tags == pre + ([t] + post);
      RemoveHeaders(before, pre, t, post, id);
      var next, prev := cells[block].next, cells[block].prev;
      if prev == Trusted {
        first := next;
      } else {
        cells[prev.off] := Meta(cells[prev.off].size, next, cells[prev.off].prev, cells[prev.off].owner);
      }
      if next != Null {
        cells[next.off] := Meta(cells[next.off].size, cells[next.off].next, prev, cells[next.off].owner);
      }
      assert cells[..] == RemovedCells(before, next, prev);
      RemovedShape(pre, t, post);
      RemovedKept(before, cells[..], pre, t, post, next, prev);
      RemovedGaps(pre, t, post);
      tags := pre + Shifted(post, Length(t));
    }
  }

  /** The block before hole k, seen through the headers. */
  lemma {:induction false} BeforeBlock(cells: seq<Meta>, tags: seq<Tag>, id: int, k: nat)
    requires Holds(cells, tags, 0, Trusted, Null, id) && k <= |tags|
    ensures Before(tags, k) == Trusted <==> k == 0
    ensures k > 0 ==> Before(tags, k).At?
    ensures FirstOf(tags[k..], Start(tags, k), Null) == if k < |tags| then At(Start(tags, k) + tags[k].gap) else Null
    ensures tags[0..] == tags
  {
    if k > 0 { AtTag(cells, tags, id, k - 1); }
  }

  /** The regions a walk still has before it. */
  ghost function RegionsAt(tags: seq<Tag>, spot: Spot, tail: nat): seq<(nat, bool)>
    requires (spot.InHole? ==> spot.k <= |tags|) && (spot.OnBlock? ==> spot.k < |tags|)
  {
    match spot
    case InHole(k) => Regions(tags[k..], tail)
    case OnBlock(k) => [(HEADER + tags[k].size, true)] + Regions(tags[k + 1..], tail)
    case Done => []
  }

  lemma {:induction false} RegionsSplit(tags: seq<Tag>, k: nat, tail: nat)
    requires k <= |tags|
    ensures k < |tags| ==>
              Regions(tags[k..], tail)
              == (if tags[k].gap > 0 then [(tags[k].gap, false)] else []) + RegionsAt(tags, OnBlock(k), tail)
    ensures k == |tags| ==> Regions(tags[k..], tail) == if tail > 0 then [(tail, false)] else []
  {
    if k < |tags| { assert tags[k..][1..] == tags[k + 1..]; }
  }

  lemma {:induction false} RegionsStart(tags: seq<Tag>, tail: nat)
    ensures Regions(tags, tail)
            == RegionsAt(tags, if (if 0 < |tags| then tags[0].gap else tail) > 0 then InHole(0) else if 0 < |tags| then OnBlock(0) else Done, tail)
  {
    assert tags[0..] == tags;
    RegionsSplit(tags, 0, tail);
  }

  /** The walk takes the regions off one by one. */
  lemma {:induction false} RegionsStep(tags: seq<Tag>, spot: Spot, tail: nat)
    requires !spot.Done? && (spot.InHole? ==> spot.k <= |tags|) && (spot.OnBlock? ==> spot.k < |tags|)
    requires spot.InHole? ==> (if spot.k < |tags| then tags[spot.k].gap else tail) > 0
    ensures var k := spot.k;
            var hole := k + 1 <= |tags| && (if k + 1 < |tags| then tags[k + 1].gap else tail) > 0;
            RegionsAt(tags, spot, tail)
            == if spot.InHole?
               then [(if k < |tags| then tags[k].gap else tail, false)] + RegionsAt(tags, if k < |tags| then OnBlock(k) else Done, tail)
               else [(HEADER + tags[k].size, true)]
                    + RegionsAt(tags, if hole then InHole(k + 1) else if k + 1 < |tags| then OnBlock(k + 1) else Done, tail)
  {
    RegionsSplit(tags, spot.k, tail);
    if spot.k < |tags| { RegionsSplit(tags, spot.k + 1, tail); }
  }

  /** Behind their headers, the occupied blocks keep their bytes. */
  ghost predicate KeptPayload(live: set<(nat, nat)>, before: seq<Meta>, after: seq<Meta>) {
    |before| == |after| &&
    forall x, j {:trigger x in live, after[j]} ::
      x in live && x.0 < j < x.0 + HEADER + x.1 && j < |after| ==> after[j] == before[j]
  }

  lemma {:induction false} NoTags()
    ensures Total([]) == 0
  {
  }

  /** A new block keeps the heap inside the arena and joins the occupied ones. */
  lemma {:induction false} InsertedShape(pre: seq<Tag>, post: seq<Tag>, size: nat)
    requires post != [] ==> post[0].gap >= HEADER + size
    ensures var after := pre + ([Tag(0, size)] + Shifted(post, -HEADER - size));
            && Total(after) == Total(pre + post) + (if post == [] then HEADER + size else 0)
            && Live(after, 0) == Live(pre + post, 0) + {(Total(pre), size)}
            && (pre == [] ==> FirstOf(after, 0, Null) == At(0))
            && (pre != [] ==> FirstOf(after, 0, Null) == FirstOf(pre + post, 0, Null))
  {
    hide Total, Live;
    var rest := Shifted(post, -HEADER - size);
    var at := Total(pre);
    var t := Tag(0, size);
    TotalAppend(pre, post);
    TotalAppend(pre, [t] + rest);
    LiveCons(t, rest, at);
    LiveShifted(post, at, at + HEADER + size);
    LiveAppend(pre, post, 0);
    LiveAppend(pre, [t] + rest, 0);
    NoTags();
  }

  /** A header written into a hole and the links around it touch no payload. */
  lemma {:induction false} InsertedKept(before: seq<Meta>, after: seq<Meta>, pre: seq<Tag>, post: seq<Tag>, at: nat,
          size: nat, next: Link, prev: Link, id: int)
    requires at == Total(pre) < |before| && next == FirstOf(post, at, Null) && prev == LastOf(pre, 0, Trusted)
    requires (next.At? ==> at < next.off < |before|) && (prev.At? ==> prev.off < at)
    requires post != [] ==> post[0].gap >= HEADER + size
    requires after == InsertedCells(before, at, size, next, prev, id)
    ensures KeptPayload(Live(pre + post, 0), before, after)
  {
    hide Total, Live, LastOf, FirstOf;
    var live := Live(pre + post, 0);
    forall x, j {:trigger x in live, after[j]} | x in live && x.0 < j < x.0 + HEADER + x.1 && j < |after|
      ensures after[j] == before[j]
    {
      HeaderStart(pre, post, x, j);
      LiveAppend(pre, post, 0);
      if x in Live(pre, 0) { LiveInBounds(pre, 0, x); } else { LiveBeyondGap(post, at, x); }
    }
  }

  lemma {:induction false} LiveBeyondGap(tags: seq<Tag>, at: nat, x: (nat, nat))
    requires x in Live(tags, at)
    ensures tags != [] && x.0 >= at + tags[0].gap
  {
    if x != (at + tags[0].gap, tags[0].size) { LiveInBounds(tags[1..], at + Length(tags[0]), x); }
  }

  /** The blocks around a hole start where they start: not inside another block. */
  lemma {:induction false} HeaderStart(pre: seq<Tag>, post: seq<Tag>, x: (nat, nat), j: nat)
    requires x in Live(pre + post, 0) && x.0 < j < x.0 + HEADER + x.1
    ensures LastOf(pre, 0, Trusted) != At(j) && FirstOf(post, Total(pre), Null) != At(j)
  {
    hide Total, Live, LastOf;
    LiveAppend(pre, post, 0);
    LastOfInBounds(pre, 0, Trusted);
    if LastOf(pre, 0, Trusted) == At(j) {
      var y := LastOfLive(pre, 0, Trusted);
      LiveApart(pre + post, 0, x, y);
    }
    if FirstOf(post, Total(pre), Null) == At(j) {
      var y := (Total(pre) + post[0].gap, post[0].size);
      LiveCons(post[0], post[1..], Total(pre));
      assert post == [post[0]] + post[1..];
      LiveApart(pre + post, 0, x, y);
    }
  }

  lemma SameKept(live: set<(nat, nat)>, cells: seq<Meta>)
    ensures KeptPayload(live, cells, cells)
  {
  }

  lemma {:induction false} SomeFits(tags: seq<Tag>, n: nat, k: nat, need: nat, mode: FitMode)
    requires Total(tags) <= n && Chosen(tags, n, |tags| + 1, k, need, mode)
    ensures !NoneFits(tags, n, |tags| + 1, need)
  {
  }

  lemma RemovedGaps(pre: seq<Tag>, t: Tag, post: seq<Tag>)
    requires GapsUsable(pre + ([t] + post))
    ensures GapsUsable(pre + Shifted(post, Length(t)))
  {
    forall x | x in pre || x in post
      ensures x in pre + ([t] + post)
    {
    }
  }

  lemma {:induction false} NotLive(pre: seq<Tag>, post: seq<Tag>, x: (nat, nat))
    requires x.0 == Total(pre) && (post != [] ==> post[0].gap > 0)
    ensures x !in Live(pre + post, 0)
  {
    hide Live, Total;
    LiveAppend(pre, post, 0);
    if x in Live(pre, 0) { LiveInBounds(pre, 0, x); }
    if x in Live(post, Total(pre)) { LiveBeyondGap(post, Total(pre), x); }
  }

  /** A freed block leaves the occupied ones and nothing else moves. */
  lemma {:induction false} RemovedShape(pre: seq<Tag>, t: Tag, post: seq<Tag>)
    ensures var after := pre + Shifted(post, Length(t));
            && Total(after) == Total(pre + ([t] + post)) - (if post == [] then Length(t) else 0)
            && Live(after, 0) == Live(pre + ([t] + post), 0) - {(Total(pre) + t.gap, t.size)}
  {
    hide Total, Live;
    var rest := Shifted(post, Length(t));
    var at, end := Total(pre), Total(pre) + Length(t);
    var x := (at + t.gap, t.size);
    TotalAppend(pre, [t] + post);
    TotalAppend(pre, rest);
    LiveCons(t, post, at);
    LiveShifted(post, end, at);
    LiveAppend(pre, [t] + post, 0);
    LiveAppend(pre, rest, 0);
    NoTags();
    if x in Live(pre, 0) { LiveInBounds(pre, 0, x); }
    if x in Live(post, end) { LiveInBounds(post, end, x); }
  }

  /** Unlinking a block touches the payload of no other. */
  lemma {:induction false} RemovedKept(before: seq<Meta>, after: seq<Meta>, pre: seq<Tag>, t: Tag, post: seq<Tag>,
          next: Link, prev: Link)
    requires next == FirstOf(post, Total(pre) + Length(t), Null) && prev == LastOf(pre, 0, Trusted)
    requires (next.At? ==> next.off < |before|) && (prev.At? ==> prev.off < |before|)
    requires after == RemovedCells(before, next, prev)
    ensures KeptPayload(Live(pre + Shifted(post, Length(t)), 0), before, after)
  {
    hide Total, Live, LastOf;
    var rest := Shifted(post, Length(t));
    var live := Live(pre + rest, 0);
    forall x, j {:trigger x in live, after[j]} | x in live && x.0 < j < x.0 + HEADER + x.1 && j < |after|
      ensures after[j] == before[j]
    {
      HeaderStart(pre, rest, x, j);
    }
  }
}
