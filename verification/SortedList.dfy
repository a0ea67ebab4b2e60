/**
 The sorted-list allocator: free blocks in a list ordered by address, carved by allocation
 and joined with their neighbours on release.
 */
module SortedLists {
  import opened FitModes
  import opened Links
  import opened SortedChunks

  predicate Fits(c: Chunk, need: nat) {
    c.free && c.size >= need
  }

  ghost predicate NoneFits(chunks: seq<Chunk>, k: nat, need: nat)
    requires k <= |chunks|
  {
    forall j :: 0 <= j < k ==> !Fits(chunks[j], need)
  }

  /** Block i is what the fit mode asks for among the first k. */
  ghost predicate Chosen(chunks: seq<Chunk>, k: nat, i: nat, need: nat, mode: FitMode)
    requires k <= |chunks|
  {
    && i < k && Fits(chunks[i], need)
    && forall j :: 0 <= j < k && Fits(chunks[j], need) ==>
         match mode
         case FirstFit => i <= j
         case BestFit => chunks[i].size < chunks[j].size || (chunks[i].size == chunks[j].size && i <= j)
         case WorstFit => chunks[i].size > chunks[j].size || (chunks[i].size == chunks[j].size && i <= j)
  }

  /** The walk over all blocks stops once less than a header is left: the last block must not be empty. */
  ghost predicate LastVisible(chunks: seq<Chunk>) {
    |chunks| >= 2 ==> chunks[|chunks| - 1].size >= 1
  }

  function Offset(chunks: seq<Chunk>, i: nat): nat
    requires i <= |chunks|
  {
    Total(chunks[..i])
  }

  /** The free list from block k on, and before it. */
  function ListFrom(chunks: seq<Chunk>, k: nat): Link
    requires k <= |chunks|
  {
    NextFree(chunks[k..], Offset(chunks, k), Null)
  }

  function LastBefore(chunks: seq<Chunk>, k: nat): Link
    requires k <= |chunks|
  {
    LastFree(chunks[..k], 0)
  }

  /** What an allocation of size bytes makes of the chosen block. */
  function Carved(c: Chunk, size: nat): seq<Chunk> {
    if c.size >= size + HEADER + 1 then [Chunk(size, false), Chunk(c.size - size - HEADER, true)]
    else [Chunk(c.size, false)]
  }

  // ----- the layout in numbers -----

  /** Sixteen bytes for each block before block i, and their sizes. */
  ghost function BytesBefore(chunks: seq<Chunk>, i: nat): nat
    requires i <= |chunks|
  {
    if i == 0 then 0 else BytesBefore(chunks, i - 1) + 16 + chunks[i - 1].size
  }

  lemma {:induction false} OffsetBytes(chunks: seq<Chunk>, i: nat)
    requires i <= |chunks|
    ensures Offset(chunks, i) == BytesBefore(chunks, i)
  {
    if i == 0 {
      assert chunks[..0] == [];
    } else {
      OffsetBytes(chunks, i - 1);
      assert chunks[..i] == chunks[..i - 1] + [chunks[i - 1]];
      TotalAppend(chunks[..i - 1], [chunks[i - 1]]);
      SingleChunk(chunks[i - 1], [], 0);
    }
  }

  /** Block i now holds the request: cut off from the rest if that leaves seventeen bytes or more, else given whole. */
  ghost predicate CutAt16(before: seq<Chunk>, i: nat, size: nat, after: seq<Chunk>)
    requires i < |before|
  {
    var left := before[i].size - size;
    if left >= 17 then
      |after| == |before| + 1 && after[..i] == before[..i] && after[i + 2..] == before[i + 1..]
      && after[i] == Chunk(size, false) && after[i + 1] == Chunk(left - 16, true)
    else after == before[i := Chunk(before[i].size, false)]
  }

  lemma {:induction false} CutNumbers(chunks: seq<Chunk>, i: nat, size: nat)
    requires i < |chunks| && size <= chunks[i].size
    ensures CutAt16(chunks, i, size, chunks[..i] + (Carved(chunks[i], size) + chunks[i + 1..]))
  {
  }

  lemma {:induction false} AtStart(chunks: seq<Chunk>)
    ensures chunks[0..] == chunks && Offset(chunks, 0) == 0 && LastBefore(chunks, 0) == Null && Total([]) == 0
  {
  }

  lemma {:induction false} AtBlock(cells: seq<Header>, chunks: seq<Chunk>, i: nat)
    requires Holds(cells, chunks, 0, Null) && i < |chunks|
    ensures chunks == chunks[..i] + ([chunks[i]] + chunks[i + 1..])
    ensures Offset(chunks, i) < |cells|
    ensures Offset(chunks, i + 1) == Offset(chunks, i) + HEADER + chunks[i].size
    ensures HeaderOf(cells[Offset(chunks, i)], chunks[i], ListFrom(chunks, i + 1))
    ensures LastBefore(chunks, i + 1) == if chunks[i].free then At(Offset(chunks, i)) else LastBefore(chunks, i)
    ensures ListFrom(chunks, i) == if chunks[i].free then At(Offset(chunks, i)) else ListFrom(chunks, i + 1)
  {
    var pre, c, post := chunks[..i], chunks[i], chunks[i + 1..];
    assert chunks == pre + ([c] + post);
    assert chunks[..i + 1] == pre + [c];
    assert [c][1..] == [];
    assert chunks[i..][1..] == post;
    TotalAppend(pre, [c]);
    HoldsAt(cells, pre, c, post, 0, Null);
    LastFreeAppend(pre, [c], 0);
  }

  /** From block k the list leads to the first free block at or after it. */
  lemma {:induction false} NextInList(cells: seq<Header>, chunks: seq<Chunk>, k: nat) returns (j: nat)
    requires Holds(cells, chunks, 0, Null) && k <= |chunks| && ListFrom(chunks, k) != Null
    ensures k <= j < |chunks| && chunks[j].free && forall x :: k <= x < j ==> !chunks[x].free
    ensures ListFrom(chunks, k) == At(Offset(chunks, j)) && LastBefore(chunks, j) == LastBefore(chunks, k)
    decreases |chunks| - k
  {
    AtBlock(cells, chunks, k);
    if chunks[k].free {
      j := k;
    } else {
      j := NextInList(cells, chunks, k + 1);
    }
  }

  lemma {:induction false} SingleChunk(c: Chunk, post: seq<Chunk>, at: nat)
    ensures Total([c]) == HEADER + c.size && Total([c] + post) == HEADER + c.size + Total(post)
    ensures NextFree([c] + post, at, Null) == if c.free then At(at) else NextFree(post, at + HEADER + c.size, Null)
  {
    assert [c][1..] == [] && ([c] + post)[1..] == post;
  }

  lemma {:induction false} SingleLive(c: Chunk, post: seq<Chunk>, at: nat)
    ensures Live([c], at) == if c.free then {} else {(at, c.size)}
    ensures Live([c] + post, at) == Live([c], at) + Live(post, at + HEADER + c.size)
  {
    assert [c][1..] == [] && ([c] + post)[1..] == post;
  }

  /** Where the bytes and the occupied blocks of a heap lie, around one stretch of it. */
  lemma {:induction false} Composed(pre: seq<Chunk>, mid: seq<Chunk>, post: seq<Chunk>)
    ensures Total(pre + (mid + post)) == Total(pre) + Total(mid) + Total(post)
    ensures Live(pre + (mid + post), 0) == Live(pre, 0) + Live(mid, Total(pre)) + Live(post, Total(pre) + Total(mid))
  {
    hide Live, Total;
    TotalAppend(pre, mid + post);
    TotalAppend(mid, post);
    LiveAppend(pre, mid + post, 0);
    LiveAppend(mid, post, Total(pre));
  }

  /** A stretch that starts and ends like the block it replaces brings no neighbouring free blocks. */
  lemma {:induction false} StaysCoalesced(pre: seq<Chunk>, c: Chunk, mid: seq<Chunk>, post: seq<Chunk>)
    requires NoTwoFree(pre + ([c] + post)) && mid != [] && NoTwoFree(mid)
    requires (mid[0].free ==> c.free) && (mid[|mid| - 1].free ==> c.free)
    ensures NoTwoFree(pre + (mid + post))
  {
    NoTwoFreeAppend(pre, [c] + post);
    NoTwoFreeAppend(pre, mid + post);
    NoTwoFreeAppend([c], post);
    NoTwoFreeAppend(mid, post);
  }

  lemma StaysVisible(pre: seq<Chunk>, c: Chunk, mid: seq<Chunk>, post: seq<Chunk>)
    requires LastVisible(pre + ([c] + post)) && mid != []
    requires if |mid| == 1 then mid[0].size >= c.size else mid[|mid| - 1].size >= 1
    ensures LastVisible(pre + (mid + post))
  {
    var before, after := pre + ([c] + post), pre + (mid + post);
    assert after[|after| - 1] == if post == [] then mid[|mid| - 1] else post[|post| - 1];
    assert before[|before| - 1] == if post == [] then c else post[|post| - 1];
  }

  lemma {:induction false} CarvedSize(c: Chunk, size: nat, at: nat)
    requires c.size >= size
    ensures var mid := Carved(c, size);
            Total(mid) == HEADER + c.size && Live(mid, at) == {(at, mid[0].size)} && NoTwoFree(mid)
  {
    var mid := Carved(c, size);
    var rest := mid[1..];
    assert mid == [mid[0]] + rest;
    SingleChunk(mid[0], rest, at);
    SingleLive(mid[0], rest, at);
    if |mid| == 2 {
      assert rest == [mid[1]];
      SingleChunk(mid[1], [], at + HEADER + size);
      SingleLive(mid[1], [], at + HEADER + size);
    }
  }

  /** Carving keeps the size of the heap, adds one occupied block, and makes no neighbouring free blocks. */
  lemma {:induction false} CarvedShape(pre: seq<Chunk>, c: Chunk, post: seq<Chunk>, size: nat)
    requires c.free && c.size >= size && NoTwoFree(pre + ([c] + post)) && LastVisible(pre + ([c] + post))
    ensures var mid := Carved(c, size); var after := pre + (mid + post);
            && Total(mid) == HEADER + c.size && Total(after) == Total(pre + ([c] + post))
            && NoTwoFree(after) && LastVisible(after)
            && Live(after, 0) == Live(pre + ([c] + post), 0) + {(Total(pre), mid[0].size)}
  {
    hide NoTwoFree, Live, Total;
    var mid := Carved(c, size);
    CarvedSize(c, size, Total(pre));
    SingleChunk(c, [], Total(pre));
    SingleLive(c, [], Total(pre));
    Composed(pre, [c], post);
    Composed(pre, mid, post);
    StaysCoalesced(pre, c, mid, post);
    StaysVisible(pre, c, mid, post);
  }

  /** Whether the list starts before a stretch depends on there being a free block before it. */
  lemma {:induction false} ListHead(pre: seq<Chunk>, rest: seq<Chunk>)
    ensures LastFree(pre, 0) == Null ==> NextFree(pre + rest, 0, Null) == NextFree(rest, Total(pre), Null)
    ensures LastFree(pre, 0) != Null ==>
              LastFree(pre, 0).At? && LastFree(pre, 0).off < Total(pre)
              && NextFree(pre + rest, 0, Null) == NextFree(pre, 0, Null)
              && NextFree(pre, 0, Null).At? && NextFree(pre, 0, Null).off < Total(pre)
  {
    NextFreeAppend(pre, rest, 0, Null);
    if LastFree(pre, 0) == Null {
      LastFreeNull(pre, 0);
      NoneFreeNext(pre, 0, NextFree(rest, Total(pre), Null));
    } else {
      LastFreeInBounds(pre, 0);
      NextFreeInside(pre, 0, NextFree(rest, Total(pre), Null), Null);
    }
  }

  /** The headers after an allocation of size bytes from the block at `at`, prev being the free block before it. */
  function CarvedCells(cells: seq<Header>, prev: Link, at: nat, size: nat): (after: seq<Header>)
    requires at < |cells| && size <= cells[at].size && at + HEADER + cells[at].size <= |cells|
    requires prev.At? ==> prev.off < at
    ensures |after| == |cells|
  {
    var behind := cells[at].next;
    var whole := cells[at].size;
    var cut := at + HEADER + size;
    var split := whole - size >= HEADER + 1;
    var carved := if split then cells[at := Header(size, Trusted)][cut := Header(whole - size - HEADER, behind)]
                  else cells[at := Header(whole, Trusted)];
    if prev.At? then carved[prev.off := Header(carved[prev.off].size, if split then At(cut) else behind)] else carved
  }

  lemma {:induction false} CarvedFrame(cells: seq<Header>, prev: Link, at: nat, size: nat)
    requires at < |cells| && size <= cells[at].size && at + HEADER + cells[at].size <= |cells|
    requires prev.At? ==> prev.off < at
    ensures var after, behind, whole := CarvedCells(cells, prev, at, size), cells[at].next, cells[at].size;
            var split := whole - size >= HEADER + 1;
            && SameFrom(cells, after, at + HEADER + whole)
            && Redirected(cells, after, 0, at, prev, if split then At(at + HEADER + size) else behind)
            && after[at] == Header(if split then size else whole, Trusted)
            && (split ==> after[at + HEADER + size] == Header(whole - size - HEADER, behind))
  {
  }

  /** The headers an allocation leaves describe the carved heap. */
  lemma {:induction false} CarvedHeaders(cells: seq<Header>, pre: seq<Chunk>, c: Chunk, post: seq<Chunk>, size: nat)
    requires Holds(cells, pre + ([c] + post), 0, Null) && Total(pre + ([c] + post)) == |cells|
    requires c.free && size <= c.size
    ensures Total(pre) < |cells|
            && cells[Total(pre)] == Header(c.size, NextFree(post, Total(pre) + HEADER + c.size, Null))
    ensures Total(pre) + HEADER + c.size <= |cells|
    ensures LastFree(pre, 0) == Null || (LastFree(pre, 0).At? && LastFree(pre, 0).off < Total(pre))
    ensures Holds(CarvedCells(cells, LastFree(pre, 0), Total(pre), size), pre + (Carved(c, size) + post), 0, Null)
  {
    hide Holds, NextFree, LastFree, Total, CarvedCells, Redirected, SameFrom;
    var at, mid, prev := Total(pre), Carved(c, size), LastFree(pre, 0);
    SingleChunk(c, post, at);
    TotalAppend(pre, [c] + post);
    HoldsAt(cells, pre, c, post, 0, Null);
    CarvedSize(c, size, at);
    LastFreeInBounds(pre, 0);
    CarvedFrame(cells, prev, at, size);
    var after := CarvedCells(cells, prev, at, size);
    CarvedStretch(after, c, post, at, size);
    Exchange(cells, after, pre, [c], mid, post);
  }

  /** Where the list starts after an allocation. */
  lemma {:induction false} CarvedHead(pre: seq<Chunk>, c: Chunk, post: seq<Chunk>, size: nat)
    requires c.free && size <= c.size
    ensures var was, at := NextFree(pre + ([c] + post), 0, Null), Total(pre);
            NextFree(pre + (Carved(c, size) + post), 0, Null)
            == if was != At(at) then was
               else if c.size - size >= HEADER + 1 then At(at + HEADER + size)
               else NextFree(post, at + HEADER + c.size, Null)
  {
    hide NextFree, LastFree, Total;
    var mid := Carved(c, size);
    ListHead(pre, [c] + post);
    ListHead(pre, mid + post);
    SingleChunk(c, post, Total(pre));
    CarvedNext(c, post, Total(pre), size);
  }

  lemma {:induction false} CarvedNext(c: Chunk, post: seq<Chunk>, at: nat, size: nat)
    ensures NextFree(Carved(c, size) + post, at, Null)
            == if c.size >= size + HEADER + 1 then At(at + HEADER + size) else NextFree(post, at + HEADER + c.size, Null)
  {
    var mid := Carved(c, size);
    SingleChunk(mid[0], mid[1..] + post, at);
    assert mid + post == [mid[0]] + (mid[1..] + post);
    if |mid| == 2 {
      SingleChunk(mid[1], post, at + HEADER + size);
      assert mid[1..] + post == [mid[1]] + post;
    } else {
      assert mid[1..] + post == post;
    }
  }

  lemma {:induction false} CarvedStretch(cells: seq<Header>, c: Chunk, post: seq<Chunk>, at: nat, size: nat)
    requires var behind := NextFree(post, at + HEADER + c.size, Null);
             if c.size >= size + HEADER + 1
             then at + HEADER + size < |cells| && cells[at] == Header(size, Trusted)
                  && cells[at + HEADER + size] == Header(c.size - size - HEADER, behind)
             else at < |cells| && cells[at] == Header(c.size, Trusted)
    ensures Holds(cells, Carved(c, size), at, NextFree(post, at + HEADER + c.size, Null))
    ensures NextFree(Carved(c, size) + post, at, Null)
            == if c.size >= size + HEADER + 1 then At(at + HEADER + size) else NextFree(post, at + HEADER + c.size, Null)
  {
    CarvedNext(c, post, at, size);
    var mid := Carved(c, size);
    assert mid[1..] == (if |mid| == 2 then [mid[1]] else []);
    assert |mid| == 2 ==> mid[1..][1..] == [];
  }

  // ----- release -----

  /** The pointer word of the last free block of a stretch leads out of it. */
  lemma {:induction false} LastLink(cells: seq<Header>, chunks: seq<Chunk>, at: nat, after: Link)
    requires Holds(cells, chunks, at, after) && LastFree(chunks, at).At?
    ensures LastFree(chunks, at).off < |cells| && cells[LastFree(chunks, at).off].next == after
  {
    var behind := at + HEADER + chunks[0].size;
    LastFreeInBounds(chunks[1..], behind);
    if LastFree(chunks[1..], behind) == Null {
      LastFreeNull(chunks[1..], behind);
      NoneFreeNext(chunks[1..], behind, after);
    } else {
      LastLink(cells, chunks[1..], behind, after);
    }
  }

  lemma {:induction false} LinkInto(cells: seq<Header>, pre: seq<Chunk>, rest: seq<Chunk>)
    requires Holds(cells, pre + rest, 0, Null)
    ensures LastFree(pre, 0) == Null || LastFree(pre, 0).At?
    ensures LastFree(pre, 0).At? ==>
              LastFree(pre, 0).off < Total(pre) && LastFree(pre, 0).off < |cells|
              && cells[LastFree(pre, 0).off].next == NextFree(rest, Total(pre), Null)
  {
    hide Holds, NextFree, LastFree, Total;
    HoldsAppend(cells, pre, rest, 0, Null);
    LastFreeInBounds(pre, 0);
    if LastFree(pre, 0).At? { LastLink(cells, pre, 0, NextFree(rest, Total(pre), Null)); }
  }

  function LinkedCells(cells: seq<Header>, prev: Link, at: nat, next: Link): (after: seq<Header>)
    requires at < |cells| && InMemory(cells, prev)
    ensures |after| == |cells|
  {
    var linked := if prev.At? then cells[prev.off := Header(cells[prev.off].size, At(at))] else cells;
    linked[at := Header(cells[at].size, next)]
  }

  lemma {:induction false} LinkedFrame(cells: seq<Header>, prev: Link, at: nat, next: Link, size: nat)
    requires at < |cells| && prev != Trusted && (prev.At? ==> prev.off < at)
    ensures var after := LinkedCells(cells, prev, at, next);
            && SameFrom(cells, after, at + HEADER + size)
            && Redirected(cells, after, 0, at, prev, At(at))
            && after[at] == Header(cells[at].size, next)
  {
  }

  lemma {:induction false} OneFree(cells: seq<Header>, c: Chunk, at: nat, next: Link)
    requires at < |cells| && c.free && cells[at] == Header(c.size, next)
    ensures Holds(cells, [c], at, next)
  {
    assert [c][1..] == [];
  }

  /** Putting a block back into the list between the free blocks around it. */
  lemma {:induction false} LinkedHeaders(cells: seq<Header>, pre: seq<Chunk>, c: Chunk, post: seq<Chunk>)
    requires Holds(cells, pre + ([c] + post), 0, Null) && !c.free
    ensures var at, next := Total(pre), NextFree(post, Total(pre) + HEADER + c.size, Null);
            && at < |cells| && cells[at].size == c.size
            && (LastFree(pre, 0) == Null ==> NextFree(pre + ([c] + post), 0, Null) == next)
            && (LastFree(pre, 0) != Null ==> LastFree(pre, 0).At? && LastFree(pre, 0).off < at && cells[LastFree(pre, 0).off].next == next)
            && Holds(LinkedCells(cells, LastFree(pre, 0), at, next), pre + ([Chunk(c.size, true)] + post), 0, Null)
  {
    hide Holds, NextFree, LastFree, Total, LinkedCells, Redirected, SameFrom;
    var at, prev, freed := Total(pre), LastFree(pre, 0), Chunk(c.size, true);
    var next := NextFree(post, at + HEADER + c.size, Null);
    SingleChunk(c, post, at);
    SingleChunk(freed, post, at);
    ListHead(pre, [c] + post);
    HoldsAt(cells, pre, c, post, 0, Null);
    LinkInto(cells, pre, [c] + post);
    LinkedFrame(cells, prev, at, next, c.size);
    var after := LinkedCells(cells, prev, at, next);
    OneFree(after, freed, at, next);
    Exchange(cells, after, pre, [c], [freed], post);
  }

  /** What freeing a block does to the heap before any merging. */
  lemma {:induction false} FreedShape(pre: seq<Chunk>, c: Chunk, post: seq<Chunk>)
    requires !c.free && NoTwoFree(pre + ([c] + post)) && LastVisible(pre + ([c] + post))
    ensures var after := pre + ([Chunk(c.size, true)] + post);
            && Total(after) == Total(pre + ([c] + post)) && LastVisible(after)
            && Live(after, 0) == Live(pre + ([c] + post), 0) - {(Total(pre), c.size)}
            && NextFree(after, 0, Null) == (if LastFree(pre, 0) == Null then At(Total(pre)) else NextFree(pre + ([c] + post), 0, Null))
    ensures NoTwoFree(pre) && NoTwoFree(post)
  {
    hide NextFree, LastFree, Live, Total, NoTwoFree;
    var at, freed, x := Total(pre), Chunk(c.size, true), (Total(pre), c.size);
    SingleChunk(c, post, at);
    SingleLive(c, post, at);
    SingleLive(freed, post, at);
    Composed(pre, [c], post);
    Composed(pre, [freed], post);
    StaysVisible(pre, c, [freed], post);
    if x in Live(pre, 0) { LiveInBounds(pre, 0, x); }
    if x in Live(post, at + HEADER + c.size) { LiveInBounds(post, at + HEADER + c.size, x); }
    ListHead(pre, [c] + post);
    ListHead(pre, [freed] + post);
    SingleChunk(freed, post, at);
    NoTwoFreeAppend(pre, [c] + post);
    NoTwoFreeAppend([c], post);
  }

  function Joined(x: Chunk, y: Chunk): Chunk {
    Chunk(x.size + HEADER + y.size, true)
  }

  function JoinedCells(cells: seq<Header>, at: nat, right: nat): (after: seq<Header>)
    requires at < |cells| && right < |cells|
    ensures |after| == |cells|
  {
    cells[at := Header(cells[at].size + cells[right].size + HEADER, cells[right].next)]
  }

  lemma {:induction false} JoinedFrame(cells: seq<Header>, at: nat, right: nat, p: Link, size: nat)
    requires at < |cells| && right < |cells| && (p.At? ==> p.off < at && cells[p.off].next == At(at))
    ensures var after := JoinedCells(cells, at, right);
            && SameFrom(cells, after, at + HEADER + size) && Redirected(cells, after, 0, at, p, At(at))
            && after[at] == Header(cells[at].size + cells[right].size + HEADER, cells[right].next)
  {
  }

  /** Two blocks of a heap, seen through the headers. */
  lemma {:induction false} PairAt(cells: seq<Header>, a: seq<Chunk>, x: Chunk, y: Chunk, rest: seq<Chunk>)
    requires Holds(cells, a + ([x] + ([y] + rest)), 0, Null)
    ensures [x] + ([y] + rest) == [x] + [y] + rest
    ensures var at := Total(a); var right := at + HEADER + x.size;
            && at < |cells| && right < |cells| && cells[at].size == x.size
            && HeaderOf(cells[right], y, NextFree(rest, right + HEADER + y.size, Null))
  {
    hide Holds, NextFree, LastFree, Total;
    assert a + ([x] + ([y] + rest)) == (a + [x]) + ([y] + rest);
    HoldsAt(cells, a, x, [y] + rest, 0, Null);
    HoldsAt(cells, a + [x], y, rest, 0, Null);
    TotalAppend(a, [x]);
    SingleChunk(x, [], Total(a));
  }

  /** The headers after a merge of two neighbouring free blocks. */
  lemma {:induction false} JoinedHeaders(cells: seq<Header>, a: seq<Chunk>, x: Chunk, y: Chunk, rest: seq<Chunk>)
    requires Holds(cells, a + ([x] + ([y] + rest)), 0, Null) && x.free && y.free
    ensures var at := Total(a); var right := at + HEADER + x.size;
            && at < |cells| && right < |cells| && cells[at].size == x.size && cells[right].size == y.size
            && Holds(JoinedCells(cells, at, right), a + ([Joined(x, y)] + rest), 0, Null)
  {
    hide Holds, NextFree, LastFree, Total, JoinedCells, Redirected, SameFrom;
    var at, xy, was := Total(a), Joined(x, y), [x] + [y];
    var right, end := at + HEADER + x.size, at + HEADER + xy.size;
    PairAt(cells, a, x, y, rest);
    SingleChunk(y, [], right);
    SingleChunk(x, [y], at);
    SingleChunk(xy, rest, at);
    SingleChunk(x, [y] + rest, at);
    LinkInto(cells, a, [x] + ([y] + rest));
    JoinedFrame(cells, at, right, LastFree(a, 0), xy.size);
    var after := JoinedCells(cells, at, right);
    OneFree(after, xy, at, NextFree(rest, end, Null));
    Exchange(cells, after, a, was, [xy], rest);
  }

  /** A merge keeps the size of the heap, the occupied blocks and the head of the list. */
  lemma {:induction false} MergedShape(a: seq<Chunk>, x: Chunk, y: Chunk, rest: seq<Chunk>)
    requires x.free && y.free && LastVisible(a + ([x] + ([y] + rest)))
    ensures var was, after := a + ([x] + ([y] + rest)), a + ([Joined(x, y)] + rest);
            && Total(after) == Total(was) && Live(after, 0) == Live(was, 0) && LastVisible(after)
            && NextFree(after, 0, Null) == NextFree(was, 0, Null)
  {
    hide NextFree, LastFree, Live, Total;
    var at, xy := Total(a), Joined(x, y);
    SingleChunk(x, [y] + rest, at);
    SingleChunk(y, rest, at + HEADER + x.size);
    SingleChunk(xy, rest, at);
    SingleLive(x, [y] + rest, at);
    SingleLive(y, rest, at + HEADER + x.size);
    SingleLive(xy, rest, at);
    TotalAppend(a, [x] + ([y] + rest));
    TotalAppend(a, [xy] + rest);
    LiveAppend(a, [x] + ([y] + rest), 0);
    LiveAppend(a, [xy] + rest, 0);
    NextFreeAppend(a, [x] + ([y] + rest), 0, Null);
    NextFreeAppend(a, [xy] + rest, 0, Null);
    var was, after := a + ([x] + ([y] + rest)), a + ([xy] + rest);
    assert after[|after| - 1] == if rest == [] then xy else rest[|rest| - 1];
    assert was[|was| - 1] == if rest == [] then y else rest[|rest| - 1];
  }

  lemma {:induction false} NextHere(rest: seq<Chunk>, at: nat)
    ensures NextFree(rest, at, Null) == At(at) <==> rest != [] && rest[0].free
    ensures NextFree(rest, at, Null) == Null || NextFree(rest, at, Null).At?
  {
    if NextFree(rest, at, Null) != Null {
      var a, f, b := CutAtNext(rest, at);
      if a != [] { assert a[0] == rest[0]; }
    }
  }

  lemma {:induction false} NextBeyond(rest: seq<Chunk>, at: nat)
    ensures NextFree(rest, at, Null) == Null || (NextFree(rest, at, Null).At? && NextFree(rest, at, Null).off >= at)
  {
    if NextFree(rest, at, Null) != Null {
      var a, f, b := CutAtNext(rest, at);
    }
  }

  /** The block a live pointer belongs to. */
  lemma {:induction false} LiveBlock(chunks: seq<Chunk>, x: (nat, nat)) returns (i: nat)
    requires x in Live(chunks, 0)
    ensures i < |chunks| && chunks[i] == Chunk(x.1, false) && Offset(chunks, i) == x.0
  {
    i := LiveBlockFrom(chunks, 0, x);
  }

  lemma {:induction false} LiveBlockFrom(chunks: seq<Chunk>, at: nat, x: (nat, nat)) returns (i: nat)
    requires x in Live(chunks, at)
    ensures i < |chunks| && chunks[i] == Chunk(x.1, false) && at + Total(chunks[..i]) == x.0
  {
    if x == (at, chunks[0].size) && !chunks[0].free {
      i := 0;
    } else {
      var k := LiveBlockFrom(chunks[1..], at + HEADER + chunks[0].size, x);
      i := k + 1;
      assert chunks[..i][1..] == chunks[1..][..k];
    }
  }

  /** From the last free block before a freed one, the list leads to the freed one. */
  lemma {:induction false} NextAcross(a: seq<Chunk>, f: Chunk, u: seq<Chunk>, c: Chunk, post: seq<Chunk>)
    requires f.free && c.free && NoneFree(u)
    ensures var behind := Total(a) + HEADER + f.size;
            && NextFree(u + ([c] + post), behind, Null) == At(behind + Total(u))
            && behind + Total(u) == Total(a + ([f] + u))
    ensures a + ([f] + u) + ([c] + post) == a + ([f] + (u + ([c] + post)))
  {
    hide NextFree, Total;
    var behind := Total(a) + HEADER + f.size;
    NextFreeAppend(u, [c] + post, behind, Null);
    NoneFreeNext(u, behind, At(behind + Total(u)));
    SingleChunk(c, post, behind + Total(u));
    TotalAppend(a, [f] + u);
    SingleChunk(f, u, Total(a));
  }

  /** A free block between stretches that do not touch it with free blocks of their own. */
  lemma {:induction false} Isolated(a: seq<Chunk>, x: Chunk, rest: seq<Chunk>)
    requires NoTwoFree(a) && NoTwoFree(rest)
    requires a != [] ==> !a[|a| - 1].free
    requires rest != [] ==> !rest[0].free
    ensures NoTwoFree(a + ([x] + rest))
  {
    NoTwoFreeAppend(a, [x] + rest);
    NoTwoFreeAppend([x], rest);
  }

  lemma {:induction false} BeforeFree(a: seq<Chunk>, f: Chunk, u: seq<Chunk>)
    requires NoTwoFree(a + ([f] + u)) && f.free
    ensures NoTwoFree(a) && (a != [] ==> !a[|a| - 1].free)
  {
    NoTwoFreeAppend(a, [f] + u);
  }

  /** What follows the first block of a stretch without neighbouring free blocks. */
  lemma {:induction false} AfterFree(post: seq<Chunk>)
    requires NoTwoFree(post) && post != []
    ensures NoTwoFree(post[1..]) && (post[0].free && post[1..] != [] ==> !post[1].free)
  {
  }

  // ----- a heap in memory -----

  ghost predicate ShapeOf(cells: seq<Header>, chunks: seq<Chunk>) {
    |cells| == Total(chunks) && chunks != [] && Holds(cells, chunks, 0, Null) && LastVisible(chunks)
  }

  /**
   The blocks with their headers add up to the arena, the free ones are linked in address
   order from `first`, and no two of them are neighbours.
   */
  ghost predicate HeapOf(cells: seq<Header>, first: Link, chunks: seq<Chunk>) {
    ShapeOf(cells, chunks) && first == NextFree(chunks, 0, Null) && NoTwoFree(chunks)
  }

  /** Other headers, perhaps other blocks: still the same occupied ones, the same head of the list. */
  ghost predicate KeepsHeap(chunks: seq<Chunk>, after: seq<Header>, chunks': seq<Chunk>) {
    && ShapeOf(after, chunks') && Live(chunks', 0) == Live(chunks, 0)
    && NextFree(chunks', 0, Null) == NextFree(chunks, 0, Null)
  }

  predicate InMemory(cells: seq<Header>, link: Link) {
    link != Trusted && (link.At? ==> link.off < |cells|)
  }

  predicate Touching(cells: seq<Header>, left: Link, right: Link)
    requires InMemory(cells, left)
  {
    left != Null && right.At? && left.off + HEADER + cells[left.off].size == right.off
  }

  function Merged(cells: seq<Header>, left: Link, right: Link): (after: seq<Header>)
    requires InMemory(cells, left) && InMemory(cells, right)
    ensures |after| == |cells|
  {
    if Touching(cells, left, right) then JoinedCells(cells, left.off, right.off) else cells
  }

  /** The headers after the two merges of a release. */
  function MergedBoth(cells: seq<Header>, prev: Link, block: nat, next: Link): (after: seq<Header>)
    requires InMemory(cells, prev) && block < |cells| && InMemory(cells, next)
    ensures |after| == |cells|
    ensures forall j :: 0 <= j < |cells| && prev != At(j) && block != j ==> after[j] == cells[j]
  {
    if Touching(cells, prev, At(block)) then Merged(Merged(cells, prev, At(block)), prev, next)
    else Merged(cells, At(block), next)
  }

  lemma {:induction false} ListInMemory(cells: seq<Header>, chunks: seq<Chunk>, at: nat)
    requires Holds(cells, chunks, at, Null)
    ensures InMemory(cells, NextFree(chunks, at, Null))
  {
    if chunks != [] { ListInMemory(cells, chunks[1..], at + HEADER + chunks[0].size); }
  }

  /** A free block and the next one in the list: they touch exactly when they are neighbours. */
  lemma {:induction false} MergeOne(cells: seq<Header>, a: seq<Chunk>, x: Chunk, rest: seq<Chunk>) returns (chunks': seq<Chunk>)
    requires ShapeOf(cells, a + ([x] + rest)) && x.free
    ensures var left, right := At(Total(a)), NextFree(rest, Total(a) + HEADER + x.size, Null);
            && InMemory(cells, left) && InMemory(cells, right)
            && (Touching(cells, left, right) <==> rest != [] && rest[0].free)
            && KeepsHeap(a + ([x] + rest), Merged(cells, left, right), chunks')
    ensures chunks' == if rest != [] && rest[0].free then a + ([Joined(x, rest[0])] + rest[1..]) else a + ([x] + rest)
  {
    hide Holds, NextFree, LastFree, Total, Live, LastVisible, JoinedCells;
    HoldsAt(cells, a, x, rest, 0, Null);
    ListInMemory(cells, rest, Total(a) + HEADER + x.size);
    NextHere(rest, Total(a) + HEADER + x.size);
    if rest != [] && rest[0].free {
      var y, tail := rest[0], rest[1..];
      assert rest == [y] + tail;
      JoinedHeaders(cells, a, x, y, tail);
      MergedShape(a, x, y, tail);
      chunks' := a + ([Joined(x, y)] + tail);
    } else {
      chunks' := a + ([x] + rest);
    }
  }

  lemma {:induction false} MergeRight(cells: seq<Header>, a: seq<Chunk>, x: Chunk, post: seq<Chunk>) returns (chunks': seq<Chunk>)
    requires ShapeOf(cells, a + ([x] + post)) && x.free
    requires NoTwoFree(a) && NoTwoFree(post) && (a != [] ==> !a[|a| - 1].free)
    ensures var left, right := At(Total(a)), NextFree(post, Total(a) + HEADER + x.size, Null);
            && InMemory(cells, left) && InMemory(cells, right)
            && KeepsHeap(a + ([x] + post), Merged(cells, left, right), chunks') && NoTwoFree(chunks')
  {
    hide ShapeOf, KeepsHeap, Touching, Merged, Total, NextFree, NoTwoFree;
    if post != [] { AfterFree(post); }
    chunks' := MergeOne(cells, a, x, post);
    if post != [] && post[0].free {
      Isolated(a, Joined(x, post[0]), post[1..]);
    } else {
      Isolated(a, x, post);
    }
  }

  /** The two merges of a release: afterwards no two free blocks are neighbours. */
  lemma {:induction false} MergedHeap(cells: seq<Header>, pre: seq<Chunk>, c: Chunk, post: seq<Chunk>) returns (chunks': seq<Chunk>)
    requires ShapeOf(cells, pre + ([c] + post)) && c.free && NoTwoFree(pre) && NoTwoFree(post)
    ensures var prev, block, next := LastFree(pre, 0), Total(pre), NextFree(post, Total(pre) + HEADER + c.size, Null);
            && InMemory(cells, prev) && block < |cells| && InMemory(cells, next)
            && KeepsHeap(pre + ([c] + post), MergedBoth(cells, prev, block, next), chunks') && NoTwoFree(chunks')
  {
    hide ShapeOf, Touching, Merged, Total, NextFree, LastFree, NoTwoFree, Live;
    var prev, block, next := LastFree(pre, 0), Total(pre), NextFree(post, Total(pre) + HEADER + c.size, Null);
    chunks' := MergeOne(cells, pre, c, post);
    if prev == Null {
      LastFreeNull(pre, 0);
      chunks' := MergeRight(cells, pre, c, post);
      NoLeft(cells, At(block));
    } else {
      var a, f, u := CutAtLast(pre, 0);
      NextAcross(a, f, u, c, post);
      var joined := MergeOne(cells, a, f, u + ([c] + post));
      if Touching(cells, prev, At(block)) {
        BeforeFree(a, f, u);
        assert u == [] && u + ([c] + post) == [c] + post;
        AtStart(u);
        chunks' := MergeRight(Merged(cells, prev, At(block)), a, Joined(f, c), post);
      } else {
        assert u != [];
        assert pre[|pre| - 1] == u[|u| - 1];
        chunks' := MergeRight(cells, pre, c, post);
      }
    }
  }

  lemma {:induction false} NoLeft(cells: seq<Header>, right: Link)
    ensures !Touching(cells, Null, right)
  {
  }

  // ----- what a release does, whatever the pointer -----

  ghost predicate OccupiedAt(chunks: seq<Chunk>, p: nat) {
    exists x :: x in Live(chunks, 0) && x.0 == p
  }

  ghost predicate FreeAt(chunks: seq<Chunk>, p: nat) {
    exists k :: 0 <= k < |chunks| && chunks[k].free && Offset(chunks, k) == p
  }

  lemma {:induction false} OccupiedLive(chunks: seq<Chunk>, i: nat)
    requires i < |chunks| && !chunks[i].free
    ensures (Offset(chunks, i), chunks[i].size) in Live(chunks, 0)
  {
    var pre, c, post := chunks[..i], chunks[i], chunks[i + 1..];
    assert chunks == pre + ([c] + post);
    Composed(pre, [c], post);
    SingleLive(c, post, Total(pre));
  }

  /** The block that starts at p; past the end if there is none. */
  lemma {:induction false} Position(chunks: seq<Chunk>, p: nat) returns (i: nat)
    ensures i <= |chunks|
    ensures if i < |chunks| then Offset(chunks, i) == p else forall k :: 0 <= k < |chunks| ==> Offset(chunks, k) != p
    ensures OccupiedAt(chunks, p) <==> i < |chunks| && !chunks[i].free
    ensures FreeAt(chunks, p) <==> i < |chunks| && chunks[i].free
  {
    hide Live, Offset;
    if k: nat :| k < |chunks| && Offset(chunks, k) == p {
      i := k;
      if !chunks[i].free { OccupiedLive(chunks, i); }
      forall k | 0 <= k < |chunks| && Offset(chunks, k) == p
        ensures k == i
      {
        if k < i { OffsetGrows(chunks, k, i); } else if i < k { OffsetGrows(chunks, i, k); }
      }
    } else {
      i := |chunks|;
    }
    if x :| x in Live(chunks, 0) && x.0 == p {
      var k := LiveBlock(chunks, x);
    }
  }

  /** Where the list goes on behind prev. */
  function Behind(cells: seq<Header>, first: Link, prev: Link): Link
    requires InMemory(cells, prev)
  {
    if prev != Null then cells[prev.off].next else first
  }

  /** The headers after a release: the block is linked behind prev, then both merges. */
  function Released(cells: seq<Header>, prev: Link, block: nat, next: Link): (after: seq<Header>)
    requires InMemory(cells, prev) && block < |cells| && InMemory(cells, next)
    ensures |after| == |cells|
  {
    MergedBoth(LinkedCells(cells, prev, block, next), prev, block, next)
  }

  lemma {:induction false} LinksInMemory(cells: seq<Header>, first: Link, chunks: seq<Chunk>, i: nat)
    requires HeapOf(cells, first, chunks) && i <= |chunks|
    ensures InMemory(cells, LastBefore(chunks, i)) && InMemory(cells, Behind(cells, first, LastBefore(chunks, i)))
    ensures LastBefore(chunks, i) != Null ==> Behind(cells, first, LastBefore(chunks, i)) == ListFrom(chunks, i)
    ensures LastBefore(chunks, i) == Null ==> first == ListFrom(chunks, i)
  {
    hide Holds, NextFree, LastFree, Total;
    var pre, rest := chunks[..i], chunks[i..];
    assert chunks == pre + rest;
    LinkInto(cells, pre, rest);
    HoldsAppend(cells, pre, rest, 0, Null);
    ListInMemory(cells, rest, Total(pre));
    ListHead(pre, rest);
  }

  /** The head of the list after a release. */
  function HeadAfter(first: Link, prev: Link, block: nat): Link {
    if (prev == Null && first.At? && first.off > block) || first == Null then At(block) else first
  }

  lemma {:induction false} ReleaseOccupied(before: seq<Header>, first: Link, chunks: seq<Chunk>, i: nat)
    returns (x: (nat, nat), chunks': seq<Chunk>)
    requires HeapOf(before, first, chunks) && i < |chunks| && !chunks[i].free
    ensures var block, prev := Offset(chunks, i), LastBefore(chunks, i);
            && block < |before| && InMemory(before, prev) && InMemory(before, Behind(before, first, prev))
            && HeapOf(Released(before, prev, block, Behind(before, first, prev)), HeadAfter(first, prev, block), chunks')
            && KeptBytes(Live(chunks', 0), before, Released(before, prev, block, Behind(before, first, prev)))
    ensures x == (Offset(chunks, i), chunks[i].size) && x in Live(chunks, 0) && Live(chunks', 0) == Live(chunks, 0) - {x}
  {
    hide Holds, NextFree, LastFree, Total, Live, NoTwoFree, LinkedCells, MergedBoth, KeptBytes;
    var pre, c, post := chunks[..i], chunks[i], chunks[i + 1..];
    var block, prev := Offset(chunks, i), LastBefore(chunks, i);
    var freed := Chunk(c.size, true);
    x := (block, c.size);
    AtBlock(before, chunks, i);
    OccupiedLive(chunks, i);
    LinksInMemory(before, first, chunks, i);
    FreedShape(pre, c, post);
    LinkedHeaders(before, pre, c, post);
    var next := Behind(before, first, prev);
    var linked := LinkedCells(before, prev, block, next);
    chunks' := MergedHeap(linked, pre, freed, post);
    ListHead(pre, [c] + post);
    NextBeyond(post, block + HEADER + c.size);
    ReleasedFrame(before, prev, block, next);
    Untouched(pre, freed, post, before, Released(before, prev, block, next));
  }

  lemma {:induction false} ReleasedFrame(cells: seq<Header>, prev: Link, block: nat, next: Link)
    requires InMemory(cells, prev) && block < |cells| && InMemory(cells, next)
    ensures forall j :: 0 <= j < |cells| && prev != At(j) && block != j ==> Released(cells, prev, block, next)[j] == cells[j]
  {
  }

  // ----- a pointer to no occupied block, released without a logger -----

  /**
   What becomes of the headers: a free block is linked to itself; anything else in the arena
   is hung behind the last free block, or made the head of an empty list.
   */
  ghost predicate Astray(before: seq<Header>, first: Link, chunks: seq<Chunk>, block: nat, after: seq<Header>, first': Link) {
    block < |before| &&
    if FreeAt(chunks, block) then first' == first && after == before[block := Header(before[block].size, At(block))]
    else
      var unlinked := before[block := Header(before[block].size, Null)];
      match LastFree(chunks, 0)
      case At(p) => p < |before| && p != block && first' == first && after == unlinked[p := Header(before[p].size, At(block))]
      case _ => first' == At(block) && after == unlinked
  }

  /** Sizes are kept, and so are the trusted words, except that of the cell at p. */
  ghost predicate SameKinds(before: seq<Header>, after: seq<Header>, p: nat) {
    |before| == |after| && forall j :: 0 <= j < |after| ==>
                             after[j].size == before[j].size && (j != p ==> (after[j].next == Trusted <==> before[j].next == Trusted))
  }

  /** The headers determine the blocks: those not at p can be read off sizes and trusted words. */
  lemma {:induction false} Determined(before: seq<Header>, after: seq<Header>, a: seq<Chunk>, b: seq<Chunk>, at: nat, p: nat)
    requires Holds(before, a, at, Null) && Holds(after, b, at, Null) && SameKinds(before, after, p) && Total(a) == Total(b)
    requires forall k :: 0 <= k < |a| ==> at + Total(a[..k]) != p || (a[k].free && p < |after| && after[p].next != Trusted)
    ensures a == b
  {
    if a == [] || b == [] {
      assert Total(a) == 0;
    } else {
      var behind := at + HEADER + a[0].size;
      assert a[..0] == [];
      NeverTrusted(a[1..], behind);
      NeverTrusted(b[1..], at + HEADER + b[0].size);
      forall k | 0 <= k < |a[1..]|
        ensures behind + Total(a[1..][..k]) == at + Total(a[..k + 1])
      {
        assert a[..k + 1][1..] == a[1..][..k];
      }
      Determined(before, after, a[1..], b[1..], behind, p);
      assert a == [a[0]] + a[1..] && b == [b[0]] + b[1..];
    }
  }

  lemma {:induction false} NeverTrusted(chunks: seq<Chunk>, at: nat)
    ensures NextFree(chunks, at, Null) != Trusted
  {
    if chunks != [] { NeverTrusted(chunks[1..], at + HEADER + chunks[0].size); }
  }

  /** A free block released again: the merges find nothing, and its pointer word leads to itself. */
  lemma {:induction false} ReleaseFree(before: seq<Header>, first: Link, chunks: seq<Chunk>, i: nat)
    requires HeapOf(before, first, chunks) && i < |chunks| && chunks[i].free
    ensures var block, prev := Offset(chunks, i), LastBefore(chunks, i);
            && block < |before| && InMemory(before, prev) && Behind(before, first, prev) == At(block)
            && HeadAfter(first, prev, block) == first
            && Released(before, prev, block, At(block)) == before[block := Header(before[block].size, At(block))]
  {
    hide Holds, NextFree, LastFree, Total, NoTwoFree;
    var pre, c, post := chunks[..i], chunks[i], chunks[i + 1..];
    var block, prev := Offset(chunks, i), LastBefore(chunks, i);
    AtBlock(before, chunks, i);
    LinksInMemory(before, first, chunks, i);
    LastFreeInBounds(pre, 0);
    ListHead(pre, [c] + post);
    if prev != Null { NotJustBefore(before, pre, [c] + post); }
    assert LinkedCells(before, prev, block, At(block)) == before[block := Header(before[block].size, At(block))];
  }

  /** The last free block of a stretch does not end where a free block starts. */
  lemma {:induction false} NotJustBefore(cells: seq<Header>, pre: seq<Chunk>, rest: seq<Chunk>)
    requires Holds(cells, pre + rest, 0, Null) && LastFree(pre, 0) != Null && NoTwoFree(pre + rest) && rest != [] && rest[0].free
    ensures LastFree(pre, 0).At? && LastFree(pre, 0).off < |cells|
    ensures LastFree(pre, 0).off + HEADER + cells[LastFree(pre, 0).off].size != Total(pre)
  {
    hide Holds, NextFree, LastFree, Total, NoTwoFree;
    var a, f, u := CutAtLast(pre, 0);
    assert pre + rest == a + ([f] + (u + rest));
    HoldsAt(cells, a, f, u + rest, 0, Null);
    TotalAppend(a, [f] + u);
    SingleChunk(f, u, Total(a));
    assert u == [] ==> pre[|pre| - 1] == f;
    NoTwoFreeAppend(pre, rest);
    SomeBytes(u);
  }

  lemma {:induction false} SomeBytes(chunks: seq<Chunk>)
    ensures chunks != [] ==> Total(chunks) > 0
  {
  }

  /** A pointer to no block at all: the merges find nothing either. */
  lemma {:induction false} ReleaseNothing(before: seq<Header>, first: Link, chunks: seq<Chunk>, block: nat)
    requires HeapOf(before, first, chunks) && block < |before| && forall k :: 0 <= k < |chunks| ==> Offset(chunks, k) != block
    ensures var prev := LastFree(chunks, 0);
            && InMemory(before, prev) && Behind(before, first, prev) == Null && prev != At(block)
            && HeadAfter(first, prev, block) == (if prev == Null then At(block) else first)
            && Released(before, prev, block, Null) == LinkedCells(before, prev, block, Null)
  {
    hide Holds, NextFree, LastFree, Total, NoTwoFree;
    var n, prev := |chunks|, LastFree(chunks, 0);
    assert chunks[..n] == chunks && chunks[n..] == [] && chunks + [] == chunks;
    LinksInMemory(before, first, chunks, n);
    EmptyList(Offset(chunks, n));
    ListHead(chunks, []);
    if prev != Null {
      var a, f, u := CutAtLast(chunks, 0);
      HoldsAt(before, a, f, u, 0, Null);
      assert chunks[..|a|] == a && chunks[..|a| + 1] == a + [f];
      TotalAppend(a, [f]);
      SingleChunk(f, [], Total(a));
      assert Offset(chunks, |a|) != block;
      if |a| + 1 < n { assert Offset(chunks, |a| + 1) != block; }
    }
  }

  lemma {:induction false} EmptyList(at: nat)
    ensures NextFree([], at, Null) == Null
  {
  }

  /** What such a release leaves is the memory of no heap. */
  lemma {:induction false} AstrayNoHeap(before: seq<Header>, first: Link, chunks: seq<Chunk>, block: nat, i: nat,
          after: seq<Header>, first': Link, cs: seq<Chunk>)
    requires HeapOf(before, first, chunks) && Astray(before, first, chunks, block, after, first')
    requires i <= |chunks| && (FreeAt(chunks, block) <==> i < |chunks|)
    requires if i < |chunks| then chunks[i].free && Offset(chunks, i) == block else forall k :: 0 <= k < |chunks| ==> Offset(chunks, k) != block
    ensures !HeapOf(after, first', cs)
  {
    hide Holds, NextFree, LastFree, NoTwoFree, Live, FreeAt, Offset, Total;
    LastFreeInBounds(chunks, 0);
    if LastFree(chunks, 0) != Null { LastLink(before, chunks, 0, Null); }
    StartsAt(chunks, block, i);
    if HeapOf(after, first', cs) {
      Determined(before, after, chunks, cs, 0, block);
      if i < |chunks| {
        AtBlock(after, chunks, i);
        ListAhead(chunks, i + 1);
      } else if LastFree(chunks, 0) != Null {
        LastLink(after, chunks, 0, Null);
      } else {
        LastFreeNull(chunks, 0);
        NoneFreeNext(chunks, 0, Null);
      }
      assert false;
    }
  }

  lemma {:induction false} StartsAt(chunks: seq<Chunk>, p: nat, i: nat)
    requires i <= |chunks|
    requires if i < |chunks| then chunks[i].free && Offset(chunks, i) == p else forall k :: 0 <= k < |chunks| ==> Offset(chunks, k) != p
    ensures forall k :: 0 <= k < |chunks| && Total(chunks[..k]) == p ==> i < |chunks| && chunks[k].free
  {
    hide Total;
    forall k | 0 <= k < |chunks| && Total(chunks[..k]) == p
      ensures i < |chunks| && chunks[k].free
    {
      assert Offset(chunks, k) == p;
      if k < i { OffsetGrows(chunks, k, i); } else if i < k { OffsetGrows(chunks, i, k); }
    }
  }

  lemma {:induction false} ReleaseAstray(before: seq<Header>, first: Link, chunks: seq<Chunk>, i: nat, block: nat)
    requires HeapOf(before, first, chunks) && i <= |chunks| && block < |before|
    requires FreeAt(chunks, block) <==> i < |chunks|
    requires if i < |chunks| then chunks[i].free && Offset(chunks, i) == block else forall k :: 0 <= k < |chunks| ==> Offset(chunks, k) != block
    ensures var prev := LastBefore(chunks, i);
            && InMemory(before, prev) && InMemory(before, Behind(before, first, prev))
            && var after, first' := Released(before, prev, block, Behind(before, first, prev)), HeadAfter(first, prev, block);
            Astray(before, first, chunks, block, after, first') && forall cs :: !HeapOf(after, first', cs)
  {
    hide Holds, NextFree, LastFree, NoTwoFree, Live, FreeAt, Offset, Total, MergedBoth, HeapOf;
    var prev := LastBefore(chunks, i);
    if i < |chunks| {
      ReleaseFree(before, first, chunks, i);
    } else {
      assert chunks[..i] == chunks;
      ReleaseNothing(before, first, chunks, block);
    }
    var after, first' := Released(before, prev, block, Behind(before, first, prev)), HeadAfter(first, prev, block);
    assert Astray(before, first, chunks, block, after, first');
    forall cs
      ensures !HeapOf(after, first', cs)
    {
      AstrayNoHeap(before, first, chunks, block, i, after, first', cs);
    }
  }

  /** A fresh heap, and any pointer into it: released without a logger, the pointer takes the heap with it. */
  lemma {:induction false} FreshHeapAstray(cells: seq<Header>, space: nat, block: nat)
    requires HeapOf(cells, At(0), [Chunk(space, true)]) && block < |cells|
    ensures !OccupiedAt([Chunk(space, true)], block)
    ensures var prev := if block == 0 then Null else At(0);
            var after := Released(cells, prev, block, Behind(cells, At(0), prev));
            && after == (if block == 0 then cells[0 := Header(space, At(0))]
                         else cells[block := Header(cells[block].size, Null)][0 := Header(space, At(block))])
            && forall cs :: !HeapOf(after, HeadAfter(At(0), prev, block), cs)
  {
    hide Holds, NextFree, Live, OccupiedAt, FreeAt, Total, LastFree;
    var chunks := [Chunk(space, true)];
    var i := Position(chunks, block);
    AtStart(chunks);
    AtBlock(cells, chunks, 0);
    assert chunks[..1] == chunks && Offset(chunks, 1) == |cells|;
    if i == 1 { assert Offset(chunks, 0) != block; }
    ReleaseAstray(cells, At(0), chunks, i, block);
  }

  class SortedHeap {
    const cells: array<Header>
    const space: nat
    var first: Link
    ghost var chunks: seq<Chunk>

    ghost predicate Shaped()
      reads this, cells
    {
      cells.Length == space + HEADER && ShapeOf(cells[..], chunks)
    }

    ghost predicate Valid()
      reads this, cells
    {
      cells.Length == space + HEADER && HeapOf(cells[..], first, chunks)
    }

    constructor (spaceSize: nat)
      ensures Valid() && fresh(cells) && space == spaceSize && chunks == [Chunk(spaceSize, true)]
      ensures cells.Length == spaceSize + 16
    {
      space := spaceSize;
      cells := new Header[spaceSize + HEADER](_ => Header(0, Null));
      first := At(0);
      chunks := [Chunk(spaceSize, true)];
      new;
      cells[0] := Header(space, Null);
      assert chunks[1..] == [];
    }

    /** The search loop of an allocation, over the free list. */
    method FindFree(need: nat, mode: FitMode) returns (prev: Link, result: Link, best: nat, ghost i: nat)
      requires Valid()
      ensures result == Null ==> NoneFits(chunks, |chunks|, need)
      ensures result != Null ==> Chosen(chunks, |chunks|, i, need, mode)
      ensures result != Null ==> result == At(Offset(chunks, i)) && prev == LastBefore(chunks, i) && best == chunks[i].size
    {
      hide Holds, Total, NextFree, LastFree;
      prev, result, best, i := Null, Null, 0, 0;
      var prevIter, it := Null, first;
      ghost var k: nat := 0;
      AtStart(chunks);
      while it != Null
        invariant k <= |chunks| && it == ListFrom(chunks, k) && prevIter == LastBefore(chunks, k)
        invariant result == Null ==> NoneFits(chunks, k, need)
        invariant result != Null ==> !mode.FirstFit? && Chosen(chunks, k, i, need, mode)
        invariant result != Null ==> result == At(Offset(chunks, i)) && prev == LastBefore(chunks, i) && best == chunks[i].size
        decreases |chunks| - k
      {
        ghost var j := NextInList(cells[..], chunks, k);
        AtBlock(cells[..], chunks, j);
        Consider(chunks, k, j, i, need, mode, result != Null);
        var blockSize := cells[it.off].size;
        if blockSize >= need {
          if mode.FirstFit? {
            prev, result, best, i := prevIter, it, blockSize, j;
            k := j + 1;
            break;
          } else if mode.BestFit? && (result == Null || blockSize < best) {
            prev, result, best, i := prevIter, it, blockSize, j;
          } else if mode.WorstFit? && (result == Null || blockSize > best) {
            prev, result, best, i := prevIter, it, blockSize, j;
          }
        }
        prevIter := it;
        it := cells[it.off].next;
        k := j + 1;
      }
      if it == Null { NothingBehind(chunks, k, i, need, mode, result != Null); }
    }

    /** The block is cut if a header and a byte would be left; the list and its head are redirected past it. */
    method Carve(prev: Link, at: nat, best: nat, size: nat, ghost i: nat)
      requires Valid() && i < |chunks| && chunks[i].free && at == Offset(chunks, i) && prev == LastBefore(chunks, i)
      requires best == chunks[i].size && best >= size + HEADER
      modifies this`first, this`chunks, cells
      ensures Valid() && chunks == old(chunks[..i]) + (Carved(old(chunks[i]), size) + old(chunks[i + 1..]))
      ensures forall j :: 0 <= j < cells.Length && prev != At(j) && !(at <= j < at + HEADER + best) ==> cells[j] == old(cells[j])
    {
      hide NoTwoFree, Live, Carved, Holds, NextFree, LastFree, Total;
      ghost var pre, c, post := chunks[..i], chunks[i], chunks[i + 1..];
      ghost var before, mid := cells[..], Carved(c, size);
      AtBlock(before, chunks, i);
      CarvedHeaders(before, pre, c, post, size);
      CarvedHead(pre, c, post, size);
      CarvedShape(pre, c, post, size);
      var remaining := best - size;
      var newBlock := Null;
      var behind := cells[at].next;
      if remaining >= HEADER + 1 {
        var cut := at + HEADER + size;
        cells[cut] := Header(remaining - HEADER, behind);
        cells[at] := Header(size, cells[at].next);
        newBlock := At(cut);
      }
      if prev != Null {
        cells[prev.off] := Header(cells[prev.off].size, if newBlock != Null then newBlock else cells[at].next);
      }
      if first == At(at) {
        first := if newBlock != Null then newBlock else cells[at].next;
      }
      cells[at] := Header(cells[at].size, Trusted);
      assert cells[..] == CarvedCells(before, prev, at, size);
      chunks := pre + (mid + post);
    }

    /**
     Allocation refuses a request unless a free block has the request and a header's worth of
     bytes. The pointer is sixteen bytes into the chosen block, which now belongs to the caller.
     */
    method Allocate(size: nat, mode: FitMode) returns (at: int, ghost i: nat)
      requires Valid()
      modifies this`first, this`chunks, cells
      ensures Valid()
      ensures at == -1 <==> forall j :: 0 <= j < |old(chunks)| ==> !(old(chunks)[j].free && old(chunks)[j].size >= size + 16)
      ensures at == -1 ==> first == old(first) && chunks == old(chunks) && cells[..] == old(cells[..])
      ensures at != -1 ==> i < |old(chunks)| && at == BytesBefore(old(chunks), i) + 16
      ensures at != -1 ==> CutAt16(old(chunks), i, size, chunks)
      ensures at != -1 ==>
                && Chosen(old(chunks), |old(chunks)|, i, size + HEADER, mode) && at == Offset(old(chunks), i) + HEADER
                && chunks == old(chunks[..i]) + (Carved(old(chunks[i]), size) + old(chunks[i + 1..]))
      ensures at != -1 ==>
                var x := (at - HEADER, Carved(old(chunks[i]), size)[0].size);
                x.1 >= size && x !in old(Live(chunks, 0)) && Live(chunks, 0) == old(Live(chunks, 0)) + {x}
      ensures KeptBytes(old(Live(chunks, 0)), old(cells[..]), cells[..])
    {
      hide Holds, NextFree, LastFree, Total, Live, NoTwoFree;
      var prev, block, best;
      prev, block, best, i := FindFree(size + HEADER, mode);
      if block == Null { return -1, i; }
      ghost var pre, c, post := chunks[..i], chunks[i], chunks[i + 1..];
      ghost var before, was := cells[..], chunks;
      AtBlock(before, chunks, i);
      CarvedShape(pre, c, post, size);
      NotLive(pre, c, post, (block.off, Carved(c, size)[0].size));
      Carve(prev, block.off, best, size, i);
      Untouched(pre, c, post, before, cells[..]);
      OffsetBytes(was, i);
      CutNumbers(was, i, size);
      at := block.off + HEADER;
    }

    /** The first allocation of a fresh heap: granted exactly if the bytes asked for and sixteen more are there. */
    static method FirstAllocation(space: nat, size: nat, mode: FitMode) returns (heap: SortedHeap, at: int)
      ensures fresh(heap) && heap.Valid() && heap.space == space
      ensures at == if size + 16 <= space then 16 else -1
      ensures heap.chunks == if size + 16 > space then [Chunk(space, true)]
                             else if size + 17 <= space then [Chunk(size, false), Chunk(space - size - 16, true)]
                             else [Chunk(space, false)]
    {
      heap := new SortedHeap(space);
      ghost var i;
      at, i := heap.Allocate(size, mode);
    }

    // ----- the walk over all blocks -----

    /** A position of the walk: block k, and the first free block from there on. */
    ghost predicate AtPosition(current: Link, freePtr: Link, k: nat)
      reads this, cells
    {
      Shaped() && k <= |chunks| && freePtr == ListFrom(chunks, k) &&
      current == if k < |chunks| then At(Offset(chunks, k)) else Null
    }

    method Advance(current: Link, freePtr: Link, ghost k: nat) returns (current': Link, freePtr': Link)
      requires current != Null && AtPosition(current, freePtr, k)
      ensures AtPosition(current', freePtr', k + 1)
    {
      hide Holds, NextFree, LastFree, Total;
      AtBlock(cells[..], chunks, k);
      ListAhead(chunks, k + 1);
      freePtr' := if current == freePtr then cells[freePtr.off].next else freePtr;
      var behind := current.off + HEADER + cells[current.off].size;
      Visible(chunks, k + 1);
      current' := if space <= behind then Null else At(behind);
    }

    method GetBlocksInfo() returns (info: seq<(nat, bool)>)
      requires Valid()
      ensures |info| == |chunks| && forall k :: 0 <= k < |chunks| ==> info[k] == (chunks[k].size, !chunks[k].free)
    {
      hide Holds, NextFree, LastFree, Total;
      info := [];
      var current, freePtr := At(0), first;
      AtStart(chunks);
      while current != Null
        invariant |info| <= |chunks| && AtPosition(current, freePtr, |info|)
        invariant forall k :: 0 <= k < |info| ==> info[k] == (chunks[k].size, !chunks[k].free)
        decreases |chunks| - |info|
      {
        AtBlock(cells[..], chunks, |info|);
        ListAhead(chunks, |info| + 1);
        ghost var k := |info|;
        info := info + [(cells[current.off].size, current != freePtr)];
        current, freePtr := Advance(current, freePtr, k);
      }
    }

    /** The walk that looks for the free block before block i; if no block starts there, it goes to the end. */
    method PreviousFree(block: nat, ghost i: nat) returns (prev: Link)
      requires Valid() && i <= |chunks|
      requires if i < |chunks| then block == Offset(chunks, i) else forall k :: 0 <= k < |chunks| ==> Offset(chunks, k) != block
      ensures prev == LastBefore(chunks, i)
    {
      hide Holds, NextFree, LastFree, Total;
      prev := Null;
      var current, freePtr := At(0), first;
      ghost var k: nat := 0;
      AtStart(chunks);
      while current != Null
        invariant k <= i && AtPosition(current, freePtr, k) && prev == LastBefore(chunks, k)
        decreases i - k
      {
        if current == At(block) { break; }
        if k < i { OffsetGrows(chunks, k, i); }
        AtBlock(cells[..], chunks, k);
        ListAhead(chunks, k + 1);
        if current == freePtr { prev := current; }
        current, freePtr := Advance(current, freePtr, k);
        k := k + 1;
      }
      if k < i { OffsetGrows(chunks, k, i); }
    }

    // ----- release -----

    /** Two blocks become one if the left one ends where the right one starts. */
    method TryMerge(left: Link, right: Link) returns (merged: bool)
      requires InMemory(cells[..], left) && InMemory(cells[..], right)
      modifies cells
      ensures merged <==> Touching(old(cells[..]), left, right)
      ensures cells[..] == Merged(old(cells[..]), left, right)
    {
      if left == Null || right == Null {
        return false;
      }
      var leftSize, rightSize := cells[left.off].size, cells[right.off].size;
      if left.off + HEADER + leftSize == right.off {
        ghost var before := cells[..];
        var newSize := leftSize + rightSize + HEADER;
        cells[left.off] := Header(newSize, cells[left.off].next);
        cells[left.off] := Header(newSize, cells[right.off].next);
        assert cells[..] == JoinedCells(before, left.off, right.off);
        return true;
      }
      return false;
    }

    /** The two merges of a release, the left neighbour first. */
    method MergeBoth(prev: Link, block: nat, next: Link)
      requires InMemory(cells[..], prev) && block < cells.Length && InMemory(cells[..], next)
      modifies cells
      ensures cells[..] == MergedBoth(old(cells[..]), prev, block, next)
    {
      hide Touching, JoinedCells;
      var merged := TryMerge(prev, At(block));
      if merged {
        merged := TryMerge(prev, next);
      } else {
        merged := TryMerge(At(block), next);
      }
    }

    /**
     The pointer of an occupied block frees it and joins it with a free neighbour on either
     side. A block whose pointer word is not the trusted memory is refused, provided there is a
     logger to tell. Without one the list is led to it all the same, and this is no heap any more.
     */
    method Deallocate(at: nat, logging: bool) returns (ok: bool, ghost x: (nat, nat))
      requires Valid() && HEADER <= at < HEADER + cells.Length
      modifies this`first, this`chunks, cells
      ensures ok <==> !(old(cells[at - HEADER].next) != Trusted && logging)
      ensures !ok ==> first == old(first) && chunks == old(chunks) && cells[..] == old(cells[..])
      ensures ok && OccupiedAt(old(chunks), at - HEADER) ==>
                && Valid() && x.0 == at - HEADER && x in old(Live(chunks, 0)) && Live(chunks, 0) == old(Live(chunks, 0)) - {x}
                && KeptBytes(Live(chunks, 0), old(cells[..]), cells[..])
      ensures ok && !OccupiedAt(old(chunks), at - HEADER) ==>
                && chunks == old(chunks)
                && Astray(old(cells[..]), old(first), chunks, at - HEADER, cells[..], first)
                && forall cs :: !HeapOf(cells[..], first, cs)
    {
      hide NextFree, LastFree, Total, Live, NoTwoFree, MergedBoth, ShapeOf, Astray, KeptBytes, OccupiedAt, FreeAt, LastBefore, Offset;
      x := (0, 0);
      var block := at - HEADER;
      if cells[block].next != Trusted {
        if logging { return false, x; }
      }
      ghost var before, first0, was := cells[..], first, chunks;
      ghost var i := Position(chunks, block);
      var prev := PreviousFree(block, i);
      LinksInMemory(before, first, chunks, i);
      var next := if prev != Null then cells[prev.off].next else first;
      if prev != Null { cells[prev.off] := Header(cells[prev.off].size, At(block)); }
      cells[block] := Header(cells[block].size, next);
      assert cells[..] == LinkedCells(before, prev, block, next);
      MergeBoth(prev, block, next);
      if (prev == Null && first.At? && first.off > block) || first == Null {
        first := At(block);
      }
      if i < |chunks| && !chunks[i].free {
        x, chunks := ReleaseOccupied(before, first0, was, i);
      } else {
        ReleaseAstray(before, first0, was, i, block);
      }
      ok := true;
    }
  }

  /** A fresh heap asked for all the bytes it could give refuses, though the block would be given whole. */
  lemma ExactFitRefused(space: nat)
    ensures var c := Chunk(space, true);
            NoneFits([c], 1, space + HEADER) && Fits(c, space) && Carved(c, space) == [Chunk(space, false)]
  {
  }

  /** One more free block met by the search: the candidate stands or gives way. */
  lemma {:induction false} Consider(chunks: seq<Chunk>, k: nat, j: nat, i: nat, need: nat, mode: FitMode, found: bool)
    requires k <= j < |chunks| && chunks[j].free && forall x :: k <= x < j ==> !chunks[x].free
    requires if found then Chosen(chunks, k, i, need, mode) && !mode.FirstFit? else NoneFits(chunks, k, need)
    ensures !found && !Fits(chunks[j], need) ==> NoneFits(chunks, j + 1, need)
    ensures found && !Fits(chunks[j], need) ==> Chosen(chunks, j + 1, i, need, mode)
    ensures !found && Fits(chunks[j], need) ==> Chosen(chunks, j + 1, j, need, mode)
    ensures !found && Fits(chunks[j], need) && mode.FirstFit? ==> Chosen(chunks, |chunks|, j, need, mode)
    ensures found && Fits(chunks[j], need) ==>
              var i' := if mode.BestFit? then (if chunks[j].size < chunks[i].size then j else i)
                        else if chunks[j].size > chunks[i].size then j else i;
              Chosen(chunks, j + 1, i', need, mode)
  {
  }

  lemma {:induction false} NothingBehind(chunks: seq<Chunk>, k: nat, i: nat, need: nat, mode: FitMode, found: bool)
    requires k <= |chunks| && ListFrom(chunks, k) == Null
    requires if found then Chosen(chunks, k, i, need, mode) else NoneFits(chunks, k, need)
    ensures if found then Chosen(chunks, |chunks|, i, need, mode) else NoneFits(chunks, |chunks|, need)
  {
    NextFreeNull(chunks[k..], Offset(chunks, k));
    forall x | k <= x < |chunks|
      ensures !chunks[x].free
    {
      assert chunks[x] in chunks[k..];
    }
  }

  ghost predicate KeptBytes(live: set<(nat, nat)>, before: seq<Header>, after: seq<Header>) {
    |before| == |after| &&
    forall x, j {:trigger x in live, after[j]} ::
      x in live && x.0 <= j < x.0 + HEADER + x.1 && j < |after| ==> after[j] == before[j]
  }

  lemma {:induction false} NotLive(pre: seq<Chunk>, c: Chunk, post: seq<Chunk>, x: (nat, nat))
    requires c.free && x.0 == Total(pre)
    ensures x !in Live(pre + ([c] + post), 0)
  {
    hide Live, Total;
    Composed(pre, [c], post);
    SingleLive(c, post, Total(pre));
    SingleChunk(c, post, Total(pre));
    if x in Live(pre, 0) { LiveInBounds(pre, 0, x); }
    if x in Live(post, Total(pre) + Total([c])) { LiveInBounds(post, Total(pre) + Total([c]), x); }
  }

  /** A heap changed only inside free block c and at the free block before it: the occupied ones keep their bytes. */
  lemma {:induction false} Untouched(pre: seq<Chunk>, c: Chunk, post: seq<Chunk>, before: seq<Header>,
          after: seq<Header>)
    requires c.free && |before| == |after|
    requires forall j :: 0 <= j < |after| && LastFree(pre, 0) != At(j) && !(Total(pre) <= j < Total(pre) + HEADER + c.size) ==> after[j] == before[j]
    ensures KeptBytes(Live(pre + ([c] + post), 0), before, after)
  {
    hide Live, Total, LastFree;
    var live := Live(pre + ([c] + post), 0);
    forall x, j {:trigger x in live, after[j]} | x in live && x.0 <= j < x.0 + HEADER + x.1 && j < |after|
      ensures after[j] == before[j]
    {
      Composed(pre, [c], post);
      SingleLive(c, post, Total(pre));
      SingleChunk(c, post, Total(pre));
      LastFreeInBounds(pre, 0);
      if x in Live(pre, 0) {
        LiveInBounds(pre, 0, x);
        if LastFree(pre, 0) == At(j) { LastFreeNotLive(pre, 0, x, j); }
      } else {
        LiveInBounds(post, Total(pre) + Total([c]), x);
      }
    }
  }

  lemma {:induction false} LastFreeNotLive(chunks: seq<Chunk>, at: nat, x: (nat, nat), p: nat)
    requires LastFree(chunks, at) == At(p) && x in Live(chunks, at)
    ensures !(x.0 <= p < x.0 + HEADER + x.1)
  {
    var behind := at + HEADER + chunks[0].size;
    LastFreeInBounds(chunks[1..], behind);
    if x in Live(chunks[1..], behind) {
      LiveInBounds(chunks[1..], behind, x);
      if LastFree(chunks[1..], behind) != Null { LastFreeNotLive(chunks[1..], behind, x, p); }
    }
  }

  /** A free list from block k on starts at block k or later. */
  lemma {:induction false} ListAhead(chunks: seq<Chunk>, k: nat)
    requires k <= |chunks|
    ensures ListFrom(chunks, k) == Null || (ListFrom(chunks, k).At? && ListFrom(chunks, k).off >= Offset(chunks, k))
  {
    NextBeyond(chunks[k..], Offset(chunks, k));
  }

  lemma {:induction false} OffsetGrows(chunks: seq<Chunk>, k: nat, i: nat)
    requires k < i <= |chunks|
    ensures Offset(chunks, k) + HEADER + chunks[k].size <= Offset(chunks, i)
  {
    assert chunks[..i] == chunks[..k] + ([chunks[k]] + chunks[k + 1..i]);
    TotalAppend(chunks[..k], [chunks[k]] + chunks[k + 1..i]);
    SingleChunk(chunks[k], chunks[k + 1..i], 0);
  }

  /** Every block but the first starts where the walk still looks. */
  lemma {:induction false} Visible(chunks: seq<Chunk>, k: nat)
    requires 1 <= k <= |chunks| && LastVisible(chunks)
    ensures k < |chunks| ==> Offset(chunks, k) + HEADER < Total(chunks)
    ensures k == |chunks| ==> Offset(chunks, k) == Total(chunks)
  {
    hide Total;
    assert chunks[..|chunks|] == chunks;
    if k < |chunks| {
      OffsetGrows(chunks, |chunks| - 1, |chunks|);
      if k < |chunks| - 1 { OffsetGrows(chunks, k, |chunks| - 1); }
    }
  }
}
