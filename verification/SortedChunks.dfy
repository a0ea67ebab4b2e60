/**
 What the sorted-list allocator keeps in its memory: blocks one after another, the free ones
 threaded into a list by address.
 */
module SortedChunks {
  import opened Links

  // block_metadata_size: a size word and a pointer word.
  const HEADER := 16

  /** The two words of a block header; an occupied block's pointer word is the trusted memory. */
  datatype Header = Header(size: nat, next: Link)

  /** A block: the bytes after its header, and whether it is free. */
  datatype Chunk = Chunk(size: nat, free: bool)

  function Total(chunks: seq<Chunk>): nat {
    if chunks == [] then 0 else HEADER + chunks[0].size + Total(chunks[1..])
  }

  /** The first free block at or after `at`; `after` if there is none. */
  function NextFree(chunks: seq<Chunk>, at: nat, after: Link): Link {
    if chunks == [] then after
    else if chunks[0].free then At(at)
    else NextFree(chunks[1..], at + HEADER + chunks[0].size, after)
  }

  ghost predicate HeaderOf(h: Header, c: Chunk, next: Link) {
    h.size == c.size && h.next == if c.free then next else Trusted
  }

  /**
   The headers found from `at` on describe the chunks: each free block's pointer word leads
   to the next free block, the last one's to `after`.
   */
  ghost predicate Holds(cells: seq<Header>, chunks: seq<Chunk>, at: nat, after: Link) {
    if chunks == [] then true
    else
      var behind := at + HEADER + chunks[0].size;
      && at < |cells| && HeaderOf(cells[at], chunks[0], NextFree(chunks[1..], behind, after))
      && Holds(cells, chunks[1..], behind, after)
  }

  ghost predicate NoTwoFree(chunks: seq<Chunk>) {
    |chunks| >= 2 ==> !(chunks[0].free && chunks[1].free) && NoTwoFree(chunks[1..])
  }

  ghost predicate NoneFree(chunks: seq<Chunk>) {
    forall c :: c in chunks ==> !c.free
  }

  // ----- composing stretches -----

  lemma {:induction false} TotalAppend(a: seq<Chunk>, b: seq<Chunk>)
    ensures Total(a + b) == Total(a) + Total(b)
  {
    if a == [] {
      assert a + b == b;
    } else {
      assert (a + b)[0] == a[0] && (a + b)[1..] == a[1..] + b;
      TotalAppend(a[1..], b);
    }
  }

  lemma {:induction false} NextFreeAppend(a: seq<Chunk>, b: seq<Chunk>, at: nat, after: Link)
    ensures NextFree(a + b, at, after) == NextFree(a, at, NextFree(b, at + Total(a), after))
  {
    if a == [] {
      assert a + b == b;
    } else {
      assert (a + b)[0] == a[0] && (a + b)[1..] == a[1..] + b;
      NextFreeAppend(a[1..], b, at + HEADER + a[0].size, after);
    }
  }

  lemma {:induction false} HoldsAppend(cells: seq<Header>, a: seq<Chunk>, b: seq<Chunk>, at: nat, after: Link)
    ensures Holds(cells, a + b, at, after)
            <==> Holds(cells, a, at, NextFree(b, at + Total(a), after)) && Holds(cells, b, at + Total(a), after)
  {
    if a == [] {
      assert a + b == b;
    } else {
      var behind := at + HEADER + a[0].size;
      assert (a + b)[0] == a[0] && (a + b)[1..] == a[1..] + b;
      NextFreeAppend(a[1..], b, behind, after);
      HoldsAppend(cells, a[1..], b, behind, after);
    }
  }

  /** Only the headers inside a stretch matter to it. */
  lemma {:induction false} Frame(before: seq<Header>, after: seq<Header>, chunks: seq<Chunk>, at: nat, link: Link)
    requires Holds(before, chunks, at, link) && |before| == |after|
    requires forall i :: at <= i < at + Total(chunks) && i < |after| ==> after[i] == before[i]
    ensures Holds(after, chunks, at, link)
  {
    if chunks != [] { Frame(before, after, chunks[1..], at + HEADER + chunks[0].size, link); }
  }

  lemma {:induction false} NoneFreeNext(chunks: seq<Chunk>, at: nat, after: Link)
    requires NoneFree(chunks)
    ensures NextFree(chunks, at, after) == after
  {
    if chunks != [] { NoneFreeNext(chunks[1..], at + HEADER + chunks[0].size, after); }
  }

  /** A stretch without free blocks does not care where the list goes on. */
  lemma {:induction false} NoneFreeHolds(cells: seq<Header>, chunks: seq<Chunk>, at: nat, link: Link, link': Link)
    requires NoneFree(chunks) && Holds(cells, chunks, at, link)
    ensures Holds(cells, chunks, at, link')
  {
    if chunks != [] { NoneFreeHolds(cells, chunks[1..], at + HEADER + chunks[0].size, link, link'); }
  }

  lemma {:induction false} NoTwoFreeAppend(a: seq<Chunk>, b: seq<Chunk>)
    ensures NoTwoFree(a + b)
            <==> NoTwoFree(a) && NoTwoFree(b) && !(a != [] && b != [] && a[|a| - 1].free && b[0].free)
  {
    if a == [] {
      assert a + b == b;
    } else {
      assert (a + b)[0] == a[0] && (a + b)[1..] == a[1..] + b;
      NoTwoFreeAppend(a[1..], b);
    }
  }

  // ----- the free list -----

  /** The last free block; null if there is none. */
  function LastFree(chunks: seq<Chunk>, at: nat): Link {
    if chunks == [] then Null
    else
      var later := LastFree(chunks[1..], at + HEADER + chunks[0].size);
      if later != Null then later else if chunks[0].free then At(at) else Null
  }

  lemma {:induction false} LastFreeAppend(a: seq<Chunk>, b: seq<Chunk>, at: nat)
    ensures var later := LastFree(b, at + Total(a));
            LastFree(a + b, at) == if later != Null then later else LastFree(a, at)
  {
    if a == [] {
      assert a + b == b;
    } else {
      assert (a + b)[0] == a[0] && (a + b)[1..] == a[1..] + b;
      LastFreeAppend(a[1..], b, at + HEADER + a[0].size);
    }
  }

  lemma {:induction false} LastFreeNull(chunks: seq<Chunk>, at: nat)
    requires LastFree(chunks, at) == Null
    ensures NoneFree(chunks)
  {
    if chunks != [] { LastFreeNull(chunks[1..], at + HEADER + chunks[0].size); }
  }

  lemma {:induction false} NoneFreeLast(chunks: seq<Chunk>, at: nat)
    requires NoneFree(chunks)
    ensures LastFree(chunks, at) == Null
  {
    if chunks != [] { NoneFreeLast(chunks[1..], at + HEADER + chunks[0].size); }
  }

  /** The stretch cut at its last free block. */
  lemma {:induction false} CutAtLast(chunks: seq<Chunk>, at: nat) returns (a: seq<Chunk>, f: Chunk, b: seq<Chunk>)
    requires LastFree(chunks, at) != Null
    ensures chunks == a + ([f] + b) && f.free && NoneFree(b) && LastFree(chunks, at) == At(at + Total(a))
  {
    var behind := at + HEADER + chunks[0].size;
    if LastFree(chunks[1..], behind) == Null {
      LastFreeNull(chunks[1..], behind);
      a, f, b := [], chunks[0], chunks[1..];
    } else {
      a, f, b := CutAtLast(chunks[1..], behind);
      a := [chunks[0]] + a;
      assert a[1..] + ([f] + b) == chunks[1..];
    }
  }

  /** The stretch cut at its first free block. */
  lemma {:induction false} CutAtNext(chunks: seq<Chunk>, at: nat) returns (a: seq<Chunk>, f: Chunk, b: seq<Chunk>)
    requires NextFree(chunks, at, Null) != Null
    ensures chunks == a + ([f] + b) && f.free && NoneFree(a) && NextFree(chunks, at, Null) == At(at + Total(a))
  {
    if chunks[0].free {
      a, f, b := [], chunks[0], chunks[1..];
    } else {
      a, f, b := CutAtNext(chunks[1..], at + HEADER + chunks[0].size);
      a := [chunks[0]] + a;
      assert a[1..] + ([f] + b) == chunks[1..];
    }
  }

  lemma {:induction false} NextFreeNull(chunks: seq<Chunk>, at: nat)
    requires NextFree(chunks, at, Null) == Null
    ensures NoneFree(chunks)
  {
    if chunks != [] { NextFreeNull(chunks[1..], at + HEADER + chunks[0].size); }
  }

  /** Once there is a free block, where the list starts does not depend on how it ends. */
  lemma {:induction false} NextFreeInside(chunks: seq<Chunk>, at: nat, x: Link, y: Link)
    requires LastFree(chunks, at) != Null
    ensures NextFree(chunks, at, x) == NextFree(chunks, at, y)
    ensures NextFree(chunks, at, x).At? && at <= NextFree(chunks, at, x).off < at + Total(chunks)
  {
    if !chunks[0].free { NextFreeInside(chunks[1..], at + HEADER + chunks[0].size, x, y); }
  }

  /** One chunk of a stretch, seen through the headers. */
  lemma {:induction false} HoldsAt(cells: seq<Header>, a: seq<Chunk>, c: Chunk, b: seq<Chunk>, at: nat, after: Link)
    requires Holds(cells, a + ([c] + b), at, after)
    ensures var p := at + Total(a); var behind := p + HEADER + c.size;
            p < |cells| && HeaderOf(cells[p], c, NextFree(b, behind, after)) && Holds(cells, b, behind, after)
  {
    HoldsAppend(cells, a, [c] + b, at, after);
    assert ([c] + b)[1..] == b;
  }

  lemma {:induction false} LastFreeInBounds(chunks: seq<Chunk>, at: nat)
    ensures LastFree(chunks, at) != Trusted
    ensures LastFree(chunks, at).At? ==> at <= LastFree(chunks, at).off && LastFree(chunks, at).off + HEADER <= at + Total(chunks)
  {
    if chunks != [] { LastFreeInBounds(chunks[1..], at + HEADER + chunks[0].size); }
  }

  /** In [lo, hi) nothing changes but the pointer word at p, which becomes link. */
  ghost predicate Redirected(before: seq<Header>, after: seq<Header>, lo: nat, hi: nat, p: Link, link: Link) {
    |before| == |after| &&
    forall i :: lo <= i < hi && i < |after| ==> after[i] == if p == At(i) then Header(before[i].size, link) else before[i]
  }

  /**
   The pointer word of the last free block is redirected: the stretch now leads elsewhere. A
   stretch without free blocks leads wherever the list goes on.
   */
  lemma {:induction false} Relink(before: seq<Header>, after: seq<Header>, chunks: seq<Chunk>, at: nat, link: Link,
          link': Link)
    requires Holds(before, chunks, at, link)
    requires Redirected(before, after, at, at + Total(chunks), LastFree(chunks, at), link')
    ensures Holds(after, chunks, at, link')
  {
    if chunks != [] {
      var behind := at + HEADER + chunks[0].size;
      LastFreeInBounds(chunks[1..], behind);
      if LastFree(chunks[1..], behind) == Null {
        LastFreeNull(chunks[1..], behind);
        NoneFreeNext(chunks[1..], behind, link');
      } else {
        NextFreeInside(chunks[1..], behind, link, link');
      }
      Relink(before, after, chunks[1..], behind, link, link');
    }
  }

  ghost predicate SameFrom(before: seq<Header>, after: seq<Header>, from: nat) {
    |before| == |after| && forall i :: from <= i < |after| ==> after[i] == before[i]
  }

  /** A stretch is exchanged for another over the same bytes, and the free block before it redirected. */
  lemma {:induction false} Exchange(before: seq<Header>, after: seq<Header>, pre: seq<Chunk>, was: seq<Chunk>,
          mid: seq<Chunk>, post: seq<Chunk>)
    requires Holds(before, pre + (was + post), 0, Null) && Total(mid) == Total(was)
    requires Holds(after, mid, Total(pre), NextFree(post, Total(pre) + Total(was), Null))
    requires SameFrom(before, after, Total(pre) + Total(was))
    requires Redirected(before, after, 0, Total(pre), LastFree(pre, 0), NextFree(mid + post, Total(pre), Null))
    ensures Holds(after, pre + (mid + post), 0, Null)
  {
    hide Holds, NextFree, LastFree, Redirected, Total;
    var start, end := Total(pre), Total(pre) + Total(was);
    HoldsAppend(before, pre, was + post, 0, Null);
    HoldsAppend(before, was, post, start, Null);
    Frame(before, after, post, end, Null);
    HoldsAppend(after, mid, post, start, Null);
    Relink(before, after, pre, 0, NextFree(was + post, start, Null), NextFree(mid + post, start, Null));
    HoldsAppend(after, pre, mid + post, 0, Null);
  }

  // ----- what the callers hold -----

  /** Where the occupied blocks start and how many bytes they have. */
  ghost function Live(chunks: seq<Chunk>, at: nat): set<(nat, nat)> {
    if chunks == [] then {}
    else (if chunks[0].free then {} else {(at, chunks[0].size)}) + Live(chunks[1..], at + HEADER + chunks[0].size)
  }

  lemma {:induction false} LiveAppend(a: seq<Chunk>, b: seq<Chunk>, at: nat)
    ensures Live(a + b, at) == Live(a, at) + Live(b, at + Total(a))
  {
    if a == [] {
      assert a + b == b;
    } else {
      assert (a + b)[0] == a[0] && (a + b)[1..] == a[1..] + b;
      LiveAppend(a[1..], b, at + HEADER + a[0].size);
    }
  }

  lemma {:induction false} LiveInBounds(chunks: seq<Chunk>, at: nat, x: (nat, nat))
    requires x in Live(chunks, at)
    ensures at <= x.0 && x.0 + HEADER + x.1 <= at + Total(chunks)
  {
    if x != (at, chunks[0].size) || chunks[0].free {
      LiveInBounds(chunks[1..], at + HEADER + chunks[0].size, x);
    }
  }

  /** Occupied blocks do not overlap. */
  lemma {:induction false} LiveApart(chunks: seq<Chunk>, at: nat, x: (nat, nat), y: (nat, nat))
    requires x in Live(chunks, at) && y in Live(chunks, at) && x != y
    ensures x.0 + HEADER + x.1 <= y.0 || y.0 + HEADER + y.1 <= x.0
  {
    var behind := at + HEADER + chunks[0].size;
    var first := (at, chunks[0].size);
    if x == first && !chunks[0].free {
      LiveInBounds(chunks[1..], behind, y);
    } else if y == first && !chunks[0].free {
      LiveInBounds(chunks[1..], behind, x);
    } else {
      LiveApart(chunks[1..], behind, x, y);
    }
  }

  /** Two heaps without neighbouring free blocks agree on the first block if they agree on the occupied ones. */
  lemma {:induction false} SameFirst(a: seq<Chunk>, b: seq<Chunk>, at: nat)
    requires NoTwoFree(a) && NoTwoFree(b) && a != [] && b != []
    requires Total(a) == Total(b) && Live(a, at) == Live(b, at)
    ensures a[0].size >= b[0].size && (b[0].free || !a[0].free) && (!b[0].free ==> a[0] == b[0])
    ensures a[0].free ==> b[0].free
  {
    var behindA, behindB := at + HEADER + a[0].size, at + HEADER + b[0].size;
    if !b[0].free {
      var x := (at, b[0].size);
      assert x in Live(a, at);
      if x in Live(a[1..], behindA) { LiveInBounds(a[1..], behindA, x); }
    } else if !a[0].free {
      var x := (at, a[0].size);
      assert x in Live(b, at);
      assert x in Live(b[1..], behindB);
      LiveInBounds(b[1..], behindB, x);
    } else if a[0].size < b[0].size {
      assert a[1..] != [];
      var x := (behindA, a[1].size);
      assert x in Live(a[1..], behindA);
      assert x in Live(b, at);
      LiveInBounds(b[1..], behindB, x);
    }
  }

  lemma {:induction false} TailLive(a: seq<Chunk>, b: seq<Chunk>, at: nat)
    requires a != [] && b != [] && a[0] == b[0] && Live(a, at) <= Live(b, at)
    ensures var behind := at + HEADER + a[0].size; Live(a[1..], behind) <= Live(b[1..], behind)
  {
    var behind := at + HEADER + a[0].size;
    forall x | x in Live(a[1..], behind)
      ensures x in Live(b[1..], behind)
    {
      LiveInBounds(a[1..], behind, x);
      assert x in Live(a, at);
    }
  }

  /** The occupied blocks determine the whole heap: what was allocated before leaves no trace. */
  lemma {:induction false} CanonicalForm(a: seq<Chunk>, b: seq<Chunk>, at: nat)
    requires NoTwoFree(a) && NoTwoFree(b) && Total(a) == Total(b) && Live(a, at) == Live(b, at)
    ensures a == b
  {
    if a == [] || b == [] {
      assert Total(a) == 0;
    } else {
      SameFirst(a, b, at);
      SameFirst(b, a, at);
      var behind := at + HEADER + a[0].size;
      TailLive(a, b, at);
      TailLive(b, a, at);
      CanonicalForm(a[1..], b[1..], behind);
    }
  }

  /** With nothing occupied, the heap is one free block over the whole arena. */
  lemma {:induction false} AllFreed(chunks: seq<Chunk>, space: nat)
    requires NoTwoFree(chunks) && Total(chunks) == space + HEADER && Live(chunks, 0) == {}
    ensures chunks == [Chunk(space, true)]
  {
    var whole := [Chunk(space, true)];
    assert whole[1..] == [];
    CanonicalForm(chunks, whole, 0);
  }
}
