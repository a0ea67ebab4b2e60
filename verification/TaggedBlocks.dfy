/**
 What the boundary-tag allocator keeps in its memory: a doubly linked list of the occupied
 blocks in address order, with the holes between them implicit.
 */
module TaggedBlocks {
  import opened Links

  // sizeof(block_metadata): the size, two list pointers and the owner.
  const HEADER := 32

  /** The header of an occupied block. */
  datatype Meta = Meta(size: nat, next: Link, prev: Link, owner: int)

  /** An occupied block: the bytes of the hole before it, and its own bytes behind the header. */
  datatype Tag = Tag(gap: nat, size: nat)

  function Length(t: Tag): nat {
    t.gap + HEADER + t.size
  }

  function Total(tags: seq<Tag>): nat {
    if tags == [] then 0 else Length(tags[0]) + Total(tags[1..])
  }

  /** The first block of a stretch that starts at `at`; `after` if the stretch is empty. */
  function FirstOf(tags: seq<Tag>, at: nat, after: Link): Link {
    if tags == [] then after else At(at + tags[0].gap)
  }

  /** The last block of a stretch; `prev` if the stretch is empty. */
  function LastOf(tags: seq<Tag>, at: nat, prev: Link): Link {
    if tags == [] then prev
    else LastOf(tags[1..], at + Length(tags[0]), At(at + tags[0].gap))
  }

  /**
   The headers from `at` on describe the blocks: each one's `next` is the block after it, its
   `prev` the block before it; the ends of the stretch are tied to prev and after.
   */
  ghost predicate Holds(cells: seq<Meta>, tags: seq<Tag>, at: nat, prev: Link, after: Link, id: int) {
    if tags == [] then true
    else
      var off, behind := at + tags[0].gap, at + Length(tags[0]);
      && off < |cells| && cells[off] == Meta(tags[0].size, FirstOf(tags[1..], behind, after), prev, id)
      && Holds(cells, tags[1..], behind, At(off), after, id)
  }

  /** No hole between blocks is too small for a header. */
  ghost predicate GapsUsable(tags: seq<Tag>) {
    forall t :: t in tags ==> t.gap == 0 || t.gap >= HEADER
  }

  // ----- composing stretches -----

  lemma {:induction false} TotalAppend(a: seq<Tag>, b: seq<Tag>)
    ensures Total(a + b) == Total(a) + Total(b)
  {
    if a == [] {
      assert a + b == b;
    } else {
      assert (a + b)[0] == a[0] && (a + b)[1..] == a[1..] + b;
      TotalAppend(a[1..], b);
    }
  }

  lemma {:induction false} LastOfAppend(a: seq<Tag>, b: seq<Tag>, at: nat, prev: Link)
    ensures LastOf(a + b, at, prev) == LastOf(b, at + Total(a), LastOf(a, at, prev))
  {
    if a == [] {
      assert a + b == b;
    } else {
      assert (a + b)[0] == a[0] && (a + b)[1..] == a[1..] + b;
      LastOfAppend(a[1..], b, at + Length(a[0]), At(at + a[0].gap));
    }
  }

  lemma {:induction false} FirstOfAppend(a: seq<Tag>, b: seq<Tag>, at: nat, after: Link)
    ensures FirstOf(a + b, at, after) == FirstOf(a, at, FirstOf(b, at + Total(a), after))
  {
    if a == [] { assert a + b == b; }
  }

  lemma {:induction false} HoldsAppend(cells: seq<Meta>, a: seq<Tag>, b: seq<Tag>, at: nat, prev: Link, after: Link,
          id: int)
    ensures Holds(cells, a + b, at, prev, after, id)
            <==> Holds(cells, a, at, prev, FirstOf(b, at + Total(a), after), id)
                 && Holds(cells, b, at + Total(a), LastOf(a, at, prev), after, id)
  {
    if a == [] {
      assert a + b == b;
    } else {
      assert (a + b)[0] == a[0] && (a + b)[1..] == a[1..] + b;
      FirstOfAppend(a[1..], b, at + Length(a[0]), after);
      HoldsAppend(cells, a[1..], b, at + Length(a[0]), At(at + a[0].gap), after, id);
    }
  }

  lemma {:induction false} LastOfInBounds(tags: seq<Tag>, at: nat, prev: Link)
    ensures tags == [] ==> LastOf(tags, at, prev) == prev
    ensures tags != [] ==> LastOf(tags, at, prev).At? && at <= LastOf(tags, at, prev).off
                           && LastOf(tags, at, prev).off + HEADER <= at + Total(tags)
  {
    if tags != [] { LastOfInBounds(tags[1..], at + Length(tags[0]), At(at + tags[0].gap)); }
  }

  /** In [lo, hi) nothing changes but the `next` pointer at p, which becomes link. */
  ghost predicate NextRedirected(before: seq<Meta>, after: seq<Meta>, lo: nat, hi: nat, p: Link, link: Link) {
    |before| == |after| &&
    forall i :: lo <= i < hi && i < |after| ==> after[i] == if p == At(i) then before[i].(next := link) else before[i]
  }

  /** From `from` on nothing changes but the `prev` pointer at p, which becomes link. */
  ghost predicate PrevRedirected(before: seq<Meta>, after: seq<Meta>, from: nat, p: Link, link: Link) {
    |before| == |after| &&
    forall i :: from <= i < |after| ==> after[i] == if p == At(i) then before[i].(prev := link) else before[i]
  }

  /** The stretch before a change leads on to another block. */
  lemma {:induction false} RelinkNext(before: seq<Meta>, after: seq<Meta>, tags: seq<Tag>, at: nat, prev: Link,
          link: Link, link': Link, id: int)
    requires Holds(before, tags, at, prev, link, id)
    requires NextRedirected(before, after, at, at + Total(tags), LastOf(tags, at, Null), link')
    ensures Holds(after, tags, at, prev, link', id)
  {
    if tags != [] {
      var behind := at + Length(tags[0]);
      LastOfInBounds(tags[1..], behind, At(at + tags[0].gap));
      LastOfInBounds(tags[1..], behind, Null);
      LastOfPrev(tags[1..], behind, At(at + tags[0].gap), Null);
      RelinkNext(before, after, tags[1..], behind, At(at + tags[0].gap), link, link', id);
    }
  }

  lemma {:induction false} LastOfPrev(tags: seq<Tag>, at: nat, prev: Link, prev': Link)
    ensures tags != [] ==> LastOf(tags, at, prev) == LastOf(tags, at, prev')
  {
  }

  /** A stretch reads no header before its first block. */
  lemma {:induction false} Frame(before: seq<Meta>, after: seq<Meta>, tags: seq<Tag>, at: nat, prev: Link,
          link: Link, id: int)
    requires Holds(before, tags, at, prev, link, id) && |before| == |after|
    requires forall i :: at <= i < |after| ==> after[i] == before[i]
    ensures Holds(after, tags, at, prev, link, id)
  {
    if tags != [] {
      Frame(before, after, tags[1..], at + Length(tags[0]), At(at + tags[0].gap), link, id);
    }
  }

  /** The hole before the first block of a stretch, so many bytes longer. */
  function Shifted(tags: seq<Tag>, d: int): seq<Tag>
    requires tags != [] ==> tags[0].gap + d >= 0
  {
    if tags == [] then [] else [tags[0].(gap := tags[0].gap + d)] + tags[1..]
  }

  lemma {:induction false} OneHolds(cells: seq<Meta>, tag: Tag, rest: seq<Tag>, at: nat, prev: Link, id: int)
    requires at + tag.gap < |cells|
    requires cells[at + tag.gap] == Meta(tag.size, FirstOf(rest, at + Length(tag), Null), prev, id)
    requires Holds(cells, rest, at + Length(tag), At(at + tag.gap), Null, id)
    ensures Holds(cells, [tag] + rest, at, prev, Null, id)
    ensures FirstOf([tag] + rest, at, Null) == At(at + tag.gap)
  {
    assert ([tag] + rest)[1..] == rest;
  }

  lemma {:induction false} OneHeld(cells: seq<Meta>, t: Tag, rest: seq<Tag>, at: nat, prev: Link, id: int)
    requires Holds(cells, [t] + rest, at, prev, Null, id)
    ensures at + t.gap < |cells| && cells[at + t.gap] == Meta(t.size, FirstOf(rest, at + Length(t), Null), prev, id)
    ensures Holds(cells, rest, at + Length(t), At(at + t.gap), Null, id)
  {
    assert ([t] + rest)[1..] == rest;
  }

  /** The stretch behind a change is led to from another block, across another hole. */
  lemma {:induction false} RelinkPrev(before: seq<Meta>, after: seq<Meta>, tags: seq<Tag>, at: nat, at': nat,
          prev: Link, prev': Link, id: int)
    requires Holds(before, tags, at, prev, Null, id)
    requires tags != [] ==> tags[0].gap + at - at' >= 0
    requires tags != [] ==> PrevRedirected(before, after, at + tags[0].gap, FirstOf(tags, at, Null), prev')
    ensures Holds(after, Shifted(tags, at - at'), at', prev', Null, id)
    ensures FirstOf(Shifted(tags, at - at'), at', Null) == FirstOf(tags, at, Null)
  {
    hide Holds;
    if tags == [] {
      EmptyHolds(after, at', prev', Null, id);
    } else {
      var t, rest := tags[0], tags[1..];
      assert tags == [t] + rest;
      OneHeld(before, t, rest, at, prev, id);
      Frame(before, after, rest, at + Length(t), At(at + t.gap), Null, id);
      var t' := t.(gap := t.gap + at - at');
      assert at' + Length(t') == at + Length(t);
      OneHolds(after, t', rest, at', prev', id);
    }
  }

  // ----- what the callers hold -----

  /** Where the occupied blocks start and how many bytes they have. */
  ghost function Live(tags: seq<Tag>, at: nat): set<(nat, nat)> {
    if tags == [] then {}
    else
      var off, behind := at + tags[0].gap, at + Length(tags[0]);
      {(off, tags[0].size)} + Live(tags[1..], behind)
  }

  lemma {:induction false} LiveCons(t: Tag, rest: seq<Tag>, at: nat)
    ensures Live([t] + rest, at) == {(at + t.gap, t.size)} + Live(rest, at + Length(t))
    ensures Total([t] + rest) == Length(t) + Total(rest)
  {
    assert ([t] + rest)[1..] == rest;
  }

  lemma {:induction false} LiveAppend(a: seq<Tag>, b: seq<Tag>, at: nat)
    ensures Live(a + b, at) == Live(a, at) + Live(b, at + Total(a))
  {
    if a == [] {
      assert a + b == b;
    } else {
      var behind, end := at + Length(a[0]), at + Total(a);
      assert (a + b)[0] == a[0] && (a + b)[1..] == a[1..] + b;
      assert end == behind + Total(a[1..]);
      LiveAppend(a[1..], b, behind);
      assert Live(a + b, at) == {(at + a[0].gap, a[0].size)} + Live(a[1..] + b, behind);
      assert Live(a, at) == {(at + a[0].gap, a[0].size)} + Live(a[1..], behind);
    }
  }

  lemma {:induction false} LiveInBounds(tags: seq<Tag>, at: nat, x: (nat, nat))
    requires x in Live(tags, at)
    ensures at <= x.0 && x.0 + HEADER + x.1 <= at + Total(tags)
  {
    if x != (at + tags[0].gap, tags[0].size) { LiveInBounds(tags[1..], at + Length(tags[0]), x); }
  }

  /** Occupied blocks do not overlap. */
  lemma {:induction false} LiveApart(tags: seq<Tag>, at: nat, x: (nat, nat), y: (nat, nat))
    requires x in Live(tags, at) && y in Live(tags, at) && x != y
    ensures x.0 + HEADER + x.1 <= y.0 || y.0 + HEADER + y.1 <= x.0
  {
    var behind, first := at + Length(tags[0]), (at + tags[0].gap, tags[0].size);
    if x == first {
      LiveInBounds(tags[1..], behind, y);
    } else if y == first {
      LiveInBounds(tags[1..], behind, x);
    } else {
      LiveApart(tags[1..], behind, x, y);
    }
  }

  lemma {:induction false} LiveShifted(tags: seq<Tag>, at: nat, at': nat)
    requires tags != [] ==> tags[0].gap + at - at' >= 0
    ensures Live(Shifted(tags, at - at'), at') == Live(tags, at)
    ensures tags != [] ==> at' + Total(Shifted(tags, at - at')) == at + Total(tags)
  {
    if tags != [] { assert Shifted(tags, at - at')[1..] == tags[1..]; }
  }

  lemma {:induction false} OnlyStart(tags: seq<Tag>, x: (nat, nat))
    requires x in Live(tags, 0)
    ensures forall y :: y in Live(tags, 0) && y.0 == x.0 ==> y == x
  {
    forall y | y in Live(tags, 0) && y.0 == x.0
      ensures y == x
    {
      if y != x { LiveApart(tags, 0, x, y); }
    }
  }

  /** The position in the list of a block the caller holds. */
  lemma {:induction false} LiveBlock(tags: seq<Tag>, at: nat, x: (nat, nat)) returns (i: nat)
    requires x in Live(tags, at)
    ensures i < |tags| && tags[i].size == x.1 && at + Total(tags[..i]) + tags[i].gap == x.0
  {
    if x == (at + tags[0].gap, tags[0].size) {
      i := 0;
    } else {
      var k := LiveBlock(tags[1..], at + Length(tags[0]), x);
      i := k + 1;
      assert tags[..i][1..] == tags[1..][..k];
    }
  }

  lemma {:induction false} LastOfLive(tags: seq<Tag>, at: nat, prev: Link) returns (x: (nat, nat))
    requires tags != []
    ensures x in Live(tags, at) && LastOf(tags, at, prev) == At(x.0)
  {
    if tags[1..] == [] {
      x := (at + tags[0].gap, tags[0].size);
    } else {
      x := LastOfLive(tags[1..], at + Length(tags[0]), At(at + tags[0].gap));
    }
  }

  // ----- one block more, one block less -----

  lemma {:induction false} EmptyHolds(cells: seq<Meta>, at: nat, prev: Link, after: Link, id: int)
    ensures Holds(cells, [], at, prev, after, id)
  {
  }

  lemma {:induction false} FirstInside(cells: seq<Meta>, tags: seq<Tag>, at: nat, prev: Link, id: int)
    requires Holds(cells, tags, at, prev, Null, id)
    ensures FirstOf(tags, at, Null).At? <==> tags != []
    ensures tags != [] ==> FirstOf(tags, at, Null) == At(at + tags[0].gap) && at + tags[0].gap < |cells|
  {
  }

  lemma {:induction false} LastHeader(cells: seq<Meta>, tags: seq<Tag>, at: nat, prev: Link, after: Link, id: int)
    requires tags != [] && Holds(cells, tags, at, prev, after, id)
    ensures LastOf(tags, at, prev).At? && LastOf(tags, at, prev).off < |cells|
    ensures cells[LastOf(tags, at, prev).off].next == after
    ensures cells[LastOf(tags, at, prev).off].size + LastOf(tags, at, prev).off + HEADER == at + Total(tags)
  {
    if tags[1..] != [] { LastHeader(cells, tags[1..], at + Length(tags[0]), At(at + tags[0].gap), after, id); }
  }

  /** What a stretch of the list and the rest behind it say about each other. */
  lemma {:induction false} Ends(cells: seq<Meta>, pre: seq<Tag>, rest: seq<Tag>, id: int)
    requires Holds(cells, pre + rest, 0, Trusted, Null, id)
    ensures var prev := LastOf(pre, 0, Trusted);
            if pre == [] then prev == Trusted && Total(pre) == 0
            else && prev.At? && prev.off < Total(pre) && prev.off < |cells|
                 && cells[prev.off].next == FirstOf(rest, Total(pre), Null)
                 && prev.off + HEADER + cells[prev.off].size == Total(pre)
    ensures Holds(cells, rest, Total(pre), LastOf(pre, 0, Trusted), Null, id)
  {
    LastOfInBounds(pre, 0, Trusted);
    HoldsAppend(cells, pre, rest, 0, Trusted, Null, id);
    if pre != [] { LastHeader(cells, pre, 0, Trusted, FirstOf(rest, Total(pre), Null), id); }
  }

  /** After the next pointer of its last block is redirected, a stretch leads on to link. */
  lemma {:induction false} PreRelinked(before: seq<Meta>, after: seq<Meta>, pre: seq<Tag>, rest: seq<Tag>, hi: nat,
          link: Link, id: int)
    requires Holds(before, pre + rest, 0, Trusted, Null, id) && Total(pre) <= hi
    requires NextRedirected(before, after, 0, hi, LastOf(pre, 0, Trusted), link)
    ensures Holds(after, pre, 0, Trusted, link, id)
  {
    if pre == [] {
      EmptyHolds(after, 0, Trusted, link, id);
    } else {
      HoldsAppend(before, pre, rest, 0, Trusted, Null, id);
      LastOfPrev(pre, 0, Trusted, Null);
      RelinkNext(before, after, pre, 0, Trusted, FirstOf(rest, Total(pre), Null), link, id);
    }
  }

  /** After the prev pointer of its first block is redirected, a stretch hangs on prev', behind a hole from at' on. */
  lemma {:induction false} PostRelinked(before: seq<Meta>, after: seq<Meta>, post: seq<Tag>, from: nat, at: nat,
          at': nat, prev: Link, prev': Link, id: int)
    requires Holds(before, post, at, prev, Null, id)
    requires post != [] ==> post[0].gap + at - at' >= 0 && from <= at + post[0].gap
    requires PrevRedirected(before, after, from, FirstOf(post, at, Null), prev')
    ensures Holds(after, Shifted(post, at - at'), at', prev', Null, id)
    ensures FirstOf(Shifted(post, at - at'), at', Null) == FirstOf(post, at, Null)
  {
    RelinkPrev(before, after, post, at, at', prev, prev', id);
  }

  /** The headers after a block of size bytes is put at offset at, between prev and next. */
  function InsertedCells(cells: seq<Meta>, at: nat, size: nat, next: Link, prev: Link, id: int): (after: seq<Meta>)
    requires at < |cells|
    requires next.At? ==> at < next.off < |cells|
    requires prev.At? ==> prev.off < at
    ensures |after| == |cells|
  {
    var written := cells[at := Meta(size, next, prev, id)];
    var linked := if next.At? then written[next.off := written[next.off].(prev := At(at))] else written;
    if prev.At? then linked[prev.off := linked[prev.off].(next := At(at))] else linked
  }

  lemma {:induction false} InsertedFrame(cells: seq<Meta>, at: nat, size: nat, next: Link, prev: Link, id: int)
    requires at < |cells|
    requires next.At? ==> at < next.off < |cells|
    requires prev.At? ==> prev.off < at
    ensures var after := InsertedCells(cells, at, size, next, prev, id);
            && NextRedirected(cells, after, 0, at, prev, At(at))
            && PrevRedirected(cells, after, at + 1, next, At(at))
            && after[at] == Meta(size, next, prev, id)
  {
  }

  /** A block put at the start of a hole. */
  lemma {:induction false} InsertHeaders(cells: seq<Meta>, pre: seq<Tag>, post: seq<Tag>, size: nat, id: int)
    requires Holds(cells, pre + post, 0, Trusted, Null, id) && Total(pre) + HEADER + size <= |cells|
    requires post != [] ==> post[0].gap >= HEADER + size
    ensures var at := Total(pre); var next, prev := FirstOf(post, at, Null), LastOf(pre, 0, Trusted);
            && (next.At? ==> at < next.off < |cells|)
            && (prev.At? ==> prev.off < at && cells[prev.off].next == next)
            && (if prev.At? then pre != [] else prev == Trusted && pre == [])
            && Holds(InsertedCells(cells, at, size, next, prev, id), pre + ([Tag(0, size)] + Shifted(post, -HEADER - size)), 0, Trusted, Null, id)
  {
    hide Holds, FirstOf, LastOf, Total, Shifted, InsertedCells, PrevRedirected, NextRedirected;
    var at := Total(pre);
    var next, prev, tag := FirstOf(post, at, Null), LastOf(pre, 0, Trusted), Tag(0, size);
    var rest := Shifted(post, -HEADER - size);
    Ends(cells, pre, post, id);
    FirstInside(cells, post, at, prev, id);
    InsertedFrame(cells, at, size, next, prev, id);
    var after := InsertedCells(cells, at, size, next, prev, id);
    PreRelinked(cells, after, pre, post, at, At(at), id);
    PostRelinked(cells, after, post, at + 1, at, at + HEADER + size, prev, At(at), id);
    OneHolds(after, tag, rest, at, prev, id);
    HoldsAppend(after, pre, [tag] + rest, 0, Trusted, Null, id);
  }

  /** The headers after the block between prev and next is taken out of the list. */
  function RemovedCells(cells: seq<Meta>, next: Link, prev: Link): (after: seq<Meta>)
    requires next.At? ==> next.off < |cells|
    requires prev.At? ==> prev.off < |cells|
    ensures |after| == |cells|
  {
    var linked := if prev.At? then cells[prev.off := cells[prev.off].(next := next)] else cells;
    if next.At? then linked[next.off := linked[next.off].(prev := prev)] else linked
  }

  lemma {:induction false} RemovedFrame(cells: seq<Meta>, at: nat, end: nat, next: Link, prev: Link)
    requires prev.At? ==> prev.off < at && prev.off < |cells|
    requires next.At? ==> end <= next.off < |cells|
    requires at < end
    ensures var after := RemovedCells(cells, next, prev);
            NextRedirected(cells, after, 0, at, prev, next) && PrevRedirected(cells, after, end, next, prev)
  {
  }

  lemma {:induction false} RemovedHead(pre: seq<Tag>, t: Tag, post: seq<Tag>)
    requires post != [] ==> post[0].gap + Length(t) >= 0
    ensures FirstOf(pre + Shifted(post, Length(t)), 0, Null)
            == if pre == [] then FirstOf(post, Total(pre) + Length(t), Null) else FirstOf(pre + ([t] + post), 0, Null)
  {
    FirstOfAppend(pre, Shifted(post, Length(t)), 0, Null);
    FirstOfAppend(pre, [t] + post, 0, Null);
  }

  /** A block taken out: its bytes join the holes around it. */
  lemma {:induction false} RemoveHeaders(cells: seq<Meta>, pre: seq<Tag>, t: Tag, post: seq<Tag>, id: int)
    requires Holds(cells, pre + ([t] + post), 0, Trusted, Null, id)
    ensures var at := Total(pre) + t.gap; var end := Total(pre) + Length(t);
            var next, prev := FirstOf(post, end, Null), LastOf(pre, 0, Trusted);
            && at < |cells| && cells[at] == Meta(t.size, next, prev, id)
            && (next.At? ==> end <= next.off < |cells|)
            && (prev.At? ==> prev.off < at && prev.off < |cells|)
            && (if prev.At? then pre != [] else prev == Trusted && pre == [])
            && Holds(RemovedCells(cells, next, prev), pre + Shifted(post, Length(t)), 0, Trusted, Null, id)
            && FirstOf(pre + Shifted(post, Length(t)), 0, Null) == (if pre == [] then next else FirstOf(pre + ([t] + post), 0, Null))
  {
    hide Holds, FirstOf, LastOf, Total, Shifted, RemovedCells, PrevRedirected, NextRedirected;
    var start := Total(pre);
    var at, end := start + t.gap, start + Length(t);
    var next, prev := FirstOf(post, end, Null), LastOf(pre, 0, Trusted);
    var rest := Shifted(post, Length(t));
    Ends(cells, pre, [t] + post, id);
    OneHeld(cells, t, post, start, prev, id);
    FirstInside(cells, post, end, At(at), id);
    RemovedFrame(cells, at, end, next, prev);
    var after := RemovedCells(cells, next, prev);
    PreRelinked(cells, after, pre, [t] + post, at, next, id);
    PostRelinked(cells, after, post, end, end, start, At(at), prev, id);
    HoldsAppend(after, pre, rest, 0, Trusted, Null, id);
    RemovedHead(pre, t, post);
  }

  // ----- what the iterator visits -----

  /** The blocks with their headers, and the holes between them, in address order. */
  function Regions(tags: seq<Tag>, tail: nat): seq<(nat, bool)> {
    if tags == [] then (if tail > 0 then [(tail, false)] else [])
    else (if tags[0].gap > 0 then [(tags[0].gap, false)] else []) + [(HEADER + tags[0].size, true)] + Regions(tags[1..], tail)
  }

  function SumOf(regions: seq<(nat, bool)>): nat {
    if regions == [] then 0 else regions[0].0 + SumOf(regions[1..])
  }

  /** Blocks and holes together fill the arena. */
  lemma {:induction false} RegionsFill(tags: seq<Tag>, tail: nat)
    ensures SumOf(Regions(tags, tail)) == Total(tags) + tail
  {
    var r := Regions(tags, tail);
    if tags != [] {
      RegionsFill(tags[1..], tail);
      if tags[0].gap > 0 {
        assert r[1..][1..] == Regions(tags[1..], tail);
      } else {
        assert r[1..] == Regions(tags[1..], tail);
      }
    }
  }

  /**
   The occupied blocks a list of regions describes, one region behind the other from `at` on:
   where each starts, and its bytes behind the header of 32.
   */
  ghost function OccupiedIn(regions: seq<(nat, bool)>, at: nat): set<(nat, nat)> {
    if regions == [] then {}
    else
      (if regions[0].1 && regions[0].0 >= 32 then {(at, regions[0].0 - 32)} else {}) + OccupiedIn(regions[1..], at + regions[0].0)
  }

  /** An occupied region has its header, a free one is not empty, and no two free ones are neighbours. */
  ghost predicate WellFormed(regions: seq<(nat, bool)>) {
    regions != [] ==>
      && regions[0].0 >= (if regions[0].1 then 32 else 1)
      && (!regions[0].1 && |regions| > 1 ==> regions[1].1) && WellFormed(regions[1..])
  }

  lemma OneRegion(h: (nat, bool), r: seq<(nat, bool)>, at: nat)
    ensures OccupiedIn([h] + r, at) == (if h.1 && h.0 >= 32 then {(at, h.0 - 32)} else {}) + OccupiedIn(r, at + h.0)
    ensures WellFormed([h] + r) <==> h.0 >= (if h.1 then 32 else 1) && (!h.1 && r != [] ==> r[0].1) && WellFormed(r)
    ensures OccupiedIn([], at) == OccupiedIn([], at + h.0) == {} && WellFormed([]) && [h] + [] == [h]
  {
    assert ([h] + r)[1..] == r;
  }

  lemma RegionsOf(tags: seq<Tag>, tail: nat, at: nat)
    ensures tags == [] ==> Regions(tags, tail) == (if tail > 0 then [(tail, false)] else []) && Live(tags, at) == {}
    ensures tags != [] ==>
              var t := tags[0];
              && Regions(tags, tail) == (if t.gap > 0 then [(t.gap, false)] else []) + ([(32 + t.size, true)] + Regions(tags[1..], tail))
              && Live(tags, at) == {(at + t.gap, t.size)} + Live(tags[1..], at + t.gap + 32 + t.size)
  {
  }

  /** The regions of a heap are exactly its live blocks and the holes between them. */
  lemma {:induction false} RegionsExactly(tags: seq<Tag>, tail: nat, at: nat)
    ensures OccupiedIn(Regions(tags, tail), at) == Live(tags, at) && WellFormed(Regions(tags, tail))
  {
    hide OccupiedIn, WellFormed, Regions, Live;
    RegionsOf(tags, tail, at);
    if tags == [] {
      OneRegion((tail, false), [], at);
    } else {
      var t, rest := tags[0], Regions(tags[1..], tail);
      var block := (32 + t.size, true);
      RegionsExactly(tags[1..], tail, at + t.gap + 32 + t.size);
      OneRegion(block, rest, at + t.gap);
      OneRegion((t.gap, false), [block] + rest, at);
      assert [] + ([block] + rest) == [block] + rest;
    }
  }

  // ----- the layout in numbers -----

  /** The bytes up to hole k: each hole before it, and each block with its 32 bytes of header. */
  ghost function BytesBefore(tags: seq<Tag>, k: nat): nat
    requires k <= |tags|
  {
    if k == 0 then 0 else BytesBefore(tags, k - 1) + tags[k - 1].gap + 32 + tags[k - 1].size
  }

  lemma {:induction false} TotalBytes(tags: seq<Tag>, k: nat)
    requires k <= |tags|
    ensures Total(tags[..k]) == BytesBefore(tags, k)
  {
    if k == 0 {
      assert tags[..0] == [];
    } else {
      TotalBytes(tags, k - 1);
      assert tags[..k] == tags[..k - 1] + [tags[k - 1]];
      TotalAppend(tags[..k - 1], [tags[k - 1]]);
      assert [tags[k - 1]][1..] == [];
    }
  }
}
