/** The in-place searches, moves and cuts of the allocator, on the array that is its region. */
module Rmm {
  import opened RmmBlocks
  import opened RmmLists
  import opened RmmMoves
  import opened RmmSplit

  datatype Status = Success | Invalid

  /** APR_ALIGN_DEFAULT, from bytes to words: the least number of words that holds the bytes. */
  function AlignedWords(bytes: nat): (words: nat)
    ensures bytes <= 8 * words < bytes + 8
  {
    (bytes + 7) / 8
  }

  /** The payload words of every block of bs are the same in m and r. */
  ghost predicate PayloadsKept(m: seq<nat>, r: seq<nat>, bs: seq<Block>) {
    |r| == |m| && forall i, p :: 0 <= i < |bs| && bs[i].off + BLK <= p < bs[i].off + bs[i].size && p < |m| ==>
      r[p] == m[p]
  }

  lemma {:induction false} ChainAt(m: seq<nat>, before: nat, L: seq<nat>, i: nat)
    requires Chain(m, before, L, 0) && i < |L|
    ensures HDR <= L[i] && L[i] + BLK <= |m| && m[L[i] + 2] == if i + 1 < |L| then L[i + 1] else 0
    decreases i
  {
    if i > 0 {
      ChainAt(m, L[0], L[1..], i - 1);
    }
  }

  /** Where the search for `find` in a sorted list L ends: at `find`, or at the block before its place. */
  ghost predicate Found(L: seq<nat>, find: nat, includes: bool, r: nat) {
    if find in L then r == find
    else if !includes then r == 0
    else exists k: nat :: PlaceAt(L, find, k) && r == if k == 0 then 0 else L[k - 1]
  }

  ghost predicate PlaceAt(L: seq<nat>, find: nat, k: nat) {
    k <= |L| && (forall i :: 0 <= i < k ==> L[i] < find) && (forall i :: k <= i < |L| ==> find < L[i])
  }

  method FindBlockByOffset(a: array<nat>, first: nat, find: nat, includes: bool, ghost L: seq<nat>)
    returns (r: nat)
    requires Linked(a[..], first, L) && Sorted(L)
    ensures Found(L, find, includes, r)
  {
    var prev, next := 0, first;
    ghost var i := 0;
    while next != 0
      invariant 0 <= i <= |L|
      invariant next == (if i < |L| then L[i] else 0)
      invariant prev == (if i == 0 then 0 else L[i - 1])
      invariant forall j :: 0 <= j < i ==> L[j] < find
      decreases |L| - i
    {
      ChainAt(a[..], 0, L, i);
      if find == next {
        return next;
      }
      if find < next {
        assert PlaceAt(L, find, i);
        return if includes then prev else 0;
      }
      prev, next := next, a[next + 2];
      i := i + 1;
    }
    assert PlaceAt(L, find, |L|);
    return if includes then prev else 0;
  }

  lemma FoundIsLast(A: seq<nat>, o: nat, C: seq<nat>, r: nat)
    requires Sorted(A + [o] + C) && Found(A + C, o, true, r)
    ensures r == Last(A, 0)
  {
    SortedParts(A, o, C);
    var L := A + C;
    assert o !in L;
    var k: nat :| PlaceAt(L, o, k) && r == if k == 0 then 0 else L[k - 1];
    assert |A| > 0 ==> L[|A| - 1] == A[|A| - 1];
    assert |C| > 0 ==> L[|A|] == C[0];
    assert k == |A|;
  }

  /**
   move_block: the block at o leaves its list, is found a place in the other, and merges when freed. A free block that
   is freed again, and is not the first of its list, leaves the free list and returns to its place.
   */
  method MoveBlock(a: array<nat>, o: nat, free: bool, ghost bs: seq<Block>, ghost k: nat)
    requires Rep(a[..], bs) && k < |bs| && bs[k].off == o && (free ==> Inv(bs, a.Length))
    requires bs[k].used == free || (free && LaterFree(bs, k))
    modifies a
    ensures bs[k].used == free ==>
              && Rep(a[..], if free then Release(bs, k) else Flip(bs, k))
              && PayloadsKept(old(a[..]), a[..], bs)
    ensures bs[k].used != free ==> a[..] == old(a[..])
  {
    ghost var m := a[..];
    ghost var w := FindAround(m, bs, k);
    hide *;
    // close the gap
    CloseGap(a, Head(free), o, w);
    GapClosed(m, a[..], bs, k, w, free);
    // find its place in the other list
    var prev := FindPlace(a, Head(!free), o, Preceding(w, free), Following(w, free));
    // open it up
    OpenUp(a, o, prev, free, m, bs, k, w);
  }

  /** The list whose head is stored at h has its place for o between these blocks. */
  ghost predicate PlaceFor(m: seq<nat>, h: nat, o: nat, before: seq<nat>, after: seq<nat>)
    requires h < |m|
  {
    Linked(m, m[h], before + after) && Sorted(before + after) && Sorted(before + [o] + after)
  }

  method FindPlace(a: array<nat>, h: nat, o: nat, ghost before: seq<nat>, ghost after: seq<nat>) returns (prev: nat)
    requires h < a.Length && PlaceFor(a[..], h, o, before, after)
    ensures prev == Last(before, 0)
  {
    hide Linked, Sorted, Found, Last;
    prev := FindBlockByOffset(a, a[h], o, true, before + after);
    FoundIsLast(before, o, after, prev);
  }

  method OpenUp(a: array<nat>, o: nat, prev: nat, free: bool, ghost m: seq<nat>, ghost bs: seq<Block>, ghost k: nat,
                ghost w: Around)
    requires Middle(m, w.A, o, w.C) && o == w.o && HDR <= o && o + BLK <= |m| && a[..] == Unlinked(m, Head(free), o)
    requires prev == Last(Preceding(w, free), 0) && prev + BLK <= o
    requires k < |bs| && IsAround(bs, k, w) && Rep(m, bs) && (free ==> Inv(bs, |m|))
    requires w.u == free || (free && LaterFree(bs, k))
    requires w.u == free ==> Within(m, a[..], Offs(bs, w.u)) && Detached(a[..], bs, w)
    modifies a
    ensures if bs[k].used == free then
              Rep(a[..], if free then Release(bs, k) else Flip(bs, k)) && PayloadsKept(m, a[..], bs)
            else a[..] == m
  {
    hide *;
    ghost var m1 := a[..];
    var t := LinkBackwards(a, Head(!free), o, prev, free);
    Opened(m, m1, bs, k, w, free, prev, t, a[..]);
    OpensMeans(m, a[..], t, bs, k, free);
    LinkForwards(a, t, free);
  }

  /** The block has changed its state and nothing else has, or it was free before and no word has changed. */
  ghost predicate Settled(m: seq<nat>, r: seq<nat>, bs: seq<Block>, k: nat, free: bool)
    requires k < |bs|
  {
    if bs[k].used == free then Rep(r, if free then Release(bs, k) else Flip(bs, k)) && PayloadsKept(m, r, bs)
    else r == m
  }

  lemma OpensMeans(m: seq<nat>, r2: seq<nat>, t: nat, bs: seq<Block>, k: nat, free: bool)
    requires k < |bs| && OpensTo(m, r2, t, bs, k, free)
    ensures Forwardable(r2, t)
    ensures var r := LinkForward(r2, t, free);
            if bs[k].used == free then Rep(r, if free then Release(bs, k) else Flip(bs, k)) && PayloadsKept(m, r, bs)
            else r == m
  {
    hide Rep, Release, Flip, PayloadsKept, LinkForward, Forwardable;
  }

  lemma FindAround(m: seq<nat>, bs: seq<Block>, k: nat) returns (w: Around)
    requires Rep(m, bs) && k < |bs|
    ensures IsAround(bs, k, w) && Middle(m, w.A, w.o, w.C)
    ensures w.u == bs[k].used && w.o == bs[k].off && HDR <= w.o && w.o + BLK <= |m|
  {
    hide Chain, Sorted, Offs;
    w := Surroundings(bs, k, |m|);
    MiddleOfList(m, w.A, w.o, w.C);
  }

  /** The blocks before the place of the moved block, in the list that it enters. */
  ghost function Preceding(w: Around, free: bool): seq<nat> {
    if w.u == free then w.B else w.A
  }

  ghost function Following(w: Around, free: bool): seq<nat> {
    if w.u == free then w.D else w.C
  }

  /** The block is free, but not the first free one. */
  ghost predicate LaterFree(bs: seq<Block>, k: nat) {
    k < |bs| && !bs[k].used && exists j :: 0 <= j < k && !bs[j].used
  }

  /** The list that is searched next: it holds the blocks around the place of the block that has left its own. */
  lemma GapClosed(m: seq<nat>, m1: seq<nat>, bs: seq<Block>, k: nat, w: Around, free: bool)
    requires Middle(m, w.A, w.o, w.C) && m1 == Unlinked(m, Head(free), w.o)
    requires Rep(m, bs) && IsAround(bs, k, w) && (w.u == free || (free && LaterFree(bs, k)))
    ensures w.u == free ==> Within(m, m1, Offs(bs, w.u)) && Detached(m1, bs, w)
    ensures PlaceFor(m1, Head(!free), w.o, Preceding(w, free), Following(w, free))
    ensures Last(Preceding(w, free), 0) + BLK <= w.o
  {
    if w.u == free {
      UnlinkStage(m, m1, bs, k, w);
      AroundSorted(bs, k, w);
      assert Preceding(w, free) == w.B && Following(w, free) == w.D;
      hide Linked, Sorted, Detached, Rep, IsAround, Middle, Offs, Unlinked, Within;
      DetachedList(m1, bs, w);
    } else {
      FirstFree(bs, k);
      SortedParts(w.A, w.o, w.C);
      SortedWithout(w.A, w.o, w.C);
      UnlinkedChains(m, Head(free), w.A, w.o, w.C);
      hide Chain, Sizes, Tiles, Sorted, Offs;
    }
  }

  lemma AroundSorted(bs: seq<Block>, k: nat, w: Around)
    requires IsAround(bs, k, w)
    ensures Sorted(w.B + [w.o] + w.D)
  {
  }

  lemma DetachedList(m: seq<nat>, bs: seq<Block>, w: Around)
    requires Detached(m, bs, w) && Sorted(w.B + [w.o] + w.D)
    ensures Linked(m, m[Head(!w.u)], w.B + w.D) && Sorted(w.B + w.D) && Last(w.B, 0) + BLK <= w.o
  {
    ChainConcat(m, 0, w.B, w.D, 0);
    SortedWithout(w.B, w.o, w.D);
    SortedParts(w.B, w.o, w.D);
    assert First(w.B + w.D, 0) == First(w.B, First(w.D, 0));
  }

  lemma NextIsAhead(M: seq<nat>, t: nat, D: seq<nat>)
    requires Sorted(M + D) && |M| > 0 && t == M[|M| - 1]
    ensures |D| > 0 ==> t + BLK <= D[0]
  {
    assert |D| > 0 ==> (M + D)[|M|] == D[0] && (M + D)[|M| - 1] == t;
  }

  lemma MoveKeepsPayloads(m: seq<nat>, m1: seq<nat>, r: seq<nat>, bs: seq<Block>, k: nat, w: Around)
    requires Tiles(bs, HDR, |m|) && IsAround(bs, k, w)
    requires Within(m, m1, Offs(bs, w.u)) && Within(m1, r, Offs(Flip(bs, k), !w.u))
    ensures PayloadsKept(m, r, bs)
  {
    FlipTiles(bs, k, |m|);
    forall i, p | 0 <= i < |bs| && bs[i].off + BLK <= p < bs[i].off + bs[i].size && p < |m| ensures r[p] == m[p] {
      KeepsPayload(m, m1, bs, w.u, i, p);
      KeepsPayload(m1, r, Flip(bs, k), !w.u, i, p);
    }
  }

  method CloseGap(a: array<nat>, h: nat, o: nat, ghost w: Around)
    requires Middle(a[..], w.A, o, w.C) && h < HDR
    modifies a
    ensures a[..] == Unlinked(old(a[..]), h, o)
  {
    var prev, next := a[o + 1], a[o + 2];
    if prev != 0 {
      a[prev + 2] := next;
    } else {
      a[h] := next;
    }
    if next != 0 {
      a[next + 1] := prev;
    }
  }

  /** What the forward link reads lies in the region. */
  ghost predicate Forwardable(m: seq<nat>, t: nat) {
    && HDR <= t && t + BLK <= |m| && m[t + 2] + BLK <= |m|
    && (m[t + 2] != 0 ==> t + BLK <= m[t + 2] && m[m[t + 2] + 2] + BLK <= |m|)
  }

  /** In the other list, the two links and the merges represent the block in its new state. */
  lemma OpenedUp(m: seq<nat>, bs: seq<Block>, k: nat, w: Around, free: bool, prev: nat, t: nat, r2: seq<nat>)
    requires Detached(m, bs, w) && IsAround(bs, k, w) && w.u == free && prev == Last(w.B, 0) && prev + BLK <= w.o
    requires HDR <= w.o && w.o + BLK <= |m| && (free ==> Inv(bs, |m|))
    requires r2 == LinkBack(m, Head(!free), w.o, prev, free)
    requires t == if prev != 0 && free && prev + m[prev] == w.o then prev else w.o
    ensures Forwardable(r2, t)
    ensures var r := LinkForward(r2, t, free);
            && Rep(r, if free then Release(bs, k) else Flip(bs, k)) && Within(m, r, Offs(Flip(bs, k), !free))
  {
    hide Chain, Sizes, Tiles, Sorted, Offs, Release, LinkBack, LinkForward, Inv;
    DetachedList(m, bs, w);
    BackHalfLinked(m, bs, w, free);
    var M := Front(w, MergesBack(m, w, free));
    assert t == Target(m, w, free);
    NextIsAhead(M, t, w.D);
    var r := LinkForward(r2, t, free);
    if free {
      BecomesFree(m, bs, k, w, MergesBack(m, w, free), M, t, r2, r);
    } else {
      BecomesUsed(m, bs, k, w, M, r2, r);
    }
  }

  /** The forward link reads only the region, and makes the block what it shall be. */
  ghost predicate OpensTo(m: seq<nat>, r2: seq<nat>, t: nat, bs: seq<Block>, k: nat, free: bool)
    requires k < |bs|
  {
    Forwardable(r2, t) && Settled(m, LinkForward(r2, t, free), bs, k, free)
  }

  /** The two links put the block into its new state, or back. */
  lemma Opened(m: seq<nat>, m1: seq<nat>, bs: seq<Block>, k: nat, w: Around, free: bool, prev: nat, t: nat,
               r2: seq<nat>)
    requires Middle(m, w.A, w.o, w.C) && m1 == Unlinked(m, Head(free), w.o)
    requires prev == Last(Preceding(w, free), 0) && prev + BLK <= w.o
    requires r2 == LinkBack(m1, Head(!free), w.o, prev, free)
    requires t == if prev != 0 && free && prev + m1[prev] == w.o then prev else w.o
    requires k < |bs| && IsAround(bs, k, w) && Rep(m, bs) && (free ==> Inv(bs, |m|))
    requires w.u == free || (free && LaterFree(bs, k))
    requires w.u == free ==> Within(m, m1, Offs(bs, w.u)) && Detached(m1, bs, w)
    ensures OpensTo(m, r2, t, bs, k, free)
  {
    hide Rep, IsAround, Inv, Middle, Unlinked, LinkBack, LinkForward, LaterFree, Within, Detached, Offs, Release, Flip;
    hide PayloadsKept, Tiles, Sizes, Chain, Linked, Sorted, Settled, OpensTo, Preceding;
    PlaceIs(m, bs, k, w, free);
    if w.u == free {
      OpenedUp(m1, bs, k, w, free, prev, t, r2);
      MoveKeepsPayloads(m, m1, LinkForward(r2, t, free), bs, k, w);
      MakeOpens(m, r2, t, bs, k, free);
    } else {
      PlaceOfFree(m, bs, k, w);
      Relinked(m, w.o, prev, First(w.C, 0));
      MakeOpens(m, r2, t, bs, k, free);
    }
  }

  lemma PlaceIs(m: seq<nat>, bs: seq<Block>, k: nat, w: Around, free: bool)
    requires k < |bs| && IsAround(bs, k, w) && Rep(m, bs) && Middle(m, w.A, w.o, w.C)
    ensures bs[k].used == w.u && Tiles(bs, HDR, |m|) && HDR <= w.o && w.o + BLK <= |m|
    ensures Preceding(w, free) == if w.u == free then w.B else w.A
  {
    hide Chain, Offs, Sorted, Linked;
  }

  lemma MakeOpens(m: seq<nat>, r2: seq<nat>, t: nat, bs: seq<Block>, k: nat, free: bool)
    requires k < |bs| && Forwardable(r2, t)
    requires var r := LinkForward(r2, t, free);
             if bs[k].used == free then Rep(r, if free then Release(bs, k) else Flip(bs, k)) && PayloadsKept(m, r, bs)
             else r == m
    ensures OpensTo(m, r2, t, bs, k, free)
  {
    hide Rep, Release, Flip, PayloadsKept, LinkForward, Forwardable;
  }

  lemma PlaceOfFree(m: seq<nat>, bs: seq<Block>, k: nat, w: Around)
    requires Middle(m, w.A, w.o, w.C) && Rep(m, bs) && Inv(bs, |m|) && IsAround(bs, k, w) && LaterFree(bs, k)
    ensures var prev, next := Last(w.A, 0), First(w.C, 0);
            && HDR <= prev && prev + BLK <= w.o && w.o + BLK <= |m| && m[w.o + 1] == prev && m[w.o + 2] == next
            && m[prev + 2] == w.o && prev + m[prev] != w.o
            && (next != 0 ==> w.o + BLK <= next && next + BLK <= |m| && m[next + 1] == w.o && m[next + 2] + BLK <= |m|)
            && (next != 0 ==> w.o + m[w.o] != next)
  {
    FirstFree(bs, k);
    NotTouching(m, bs, k, w);
    ListBounds(m, w);
    hide Rep, Inv, Chain, Sorted, Offs;
  }

  /** Taking the block at o out from between its neighbours and linking it in again changes nothing. */
  lemma Relinked(m: seq<nat>, o: nat, prev: nat, next: nat)
    requires HDR <= prev && prev + BLK <= o && o + BLK <= |m| && m[o + 1] == prev && m[o + 2] == next
    requires m[prev + 2] == o && prev + m[prev] != o
    requires next != 0 ==> o + BLK <= next && next + BLK <= |m| && m[next + 1] == o && m[next + 2] + BLK <= |m|
    requires next != 0 ==> o + m[o] != next
    ensures var m1 := Unlinked(m, Head(true), o);
            var r2 := LinkBack(m1, Head(false), o, prev, true);
            && m1[prev] == m[prev] && Forwardable(r2, o) && LinkForward(r2, o, true) == m
  {
    var m1 := Unlinked(m, Head(true), o);
    assert m1[prev] == m[prev] && m1[prev + 2] == next && m1[o] == m[o];
    var r2 := LinkBack(m1, Head(false), o, prev, true);
    var back := if next != 0 then m[next + 1 := prev] else m;
    assert m1 == back[prev + 2 := next];
    assert r2 == back;
    assert next != 0 ==> back[next + 1 := o] == m;
  }

  /** No free block stands next to another, so nothing merges with a block that is free already. */
  lemma NotTouching(m: seq<nat>, bs: seq<Block>, k: nat, w: Around)
    requires Rep(m, bs) && Inv(bs, |m|) && IsAround(bs, k, w) && !bs[k].used && |w.A| > 0
    ensures Last(w.A, 0) < |m| && !Touches(m, Last(w.A, 0), w.o)
    ensures w.o < |m| && (|w.C| > 0 ==> !Touches(m, w.o, w.C[0]))
  {
    OffsMember(bs[..k], false, Last(w.A, 0));
    var i :| 0 <= i < |bs[..k]| && bs[..k][i].off == Last(w.A, 0) && bs[..k][i].used == false;
    assert bs[i] == bs[..k][i];
    BeforeNext(m, bs, i, k);
    if |w.C| > 0 {
      OffsMember(bs[k + 1..], false, w.C[0]);
      var j :| 0 <= j < |bs[k + 1..]| && bs[k + 1..][j].off == w.C[0] && bs[k + 1..][j].used == false;
      assert bs[k + 1 + j] == bs[k + 1..][j];
      BeforeNext(m, bs, k, k + 1 + j);
    }
  }

  lemma BeforeNext(m: seq<nat>, bs: seq<Block>, i: nat, j: nat)
    requires Rep(m, bs) && Inv(bs, |m|) && i < j < |bs| && !bs[i].used && !bs[j].used
    ensures bs[i].off < |m| && bs[j].off < |m| && bs[i].off + m[bs[i].off] != bs[j].off
  {
    hide Linked, Offs;
    assert i + 1 < j;
    Ordered(bs, HDR, |m|, i + 1, j);
  }

  /** The blocks around a block in its list, and the links between them. */
  lemma ListBounds(m: seq<nat>, w: Around)
    requires Middle(m, w.A, w.o, w.C) && Sorted(w.A + [w.o] + w.C)
    ensures |w.A| > 0 ==> HDR <= Last(w.A, 0) && Last(w.A, 0) + BLK <= w.o && m[Last(w.A, 0) + 2] == w.o
    ensures |w.C| > 0 ==>
              && w.o + BLK <= w.C[0] && w.C[0] + BLK <= |m|
              && m[w.C[0] + 1] == w.o && m[w.C[0] + 2] + BLK <= |m|
  {
    SortedParts(w.A, w.o, w.C);
    if |w.A| > 0 {
      ChainLastNext(m, 0, w.A, w.o);
      ChainInRegion(m, 0, w.A, w.o, |w.A| - 1);
    }
    if |w.C| > 1 {
      ChainInRegion(m, w.o, w.C, 0, 1);
    }
  }

  method LinkBackwards(a: array<nat>, h: nat, o: nat, prev: nat, free: bool) returns (t: nat)
    requires HDR <= o && o + BLK <= a.Length && h < HDR && prev + BLK <= o
    modifies a
    ensures a[..] == LinkBack(old(a[..]), h, o, prev, free)
    ensures t == if prev != 0 && free && prev + old(a[prev]) == o then prev else o
  {
    t := o;
    a[o + 1] := prev;
    if prev == 0 {
      a[o + 2] := a[h];
      a[h] := o;
    } else if free && prev + a[prev] == o {
      a[prev] := a[prev] + a[o];
      t := prev;
    } else {
      a[o + 2] := a[prev + 2];
      a[prev + 2] := o;
    }
  }

  method LinkForwards(a: array<nat>, o: nat, free: bool)
    requires Forwardable(a[..], o)
    modifies a
    ensures a[..] == LinkForward(old(a[..]), o, free)
  {
    var next := a[o + 2];
    if next != 0 {
      if free && o + a[o] == next {
        a[o] := a[o] + a[next];
        a[o + 2] := a[next + 2];
        if a[o + 2] != 0 {
          a[a[o + 2] + 1] := o;
        }
      } else {
        a[next + 1] := o;
      }
    }
  }

  /** L[b] is the first of the smallest blocks among L[..i] with at least n words. */
  ghost predicate BestOfList(m: seq<nat>, L: seq<nat>, n: nat, i: nat, b: nat) {
    && b < i <= |L| && L[b] < |m| && m[L[b]] >= n
    && forall j :: 0 <= j < i && L[j] < |m| && m[L[j]] >= n ==> m[L[b]] <= m[L[j]] && (j < b ==> m[L[b]] < m[L[j]])
  }

  ghost predicate NoneInList(m: seq<nat>, L: seq<nat>, n: nat, i: nat) {
    i <= |L| && forall j :: 0 <= j < i && L[j] < |m| ==> m[L[j]] < n
  }

  /** The loop of find_block_of_size over the free list L. */
  method SearchFreeList(a: array<nat>, n: nat, ghost L: seq<nat>) returns (best: nat, ghost b: nat)
    requires a.Length >= HDR && Linked(a[..], a[FIRSTFREE], L) && Sorted(L) && n > 0
    ensures best == 0 ==> NoneInList(a[..], L, n, |L|)
    ensures best != 0 ==> BestOfList(a[..], L, n, |L|, b) && best == L[b]
  {
    var next, bestsize := a[FIRSTFREE], 0;
    best, b := 0, 0;
    ghost var i := 0;
    while next != 0
      invariant 0 <= i <= |L|
      invariant next == (if i < |L| then L[i] else 0)
      invariant best == 0 <==> bestsize == 0
      invariant best == 0 ==> NoneInList(a[..], L, n, i)
      invariant best != 0 ==> BestOfList(a[..], L, n, i, b) && best == L[b] && bestsize == a[best] > n
      decreases |L| - i
    {
      ChainAt(a[..], 0, L, i);
      if a[next] == n {
        ExactIsBest(a[..], L, n, i, best, b);
        return next, i;
      }
      if a[next] >= n {
        if bestsize == 0 || a[next] < bestsize {
          bestsize, best, b := a[next], next, i;
        }
      }
      next := a[next + 2];
      i := i + 1;
    }
  }

  lemma ExactIsBest(m: seq<nat>, L: seq<nat>, n: nat, i: nat, best: nat, b: nat)
    requires i < |L| && L[i] < |m| && m[L[i]] == n
    requires best == 0 ==> NoneInList(m, L, n, i)
    requires best != 0 ==> BestOfList(m, L, n, i, b) && m[L[b]] > n
    ensures BestOfList(m, L, n, |L|, i)
  {
  }

  /** The best block of the free list is the best block of the tiling. */
  lemma BestOfListFits(m: seq<nat>, bs: seq<Block>, n: nat, b: nat) returns (k: nat)
    requires Rep(m, bs) && BestOfList(m, Offs(bs, false), n, |Offs(bs, false)|, b)
    ensures BestFit(bs, n, k) && bs[k].off == Offs(bs, false)[b]
  {
    var L := Offs(bs, false);
    OffsMember(bs, false, L[b]);
    k :| 0 <= k < |bs| && bs[k].off == L[b] && bs[k].used == false;
    OffsSorted(bs, HDR, |m|, false);
    forall j | 0 <= j < |bs| && Fits(bs[j], n)
      ensures bs[k].size <= bs[j].size && (j < k ==> bs[k].size < bs[j].size)
    {
      NotBetter(m, bs, n, b, k, j);
    }
  }

  lemma NotBetter(m: seq<nat>, bs: seq<Block>, n: nat, b: nat, k: nat, j: nat)
    requires Rep(m, bs) && BestOfList(m, Offs(bs, false), n, |Offs(bs, false)|, b) && Sorted(Offs(bs, false))
    requires k < |bs| && bs[k].off == Offs(bs, false)[b] && j < |bs| && Fits(bs[j], n)
    ensures bs[k].size <= bs[j].size && (j < k ==> bs[k].size < bs[j].size)
  {
    var L := Offs(bs, false);
    OffsMember(bs, false, bs[j].off);
    var x :| 0 <= x < |L| && L[x] == bs[j].off;
    assert m[L[x]] == bs[j].size && m[L[b]] == bs[k].size;
    if j < k {
      Ordered(bs, HDR, |m|, j, k);
      assert !(b <= x);
    }
    hide Rep, Offs;
  }

  lemma NoneInListNoneFits(m: seq<nat>, bs: seq<Block>, n: nat)
    requires Rep(m, bs) && NoneInList(m, Offs(bs, false), n, |Offs(bs, false)|)
    ensures forall j :: 0 <= j < |bs| ==> !Fits(bs[j], n)
  {
    forall j | 0 <= j < |bs| ensures !Fits(bs[j], n) {
      OffsMember(bs, false, bs[j].off);
    }
  }

  /** find_block_of_size: the best fit, cut to size when the rest can hold a header and a word. */
  method FindBlockOfSize(a: array<nat>, n: nat, ghost bs: seq<Block>) returns (best: nat, ghost k: nat)
    requires Rep(a[..], bs) && n >= BLK
    modifies a
    ensures best == 0 ==> a[..] == old(a[..]) && forall j :: 0 <= j < |bs| ==> !Fits(bs[j], n)
    ensures best != 0 ==> BestFit(bs, n, k) && best == bs[k].off
    ensures best != 0 ==> Rep(a[..], if bs[k].size > BLK + n then Split(bs, k, n) else bs)
    ensures best != 0 ==> PayloadsKept(old(a[..]), a[..], if bs[k].size > BLK + n then Split(bs, k, n) else bs)
  {
    hide Chain, Tiles, SplitWrites, Split, Offs, BestOfList, NoneInList, Sorted;
    ghost var m := a[..];
    OffsSorted(bs, HDR, a.Length, false);
    ghost var b;
    best, b := SearchFreeList(a, n, Offs(bs, false));
    if best == 0 {
      NoneInListNoneFits(m, bs, n);
      return 0, 0;
    }
    k := BestOfListFits(m, bs, n, b);
    InRange(bs, HDR, a.Length, k);
    if a[best] > BLK + n {
      SplitRep(m, bs, k, n);
      CutBlock(a, best, n);
      SplitTiles(bs, k, n, a.Length);
      assert PayloadsKept(m, a[..], Split(bs, k, n)) by { WithinKeepsPayloads(m, a[..], Split(bs, k, n), false); }
    }
  }

  lemma WithinKeepsPayloads(m: seq<nat>, r: seq<nat>, bs: seq<Block>, u: bool)
    requires Tiles(bs, HDR, |m|) && Within(m, r, Offs(bs, u))
    ensures PayloadsKept(m, r, bs)
  {
    forall i, p | 0 <= i < |bs| && bs[i].off + BLK <= p < bs[i].off + bs[i].size && p < |m| ensures r[p] == m[p] {
      KeepsPayload(m, r, bs, u, i, p);
    }
  }

  method CutBlock(a: array<nat>, o: nat, n: nat)
    requires HDR <= o && BLK <= n && o + n + BLK <= a.Length && n <= a[o] && a[o + 2] + BLK <= a.Length
    modifies a
    ensures a[..] == SplitWrites(old(a[..]), o, n)
  {
    var q := o + n;
    a[q] := a[o] - n;
    a[q + 2] := a[o + 2];
    a[q + 1] := o;
    a[o] := n;
    a[o + 2] := q;
    if a[q + 2] != 0 {
      a[a[q + 2] + 1] := q;
    }
  }

  // ---------- payloads of live blocks ----------

  /** The payload words of every live block of bs, except block k, are the same in m and r. */
  ghost predicate LiveKept(m: seq<nat>, r: seq<nat>, bs: seq<Block>, k: int) {
    |r| == |m| && forall i, p | 0 <= i < |bs| && i != k && bs[i].used
      && bs[i].off + BLK <= p < bs[i].off + bs[i].size && p < |m| :: r[p] == m[p]
  }

  lemma LiveKeptThroughSplit(m: seq<nat>, r: seq<nat>, bs: seq<Block>, k: nat, n: nat)
    requires k < |bs| && !bs[k].used && n <= bs[k].size && PayloadsKept(m, r, Split(bs, k, n))
    ensures LiveKept(m, r, bs, -1)
  {
    var s := Split(bs, k, n);
    forall i, p | 0 <= i < |bs| && i != -1 && bs[i].used
      && bs[i].off + BLK <= p < bs[i].off + bs[i].size && p < |m| ensures r[p] == m[p] {
      if i < k {
        assert s[i] == bs[i];
      } else {
        assert s[i + 1] == bs[i];
      }
    }
  }

  /** The state is determined by the region header and the block headers. */
  lemma HeadersSame(m: seq<nat>, r: seq<nat>, bs: seq<Block>)
    requires Rep(m, bs) && |r| == |m| && forall p :: 0 <= p < HDR ==> r[p] == m[p]
    requires forall i, p :: 0 <= i < |bs| && bs[i].off <= p < bs[i].off + BLK && p < |m| ==> r[p] == m[p]
    ensures Rep(r, bs)
  {
    ListSame(m, r, bs, true);
    ListSame(m, r, bs, false);
  }

  lemma ListSame(m: seq<nat>, r: seq<nat>, bs: seq<Block>, u: bool)
    requires Chain(m, 0, Offs(bs, u), 0) && |r| == |m|
    requires forall i, p :: 0 <= i < |bs| && bs[i].off <= p < bs[i].off + BLK && p < |m| ==> r[p] == m[p]
    ensures Chain(r, 0, Offs(bs, u), 0)
  {
    var L := Offs(bs, u);
    forall i | 0 <= i < |L| && L[i] + BLK <= |m|
      ensures r[L[i] + 1] == m[L[i] + 1] && r[L[i] + 2] == m[L[i] + 2]
    {
      OffsMember(bs, u, L[i]);
    }
    ChainSame(m, r, 0, L, 0);
  }

  /** Writing the payload of block k changes no state and no other payload. */
  lemma PayloadWrite(m: seq<nat>, r: seq<nat>, bs: seq<Block>, k: nat)
    requires Rep(m, bs) && k < |bs| && |r| == |m|
    requires forall p :: 0 <= p < |m| && !(bs[k].off + BLK <= p < bs[k].off + bs[k].size) ==> r[p] == m[p]
    ensures Rep(r, bs) && LiveKept(m, r, bs, k)
  {
    InRange(bs, HDR, |m|, k);
    forall i, p | 0 <= i < |bs| && i != k && bs[i].off <= p < bs[i].off + bs[i].size && p < |m|
      ensures r[p] == m[p]
    {
      if i < k { Ordered(bs, HDR, |m|, i, k); } else { Ordered(bs, HDR, |m|, k, i); }
    }
    HeadersSame(m, r, bs);
  }

  // ---------- the sanity check of apr_rmm_free ----------

  /** The checks made before a block is freed. */
  predicate Sane(m: seq<nat>, o: nat)
    requires HDR <= o && o + BLK <= |m| && m[o + 1] + BLK <= |m| && m[o + 2] + BLK <= |m|
  {
    && (if m[o + 1] != 0 then m[m[o + 1] + 2] == o else m[FIRSTUSED] == o)
    && (m[o + 2] != 0 ==> m[m[o + 2] + 1] == o)
  }

  lemma SaneBounds(m: seq<nat>, bs: seq<Block>, k: nat)
    requires Rep(m, bs) && k < |bs|
    ensures HDR <= bs[k].off && bs[k].off + BLK <= |m|
    ensures m[bs[k].off + 1] + BLK <= |m| && m[bs[k].off + 2] + BLK <= |m|
  {
    var w := Surroundings(bs, k, |m|);
    MiddleOfList(m, w.A, w.o, w.C);
  }

  /** The checks accept every live block, and of the free blocks all but the first. */
  lemma SaneIffUsedOrLaterFree(m: seq<nat>, bs: seq<Block>, k: nat)
    requires Rep(m, bs) && k < |bs|
    requires HDR <= bs[k].off && bs[k].off + BLK <= |m|
    requires m[bs[k].off + 1] + BLK <= |m| && m[bs[k].off + 2] + BLK <= |m|
    ensures Sane(m, bs[k].off) <==> bs[k].used || LaterFree(bs, k)
  {
    var w := Surroundings(bs, k, |m|);
    MiddleOfList(m, w.A, w.o, w.C);
    SaneInList(m, w.A, w.o, w.C);
    assert m[Head(w.u)] == First(w.A + [w.o] + w.C, 0);
    if !w.u {
      NotUsedHead(m, bs, k);
      FirstFree(bs, k);
    }
    hide Rep, Middle, Sane, Offs;
  }

  /**
   What the checks read of a block in the middle of a list is right; of the first one, only the head of the used
   list.
   */
  lemma SaneInList(m: seq<nat>, A: seq<nat>, o: nat, C: seq<nat>)
    requires Middle(m, A, o, C)
    ensures Sane(m, o) <==> |A| > 0 || m[FIRSTUSED] == o
  {
    if |A| > 0 {
      ChainLastNext(m, 0, A, o);
    }
  }

  lemma NotUsedHead(m: seq<nat>, bs: seq<Block>, k: nat)
    requires Rep(m, bs) && k < |bs| && !bs[k].used
    ensures m[FIRSTUSED] != bs[k].off
  {
    InRange(bs, HDR, |m|, k);
    if |Offs(bs, true)| > 0 {
      OffsMember(bs, true, Offs(bs, true)[0]);
      var j :| 0 <= j < |bs| && bs[j].off == Offs(bs, true)[0] && bs[j].used == true;
      HeadersApart(bs, |m|, j, k);
    }
  }

  lemma FirstFree(bs: seq<Block>, k: nat)
    requires k < |bs|
    ensures |Offs(bs[..k], false)| > 0 <==> exists j :: 0 <= j < k && !bs[j].used
  {
    if |Offs(bs[..k], false)| > 0 {
      OffsMember(bs[..k], false, Offs(bs[..k], false)[0]);
      var j :| 0 <= j < |bs[..k]| && bs[..k][j].off == Offs(bs[..k], false)[0] && bs[..k][j].used == false;
      assert !bs[j].used;
    }
    if j :| 0 <= j < k && !bs[j].used {
      assert bs[..k][j] == bs[j];
      OffsMember(bs[..k], false, bs[j].off);
    }
  }

  // ---------- a free block that passes the check ----------

  /** In a region of 24 words: two blocks of 7 words are allocated and the first is freed. */
  const FREEING: seq<Request> := [Alloc(7, 0), Alloc(7, 1), Request.Free(0)]

  const GAPS: seq<Block> := [Block(3, 7, false), Block(10, 7, true), Block(17, 7, false)]

  /** The header words of the region then */
  ghost predicate GapHeaders(m: seq<nat>) {
    && |m| == 24 && m[0] == 24 && m[1] == 10 && m[2] == 3
    && m[3] == 7 && m[4] == 0 && m[5] == 17
    && m[10] == 7 && m[11] == 0 && m[12] == 0
    && m[17] == 7 && m[18] == 3 && m[19] == 0
  }

  lemma GapsRepresented(m: seq<nat>)
    requires GapHeaders(m)
    ensures Rep(m, GAPS)
  {
    assert GAPS[1..] == [GAPS[1], GAPS[2]] && GAPS[1..][1..] == [GAPS[2]] && GAPS[1..][1..][1..] == [];
    assert Offs(GAPS, true) == [10] && Offs(GAPS, false) == [3, 17];
    assert [10][1..] == [] && [3, 17][1..] == [17] && [17][1..] == [];
    assert Chain(m, 0, [10], 0);
    assert Chain(m, 3, [17], 0);
    assert Chain(m, 0, [3, 17], 0);
  }

  lemma GapsReached() returns (states: seq<seq<Block>>)
    ensures Run(states, FREEING) && states[0] == Initial(24) && states[3] == GAPS
  {
    var one := [Block(3, 7, true), Block(10, 14, false)];
    var two := [Block(3, 7, true), Block(10, 7, true), Block(17, 7, false)];
    states := [Initial(24), one, two, GAPS];
    assert Take(Initial(24), 0, 7) == one;
    assert Take(one, 1, 7) == two;
    assert Release(two, 0) == GAPS;
  }

  /** A run reaches a state in which the check accepts the last block, which is free, whatever the payloads are. */
  lemma FreeBlockPasses(m: seq<nat>) returns (states: seq<seq<Block>>)
    requires GapHeaders(m)
    ensures Run(states, FREEING) && states[0] == Initial(24) && states[3] == GAPS
    ensures Rep(m, GAPS) && !GAPS[2].used && Sane(m, GAPS[2].off)
  {
    states := GapsReached();
    GapsRepresented(m);
  }
}
