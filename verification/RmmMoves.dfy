/**
 Moving a block between the two lists: the offset surgery of move_block acts on
 the tiling as the change of one block, or as Release with its merges.

 A block leaves one list, is linked into the other at its place in address
 order, and a block that becomes free is joined with its free neighbours.
 */
module RmmMoves {
  import opened RmmBlocks
  import opened RmmLists

  ghost function Flip(bs: seq<Block>, k: nat): seq<Block>
    requires k < |bs|
  {
    bs[k := bs[k].(used := !bs[k].used)]
  }

  /** The head word of the list of used or of free blocks. */
  function Head(used: bool): (h: nat)
    ensures 0 < h < HDR
  {
    if used then FIRSTUSED else FIRSTFREE
  }

  // ---------- where blocks of the two lists lie ----------

  lemma {:induction false} OffsSorted(bs: seq<Block>, lo: nat, hi: nat, used: bool)
    requires Tiles(bs, lo, hi)
    ensures Sorted(Offs(bs, used)) && OffsFrom(Offs(bs, used), lo)
    decreases |bs|
  {
    if |bs| > 0 {
      TilesTail(bs, lo, hi);
      OffsSorted(bs[1..], lo + bs[0].size, hi, used);
      if bs[0].used == used {
        SortedCons(lo, Offs(bs[1..], used), lo + bs[0].size);
      }
    }
  }

  ghost predicate OffsFrom(L: seq<nat>, lo: nat) {
    forall i :: 0 <= i < |L| ==> lo <= L[i]
  }

  lemma SortedCons(x: nat, L: seq<nat>, lo: nat)
    requires Sorted(L) && OffsFrom(L, lo) && x + BLK <= lo
    ensures Sorted([x] + L) && OffsFrom([x] + L, x)
  {
  }

  lemma TilesTail(bs: seq<Block>, lo: nat, hi: nat)
    requires Tiles(bs, lo, hi) && |bs| > 0
    ensures Tiles(bs[1..], lo + bs[0].size, hi)
  {
    if |bs| > 1 {
      assert bs[1].off == bs[0].off + bs[0].size;
    }
  }

  lemma FlipTiles(bs: seq<Block>, k: nat, hi: nat)
    requires Tiles(bs, HDR, hi) && k < |bs|
    ensures Tiles(Flip(bs, k), HDR, hi)
  {
  }

  /** The list of the blocks of kind u around block k, before and after block k changes its kind. */
  lemma FlipOffs(bs: seq<Block>, k: nat, u: bool)
    requires k < |bs|
    ensures bs[k].used == u ==> Offs(bs, u) == Offs(bs[..k], u) + [bs[k].off] + Offs(bs[k + 1..], u)
    ensures bs[k].used == u ==> Offs(Flip(bs, k), u) == Offs(bs[..k], u) + Offs(bs[k + 1..], u)
    ensures bs[k].used != u ==> Offs(bs, u) == Offs(bs[..k], u) + Offs(bs[k + 1..], u)
    ensures bs[k].used != u ==> Offs(Flip(bs, k), u) == Offs(bs[..k], u) + [bs[k].off] + Offs(bs[k + 1..], u)
  {
    var f := Flip(bs, k);
    assert f[..k] == bs[..k] && f[k + 1..] == bs[k + 1..];
    OffsSplit(bs, k, u);
    OffsSplit(f, k, u);
  }

  /** Block k at o, of kind u, stands between A and C in its list and belongs between B and D in the other. */
  datatype Around = Around(u: bool, o: nat, A: seq<nat>, C: seq<nat>, B: seq<nat>, D: seq<nat>)

  ghost predicate IsAround(bs: seq<Block>, k: nat, w: Around) {
    && k < |bs| && bs[k].used == w.u && bs[k].off == w.o
    && w.A == Offs(bs[..k], w.u) && w.C == Offs(bs[k + 1..], w.u)
    && w.B == Offs(bs[..k], !w.u) && w.D == Offs(bs[k + 1..], !w.u)
    && Offs(bs, w.u) == w.A + [w.o] + w.C && Offs(Flip(bs, k), w.u) == w.A + w.C
    && Offs(bs, !w.u) == w.B + w.D && Offs(Flip(bs, k), !w.u) == w.B + [w.o] + w.D
    && Sorted(w.A + [w.o] + w.C) && Sorted(w.B + [w.o] + w.D)
  }

  lemma Surroundings(bs: seq<Block>, k: nat, hi: nat) returns (w: Around)
    requires Tiles(bs, HDR, hi) && k < |bs|
    ensures IsAround(bs, k, w)
  {
    var u := bs[k].used;
    w := Around(u, bs[k].off, Offs(bs[..k], u), Offs(bs[k + 1..], u), Offs(bs[..k], !u), Offs(bs[k + 1..], !u));
    FlipOffs(bs, k, u);
    FlipOffs(bs, k, !u);
    OffsSorted(bs, HDR, hi, u);
    FlipTiles(bs, k, hi);
    OffsSorted(Flip(bs, k), HDR, hi, !u);
  }

  // ---------- what a move leaves alone ----------

  /** The headers of two blocks are the same or do not overlap. */
  lemma HeadersApart(bs: seq<Block>, hi: nat, i: nat, j: nat)
    requires Tiles(bs, HDR, hi) && i < |bs| && j < |bs|
    ensures i == j || bs[i].off + BLK <= bs[j].off || bs[j].off + BLK <= bs[i].off
  {
    if i < j { Ordered(bs, HDR, hi, i, j); }
    if j < i { Ordered(bs, HDR, hi, j, i); }
  }

  /** p lies in the header of a block of L. */
  ghost predicate InHeader(L: seq<nat>, p: nat) {
    exists i :: 0 <= i < |L| && L[i] <= p < L[i] + BLK
  }

  /** Only the region header and headers of blocks of L differ between m and r. */
  ghost predicate Within(m: seq<nat>, r: seq<nat>, L: seq<nat>) {
    |r| == |m| && forall p :: 0 <= p < |m| && p >= HDR && !InHeader(L, p) ==> r[p] == m[p]
  }

  lemma OtherListHeader(bs: seq<Block>, hi: nat, u: bool, x: nat, d: nat)
    requires Tiles(bs, HDR, hi) && x in Offs(bs, !u) && d < BLK
    ensures !InHeader(Offs(bs, u), x + d)
  {
    OffsMember(bs, !u, x);
    var i :| 0 <= i < |bs| && bs[i].off == x && bs[i].used == !u;
    var L := Offs(bs, u);
    if n :| 0 <= n < |L| && L[n] <= x + d < L[n] + BLK {
      OffsMember(bs, u, L[n]);
      var j :| 0 <= j < |bs| && bs[j].off == L[n] && bs[j].used == u;
      HeadersApart(bs, hi, i, j);
    }
  }

  /** Writing the headers of one list keeps the other list. */
  lemma KeepsOther(m: seq<nat>, r: seq<nat>, bs: seq<Block>, u: bool)
    requires Tiles(bs, HDR, |m|) && Within(m, r, Offs(bs, u))
    requires Chain(m, 0, Offs(bs, !u), 0)
    ensures Chain(r, 0, Offs(bs, !u), 0)
  {
    var L := Offs(bs, !u);
    OffsSorted(bs, HDR, |m|, !u);
    forall i | 0 <= i < |L| && L[i] + BLK <= |m|
      ensures r[L[i] + 1] == m[L[i] + 1] && r[L[i] + 2] == m[L[i] + 2]
    {
      OtherListHeader(bs, |m|, u, L[i], 1);
      OtherListHeader(bs, |m|, u, L[i], 2);
    }
    ChainSame(m, r, 0, L, 0);
  }

  /** Writing headers keeps the payload of every block. */
  lemma KeepsPayload(m: seq<nat>, r: seq<nat>, bs: seq<Block>, u: bool, i: nat, p: nat)
    requires Tiles(bs, HDR, |m|) && Within(m, r, Offs(bs, u))
    requires i < |bs| && bs[i].off + BLK <= p < bs[i].off + bs[i].size
    ensures p < |m| && r[p] == m[p]
  {
    InRange(bs, HDR, |m|, i);
    var L := Offs(bs, u);
    if n :| 0 <= n < |L| && L[n] <= p < L[n] + BLK {
      OffsMember(bs, u, L[n]);
      var j :| 0 <= j < |bs| && bs[j].off == L[n] && bs[j].used == u;
      if i < j { Ordered(bs, HDR, |m|, i, j); }
      if j < i { Ordered(bs, HDR, |m|, j, i); }
    }
  }

  // ---------- the first half of the move: leaving ----------

  lemma InHeaderAt(A: seq<nat>, o: nat, C: seq<nat>, p: nat)
    ensures |A| > 0 && Last(A, 0) <= p < Last(A, 0) + BLK ==> InHeader(A + [o] + C, p)
    ensures o <= p < o + BLK ==> InHeader(A + [o] + C, p)
    ensures |C| > 0 && C[0] <= p < C[0] + BLK ==> InHeader(A + [o] + C, p)
    ensures |C| > 1 && C[1] <= p < C[1] + BLK ==> InHeader(A + [o] + C, p)
  {
    var L := A + [o] + C;
    assert L[|A|] == o;
    assert |A| > 0 ==> L[|A| - 1] == Last(A, 0);
    assert |C| > 0 ==> L[|A| + 1] == C[0];
    assert |C| > 1 ==> L[|A| + 2] == C[1];
  }

  lemma UnlinkWithin(m: seq<nat>, h: nat, A: seq<nat>, o: nat, C: seq<nat>)
    requires Middle(m, A, o, C) && h < HDR
    ensures Within(m, Unlinked(m, h, o), A + [o] + C)
  {
    forall p | 0 <= p < |m| && p >= HDR && !InHeader(A + [o] + C, p)
      ensures Unlinked(m, h, o)[p] == m[p]
    {
      InHeaderAt(A, o, C, p);
    }
  }

  /** An offset of a block is not a link word of a block. */
  lemma OffNotLink(bs: seq<Block>, hi: nat, i: nat, y: nat, u: bool)
    requires Tiles(bs, HDR, hi) && i < |bs| && y in Offs(bs, u)
    ensures bs[i].off != y + 1 && bs[i].off != y + 2
  {
    OffsMember(bs, u, y);
    var j :| 0 <= j < |bs| && bs[j].off == y && bs[j].used == u;
    HeadersApart(bs, hi, i, j);
  }

  lemma UnlinkSizes(m: seq<nat>, bs: seq<Block>, k: nat, A: seq<nat>, C: seq<nat>)
    requires Rep(m, bs) && k < |bs|
    requires Offs(bs, bs[k].used) == A + [bs[k].off] + C && Middle(m, A, bs[k].off, C)
    ensures Sizes(Unlinked(m, Head(bs[k].used), bs[k].off), bs)
  {
    var u, o := bs[k].used, bs[k].off;
    var r := Unlinked(m, Head(u), o);
    forall i | 0 <= i < |bs| ensures r[bs[i].off] == m[bs[i].off] {
      InRange(bs, HDR, |m|, i);
      if |A| > 0 {
        assert Last(A, 0) == (A + [o] + C)[|A| - 1];
        OffNotLink(bs, |m|, i, Last(A, 0), u);
      }
      if |C| > 0 {
        assert C[0] == (A + [o] + C)[|A| + 1];
        OffNotLink(bs, |m|, i, C[0], u);
      }
    }
  }

  /** The region after block k has left its list: o stands outside both lists. */
  ghost predicate Detached(m: seq<nat>, bs: seq<Block>, w: Around) {
    && Tiles(bs, HDR, |m|) && Sizes(m, bs) && HDR + BLK <= |m| && m[0] == |m|
    && Linked(m, m[Head(w.u)], w.A + w.C)
    && Gap(m, w.B, w.o, w.D) && m[Head(!w.u)] == First(w.B, First(w.D, 0))
  }

  lemma UnlinkStage(m: seq<nat>, r: seq<nat>, bs: seq<Block>, k: nat, w: Around)
    requires Middle(m, w.A, w.o, w.C) && r == Unlinked(m, Head(w.u), w.o)
    requires Rep(m, bs) && IsAround(bs, k, w)
    ensures Within(m, r, Offs(bs, w.u)) && Detached(r, bs, w)
  {
    hide Chain, Sizes, Tiles, Within, Unlinked, Sorted, Offs;
    UnlinkWithin(m, Head(w.u), w.A, w.o, w.C);
    assert Sizes(r, bs) by { UnlinkSizes(m, bs, k, w.A, w.C); }
    assert Linked(r, r[Head(w.u)], w.A + w.C) && r[0] == |r| && r[Head(!w.u)] == First(w.B, First(w.D, 0)) by {
      SortedParts(w.A, w.o, w.C);
      UnlinkedChains(m, Head(w.u), w.A, w.o, w.C);
      UnlinkHeads(m, w);
    }
    assert Gap(r, w.B, w.o, w.D) by {
      UnlinkGap(m, r, bs, w.u, w.B, w.o, w.D);
    }
  }

  lemma UnlinkHeads(m: seq<nat>, w: Around)
    requires Middle(m, w.A, w.o, w.C)
    requires m[Head(w.u)] == First(w.A + [w.o] + w.C, 0) && m[Head(!w.u)] == First(w.B + w.D, 0)
    ensures var r := Unlinked(m, Head(w.u), w.o);
            && r[0] == m[0] && r[Head(w.u)] == First(w.A, First(w.C, 0))
            && r[Head(!w.u)] == First(w.B, First(w.D, 0))
  {
  }

  lemma UnlinkGap(m: seq<nat>, r: seq<nat>, bs: seq<Block>, u: bool, B: seq<nat>, o: nat, D: seq<nat>)
    requires Rep(m, bs) && Within(m, r, Offs(bs, u)) && Offs(bs, !u) == B + D
    requires HDR <= o && o + BLK <= |m|
    ensures Gap(r, B, o, D)
  {
    KeepsOther(m, r, bs, u);
    ChainConcat(r, 0, B, D, 0);
    if |B| > 0 { ChainInRegion(r, 0, B, First(D, 0), |B| - 1); }
    if |D| > 0 { ChainInRegion(r, Last(B, 0), D, 0, 0); }
  }

  // ---------- the second half of the move: entering ----------

  /** Only the region header, link words of blocks of L and the size word at t differ between m and r. */
  ghost predicate WithinLinks(m: seq<nat>, r: seq<nat>, L: seq<nat>, t: nat) {
    |r| == |m| && forall p :: 0 <= p < |m| && p >= HDR && OffLinks(L, p) && p != t ==> r[p] == m[p]
  }

  /** Whether o is absorbed by the free block before it. */
  ghost predicate MergesBack(m: seq<nat>, w: Around, free: bool)
    requires Last(w.B, 0) < |m|
  {
    free && |w.B| > 0 && Touches(m, Last(w.B, 0), w.o)
  }

  /** The front of the receiving list up to the moved block. */
  ghost function Front(w: Around, back: bool): seq<nat> {
    if back then w.B else w.B + [w.o]
  }

  /** The block that stands for o after the first of the two writes: o, or the block that absorbed it. */
  ghost function Target(m: seq<nat>, w: Around, free: bool): nat
    requires Last(w.B, 0) < |m|
  {
    if MergesBack(m, w, free) then Last(w.B, 0) else w.o
  }

  lemma BackStage(m: seq<nat>, bs: seq<Block>, w: Around, free: bool)
    requires Detached(m, bs, w) && Sorted(w.B + [w.o] + w.D)
    ensures var back := MergesBack(m, w, free);
            var r := LinkBack(m, Head(!w.u), w.o, Last(w.B, 0), free);
            var M := Front(w, back);
            && |M| > 0 && M[|M| - 1] == Target(m, w, free)
            && Chain(r, 0, M, First(w.D, 0)) && Chain(r, Last(w.B, 0), w.D, 0)
            && r[Head(!w.u)] == M[0]
  {
    hide Sizes, Tiles, Sorted, LinkBack, Offs;
    var r := LinkBack(m, Head(!w.u), w.o, Last(w.B, 0), free);
    if MergesBack(m, w, free) {
      LinkBackMerges(m, Head(!w.u), w.B, w.o, w.D);
    } else {
      LinkBackAppends(m, Head(!w.u), w.B, w.o, w.D, free);
      ChainConcat(r, 0, w.B, [w.o], First(w.D, 0));
    }
  }

  lemma BackValues(m: seq<nat>, bs: seq<Block>, w: Around, free: bool)
    requires Detached(m, bs, w) && Sorted(w.B + [w.o] + w.D)
    ensures var r := LinkBack(m, Head(!w.u), w.o, Last(w.B, 0), free);
            && r[0] == m[0] && r[Head(w.u)] == m[Head(w.u)]
            && Target(m, w, free) < |r|
            && r[Target(m, w, free)] == m[w.o] + (if MergesBack(m, w, free) then m[Last(w.B, 0)] else 0)
            && (|w.D| > 0 ==> w.D[0] < |r| && r[w.D[0]] == m[w.D[0]])
  {
    SortedParts(w.B, w.o, w.D);
  }

  lemma ForwardStage(m: seq<nat>, M: seq<nat>, t: nat, back: nat, D: seq<nat>, free: bool)
    requires HalfLinked(m, M, t, back, D) && Sorted(M + D)
    ensures var forward := free && |D| > 0 && Touches(m, t, D[0]);
            var r := LinkForward(m, t, free);
            && Chain(r, 0, M + (if forward then D[1..] else D), 0)
            && r[t] == m[t] + (if forward then m[D[0]] else 0)
  {
    SortedPair(M, D);
    if free && |D| > 0 && Touches(m, t, D[0]) {
      LinkForwardMerges(m, M, t, back, D);
    } else {
      LinkForwardLinks(m, M, t, back, D, free);
      SizeAtLast(m, M, t, D);
    }
  }

  lemma SizeAtLast(m: seq<nat>, M: seq<nat>, t: nat, D: seq<nat>)
    requires |M| > 0 && t == M[|M| - 1] && Apart(M, D)
    ensures |D| > 0 ==> t != D[0] + 1
  {
  }

  lemma SortedPair(A: seq<nat>, C: seq<nat>)
    requires Sorted(A + C)
    ensures Sorted(A) && Sorted(C) && Apart(A, C)
  {
    var L := A + C;
    assert forall i {:trigger A[i]} :: 0 <= i < |A| ==> L[i] == A[i];
    assert forall i {:trigger C[i]} :: 0 <= i < |C| ==> L[|A| + i] == C[i];
  }

  lemma EnterWithin(m: seq<nat>, w: Around, free: bool)
    requires Gap(m, w.B, w.o, w.D)
    ensures WithinLinks(m, LinkBack(m, Head(!w.u), w.o, Last(w.B, 0), free), w.B + [w.o] + w.D,
                        if MergesBack(m, w, free) then Last(w.B, 0) else w.o)
  {
    var L := w.B + [w.o] + w.D;
    assert L[|w.B|] == w.o;
    assert |w.B| > 0 ==> L[|w.B| - 1] == Last(w.B, 0);
  }

  lemma ForwardWithin(m: seq<nat>, A: seq<nat>, t: nat, back: nat, D: seq<nat>, free: bool)
    requires HalfLinked(m, A, t, back, D)
    ensures WithinLinks(m, LinkForward(m, t, free), A + D, t)
  {
    var L := A + D;
    assert L[|A| - 1] == t;
    assert |D| > 0 ==> L[|A|] == D[0];
    assert |D| > 1 ==> L[|A| + 1] == D[1];
  }

  // ---------- the merges are those of Release ----------

  lemma LeftMerge(m: seq<nat>, bs: seq<Block>, k: nat, w: Around)
    requires Tiles(bs, HDR, |m|) && Sizes(m, bs) && IsAround(bs, k, w) && w.u && Last(w.B, 0) < |m|
    ensures MergesBack(m, w, true) <==> MergeLo(bs, k) < k
    ensures MergeLo(bs, k) < k ==> w.B == Offs(bs[..k - 1], false) + [bs[k - 1].off]
  {
    if MergeLo(bs, k) < k {
      FreeBefore(bs, k);
      assert bs[k].off == bs[k - 1].off + bs[k - 1].size;
      hide Offs;
    } else if |w.B| > 0 {
      OffsMember(bs[..k], false, Last(w.B, 0));
      var i :| 0 <= i < |bs[..k]| && bs[..k][i].off == Last(w.B, 0) && bs[..k][i].used == false;
      assert bs[i] == bs[..k][i];
      Ordered(bs, HDR, |m|, i, k - 1);
    }
  }

  lemma FreeBefore(bs: seq<Block>, k: nat)
    requires 0 < k <= |bs| && !bs[k - 1].used
    ensures Offs(bs[..k], false) == Offs(bs[..k - 1], false) + [bs[k - 1].off]
  {
    assert bs[..k] == bs[..k - 1] + [bs[k - 1]];
    OffsConcat(bs[..k - 1], [bs[k - 1]], false);
    assert [bs[k - 1]][1..] == [];
    hide Tiles;
  }

  lemma RightMerge(bs: seq<Block>, hi: nat, k: nat, w: Around)
    requires Tiles(bs, HDR, hi) && IsAround(bs, k, w) && w.u
    ensures |w.D| > 0 && w.D[0] == bs[k].off + bs[k].size <==> MergeEnd(bs, k) > k + 1
    ensures MergeEnd(bs, k) > k + 1 ==> w.D == [bs[k + 1].off] + Offs(bs[k + 2..], false)
  {
    if MergeEnd(bs, k) > k + 1 {
      assert bs[k + 1..][0] == bs[k + 1] && bs[k + 1..][1..] == bs[k + 2..];
      assert bs[k + 1].off == bs[k].off + bs[k].size;
    } else if |w.D| > 0 {
      OffsMember(bs[k + 1..], false, w.D[0]);
      var i :| 0 <= i < |bs[k + 1..]| && bs[k + 1..][i].off == w.D[0] && bs[k + 1..][i].used == false;
      assert bs[k + 1 + i] == bs[k + 1..][i];
      assert bs[k + 1].off == bs[k].off + bs[k].size;
      Ordered(bs, HDR, hi, k + 1, k + 1 + i);
    }
  }

  /** The free list after the release of block k. */
  lemma ReleaseFreeList(m: seq<nat>, bs: seq<Block>, k: nat, w: Around)
    requires Tiles(bs, HDR, |m|) && Sizes(m, bs) && IsAround(bs, k, w) && w.u && Last(w.B, 0) < |m|
    ensures Offs(Release(bs, k), false) ==
            Front(w, MergesBack(m, w, true)) + (if MergeEnd(bs, k) > k + 1 then w.D[1..] else w.D)
  {
    var lo, end := MergeLo(bs, k), MergeEnd(bs, k);
    var r := Release(bs, k);
    LeftMerge(m, bs, k, w);
    RightMerge(bs, |m|, k, w);
    OffsSplit(r, lo, false);
    assert r[..lo] == bs[..lo] && r[lo + 1..] == bs[end..];
  }

  lemma ReleaseSizes(m: seq<nat>, r: seq<nat>, bs: seq<Block>, k: nat)
    requires Tiles(bs, HDR, |m|) && Sizes(m, bs) && k < |bs| && |r| == |m|
    requires var t := bs[MergeLo(bs, k)].off;
             && r[t] == MergedSize(bs, k)
             && forall i :: 0 <= i < |bs| && bs[i].off != t ==> r[bs[i].off] == m[bs[i].off]
    ensures Sizes(r, Release(bs, k))
  {
    var lo, end := MergeLo(bs, k), MergeEnd(bs, k);
    var c := Release(bs, k);
    forall x | 0 <= x < |c| ensures c[x].off < |r| && r[c[x].off] == c[x].size {
      if x < lo {
        assert c[x] == bs[x];
        Ordered(bs, HDR, |m|, x, lo);
      } else if x > lo {
        assert c[x] == bs[x - lo - 1 + end];
        Ordered(bs, HDR, |m|, lo, x - lo - 1 + end);
      }
    }
  }

  // ---------- the whole move ----------

  lemma BackHalfLinked(m: seq<nat>, bs: seq<Block>, w: Around, free: bool)
    requires Detached(m, bs, w) && Sorted(w.B + [w.o] + w.D)
    ensures var back := MergesBack(m, w, free);
            var r := LinkBack(m, Head(!w.u), w.o, Last(w.B, 0), free);
            HalfLinked(r, Front(w, back), Target(m, w, free), Last(w.B, 0), w.D) && Sorted(Front(w, back) + w.D)
  {
    var back := MergesBack(m, w, free);
    var r := LinkBack(m, Head(!w.u), w.o, Last(w.B, 0), free);
    BackStage(m, bs, w, free);
    ChainLastNext(r, 0, Front(w, back), First(w.D, 0));
    ChainInRegion(r, 0, Front(w, back), First(w.D, 0), |Front(w, back)| - 1);
    if |w.D| > 0 { ChainInRegion(r, Last(w.B, 0), w.D, 0, 0); }
    if |w.D| > 1 { ChainInRegion(r, Last(w.B, 0), w.D, 0, 1); }
    if back { SortedWithout(w.B, w.o, w.D); }
  }

  lemma SortedWithout(A: seq<nat>, o: nat, C: seq<nat>)
    requires Sorted(A + [o] + C)
    ensures Sorted(A + C)
  {
    SortedParts(A, o, C);
  }

  /** The size words of all blocks but the target stay. */
  lemma SizesKept(m: seq<nat>, r: seq<nat>, bs: seq<Block>, k: nat, w: Around, t: nat, i: nat)
    requires Tiles(bs, HDR, |m|) && Sizes(m, bs) && IsAround(bs, k, w)
    requires WithinLinks(m, r, w.B + [w.o] + w.D, t) && i < |bs| && bs[i].off != t
    ensures r[bs[i].off] == m[bs[i].off]
  {
    var f, L := Flip(bs, k), w.B + [w.o] + w.D;
    FlipTiles(bs, k, |m|);
    InRange(bs, HDR, |m|, i);
    forall j | 0 <= j < |L| ensures bs[i].off != L[j] + 1 && bs[i].off != L[j] + 2 {
      assert f[i].off == bs[i].off;
      OffNotLink(f, |m|, i, L[j], !w.u);
    }
  }

  lemma LinksWithin(m: seq<nat>, r: seq<nat>, L: seq<nat>, t: nat)
    requires WithinLinks(m, r, L, t) && t in L
    ensures Within(m, r, L)
  {
    forall p | 0 <= p < |m| && p >= HDR && !InHeader(L, p) ensures r[p] == m[p] {
      assert OffLinks(L, p);
      assert p != t;
    }
  }

  lemma WithinLinksTrans(m: seq<nat>, r: seq<nat>, s: seq<nat>, A: seq<nat>, o: nat, C: seq<nat>, back: bool, t: nat)
    requires WithinLinks(m, r, A + [o] + C, t)
    requires WithinLinks(r, s, (if back then A else A + [o]) + C, t)
    ensures WithinLinks(m, s, A + [o] + C, t)
  {
    var L, K := A + [o] + C, (if back then A else A + [o]) + C;
    forall p | 0 <= p < |m| && p >= HDR && OffLinks(L, p) && p != t ensures s[p] == m[p] {
      forall i | 0 <= i < |K| ensures p != K[i] + 1 && p != K[i] + 2 {
        assert K[i] == if i < |A| then L[i] else if back then L[i + 1] else L[i];
      }
    }
  }

  /** The second half of move_block. */
  ghost predicate Entered(m: seq<nat>, w: Around, free: bool, back: bool, M: seq<nat>, t: nat, r2: seq<nat>,
                          r: seq<nat>)
    requires Last(w.B, 0) + BLK <= |m|
  {
    && HDR <= w.o && w.o + BLK <= |m|
    && back == MergesBack(m, w, free) && M == Front(w, back) && t == Target(m, w, free)
    && r2 == LinkBack(m, Head(!w.u), w.o, Last(w.B, 0), free)
    && HalfLinked(r2, M, t, Last(w.B, 0), w.D)
    && r == LinkForward(r2, t, free)
  }

  lemma EnterChain(m: seq<nat>, bs: seq<Block>, w: Around, free: bool, back: bool, M: seq<nat>, t: nat,
                   r2: seq<nat>, r: seq<nat>, forward: bool)
    requires Detached(m, bs, w) && Sorted(w.B + [w.o] + w.D) && Entered(m, w, free, back, M, t, r2, r)
    requires forward == (free && |w.D| > 0 && Touches(r2, t, w.D[0]))
    ensures Linked(r, r[Head(!w.u)], M + (if forward then w.D[1..] else w.D))
    ensures t < |r| && r[t] == m[w.o] + (if back then m[Last(w.B, 0)] else 0) + (if forward then m[w.D[0]] else 0)
    ensures r[0] == m[0] && r[Head(w.u)] == m[Head(w.u)]
  {
    hide Chain, Sizes, Tiles, Sorted, LinkBack, LinkForward, Offs;
    assert Sorted(M + w.D) by { if back { SortedWithout(w.B, w.o, w.D); } }
    assert |M| > 0 && r2[Head(!w.u)] == M[0] by { BackStage(m, bs, w, free); }
    BackValues(m, bs, w, free);
    ForwardStage(r2, M, t, Last(w.B, 0), w.D, free);
  }

  lemma EnterLinks(m: seq<nat>, bs: seq<Block>, w: Around, free: bool, back: bool, M: seq<nat>, t: nat,
                   r2: seq<nat>, r: seq<nat>)
    requires Detached(m, bs, w) && Entered(m, w, free, back, M, t, r2, r)
    ensures WithinLinks(m, r, w.B + [w.o] + w.D, t) && t in w.B + [w.o] + w.D
  {
    EnterWithin(m, w, free);
    ForwardWithin(r2, M, t, Last(w.B, 0), w.D, free);
    WithinLinksTrans(m, r2, r, w.B, w.o, w.D, back, t);
    assert (w.B + [w.o] + w.D)[if back then |w.B| - 1 else |w.B|] == t;
  }

  /** The list the block has left is untouched by its entering the other one. */
  lemma EnterKeepsSource(m: seq<nat>, bs: seq<Block>, k: nat, w: Around, r: seq<nat>, t: nat)
    requires Detached(m, bs, w) && IsAround(bs, k, w)
    requires WithinLinks(m, r, w.B + [w.o] + w.D, t) && t in w.B + [w.o] + w.D
    ensures Chain(r, 0, w.A + w.C, 0) && Within(m, r, Offs(Flip(bs, k), !w.u))
  {
    LinksWithin(m, r, w.B + [w.o] + w.D, t);
    FlipTiles(bs, k, |m|);
    KeepsOther(m, r, Flip(bs, k), !w.u);
  }

  /** Entering the used list: block k is now in use, and the state is that of the changed tiling. */
  lemma BecomesUsed(m: seq<nat>, bs: seq<Block>, k: nat, w: Around, M: seq<nat>, r2: seq<nat>, r: seq<nat>)
    requires Detached(m, bs, w) && IsAround(bs, k, w) && !w.u
    requires Entered(m, w, false, false, M, w.o, r2, r)
    ensures Rep(r, Flip(bs, k)) && Within(m, r, Offs(Flip(bs, k), true))
  {
    var f := Flip(bs, k);
    EnterChain(m, bs, w, false, false, M, w.o, r2, r, false);
    EnterLinks(m, bs, w, false, false, M, w.o, r2, r);
    EnterKeepsSource(m, bs, k, w, r, w.o);
    FlipTiles(bs, k, |m|);
    forall i | 0 <= i < |f| ensures f[i].off < |r| && r[f[i].off] == f[i].size {
      if bs[i].off != w.o {
        SizesKept(m, r, bs, k, w, w.o, i);
      } else {
        HeadersApart(bs, |m|, i, k);
      }
    }
  }

  lemma FreedSize(m: seq<nat>, bs: seq<Block>, k: nat, w: Around, back: bool, r2: seq<nat>, t: nat)
    requires Detached(m, bs, w) && IsAround(bs, k, w) && w.u
    requires back == MergesBack(m, w, true) && t == Target(m, w, true) && t < |r2|
    requires r2[t] == m[w.o] + (if back then m[Last(w.B, 0)] else 0)
    ensures |w.D| > 0 && Touches(r2, t, w.D[0]) <==> MergeEnd(bs, k) > k + 1
    ensures t == bs[MergeLo(bs, k)].off
    ensures r2[t] + (if MergeEnd(bs, k) > k + 1 then m[w.D[0]] else 0) == MergedSize(bs, k)
  {
    LeftMerge(m, bs, k, w);
    RightMerge(bs, |m|, k, w);
    if back {
      assert Last(w.B, 0) == bs[k - 1].off;
      assert bs[k].off == bs[k - 1].off + bs[k - 1].size;
    }
  }

  /** Entering the free list: block k is released, with its merges. */
  lemma BecomesFree(m: seq<nat>, bs: seq<Block>, k: nat, w: Around, back: bool, M: seq<nat>, t: nat,
                    r2: seq<nat>, r: seq<nat>)
    requires Detached(m, bs, w) && IsAround(bs, k, w) && w.u && Inv(bs, |m|)
    requires Entered(m, w, true, back, M, t, r2, r)
    ensures Rep(r, Release(bs, k)) && Within(m, r, Offs(Flip(bs, k), false))
  {
    hide Chain, Tiles, Offs, Sorted, Release, LinkBack, LinkForward, Within;
    BackValues(m, bs, w, true);
    FreedSize(m, bs, k, w, back, r2, t);
    EnterChain(m, bs, w, true, back, M, t, r2, r, MergeEnd(bs, k) > k + 1);
    EnterLinks(m, bs, w, true, back, M, t, r2, r);
    EnterKeepsSource(m, bs, k, w, r, t);
    assert Sizes(r, Release(bs, k)) by {
      forall i | 0 <= i < |bs| && bs[i].off != t ensures r[bs[i].off] == m[bs[i].off] {
        SizesKept(m, r, bs, k, w, t, i);
      }
      ReleaseSizes(m, r, bs, k);
    }
    ReleaseFreeList(m, bs, k, w);
    ReleaseOffs(bs, k);
    ReleaseKeepsInv(bs, |m|, k);
  }
}
