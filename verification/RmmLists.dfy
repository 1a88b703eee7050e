/**
 The doubly linked lists of the region: blocks linked by offset through the
 second (prev) and third (next) word of their headers.

 The region is a sequence of 8-byte words here; the allocator stores it in an
 array. A block header is the words size, prev and next at the block's offset,
 and the region header is the words abssize, firstused and firstfree.
 */
module RmmLists {
  import opened RmmBlocks

  // the words of the region header that hold the list heads
  const FIRSTUSED: nat := 1
  const FIRSTFREE: nat := 2

  ghost function First(L: seq<nat>, otherwise: nat): nat {
    if |L| == 0 then otherwise else L[0]
  }

  ghost function Last(L: seq<nat>, otherwise: nat): nat {
    if |L| == 0 then otherwise else L[|L| - 1]
  }

  /** The blocks at offsets L are linked in that order, between the blocks `before` and `after`. */
  ghost predicate Chain(m: seq<nat>, before: nat, L: seq<nat>, after: nat)
    decreases |L|
  {
    |L| > 0 ==>
      && HDR <= L[0] && L[0] + BLK <= |m|
      && m[L[0] + 1] == before && m[L[0] + 2] == First(L[1..], after)
      && Chain(m, L[0], L[1..], after)
  }

  /** L holds the offsets of a doubly linked list whose first block is at head (0 for none). */
  ghost predicate Linked(m: seq<nat>, head: nat, L: seq<nat>) {
    head == First(L, 0) && Chain(m, 0, L, 0)
  }

  ghost predicate Sorted(L: seq<nat>) {
    forall i, j :: 0 <= i < j < |L| ==> L[i] + BLK <= L[j]
  }

  ghost predicate Before(L: seq<nat>, o: nat) {
    forall i :: 0 <= i < |L| ==> L[i] + BLK <= o
  }

  ghost predicate After(o: nat, L: seq<nat>) {
    forall i :: 0 <= i < |L| ==> o + BLK <= L[i]
  }

  ghost predicate Apart(L: seq<nat>, M: seq<nat>) {
    forall i, j :: 0 <= i < |L| && 0 <= j < |M| ==> L[i] + BLK <= M[j]
  }

  /** The lists of the used and of the free blocks, and the size words, of a region whose blocks are bs. */
  ghost predicate Rep(m: seq<nat>, bs: seq<Block>) {
    && HDR + BLK <= |m| && m[0] == |m|
    && Tiles(bs, HDR, |m|)
    && Linked(m, m[FIRSTUSED], Offs(bs, true))
    && Linked(m, m[FIRSTFREE], Offs(bs, false))
    && Sizes(m, bs)
  }

  ghost predicate Sizes(m: seq<nat>, bs: seq<Block>) {
    forall i :: 0 <= i < |bs| ==> bs[i].off < |m| && m[bs[i].off] == bs[i].size
  }

  /** p is not a link word of any block in L. */
  ghost predicate OffLinks(L: seq<nat>, p: nat) {
    forall i :: 0 <= i < |L| ==> p != L[i] + 1 && p != L[i] + 2
  }

  lemma {:induction false} ChainConcat(m: seq<nat>, before: nat, A: seq<nat>, C: seq<nat>, after: nat)
    ensures Chain(m, before, A + C, after) <==>
            Chain(m, before, A, First(C, after)) && Chain(m, Last(A, before), C, after)
    decreases |A|
  {
    if |A| == 0 {
      assert A + C == C;
    } else {
      assert (A + C)[0] == A[0] && (A + C)[1..] == A[1..] + C;
      assert Last(A, before) == Last(A[1..], A[0]);
      ChainConcat(m, A[0], A[1..], C, after);
    }
  }

  // ---------- single writes ----------

  lemma {:induction false} ChainKeep(m: seq<nat>, before: nat, L: seq<nat>, after: nat, p: nat, v: nat)
    requires Chain(m, before, L, after) && p < |m| && (p < HDR || OffLinks(L, p))
    ensures Chain(m[p := v], before, L, after)
    decreases |L|
  {
    if |L| > 0 {
      ChainKeep(m, L[0], L[1..], after, p, v);
    }
  }

  lemma {:induction false} ChainSetNext(m: seq<nat>, before: nat, L: seq<nat>, after: nat, v: nat)
    requires Chain(m, before, L, after) && Sorted(L) && |L| > 0
    ensures Last(L, 0) + BLK <= |m| && Chain(m[Last(L, 0) + 2 := v], before, L, v)
    decreases |L|
  {
    if |L| > 1 {
      assert Last(L, 0) == Last(L[1..], 0);
      ChainSetNext(m, L[0], L[1..], after, v);
    }
  }

  lemma ChainSetPrev(m: seq<nat>, before: nat, L: seq<nat>, after: nat, v: nat)
    requires Chain(m, before, L, after) && Sorted(L) && |L| > 0
    ensures Chain(m[First(L, 0) + 1 := v], v, L, after)
  {
    ChainKeep(m, L[0], L[1..], after, L[0] + 1, v);
  }

  lemma SortedParts(A: seq<nat>, o: nat, C: seq<nat>)
    requires Sorted(A + [o] + C)
    ensures Sorted(A) && Sorted(C) && Before(A, o) && After(o, C) && Apart(A, C)
  {
    var L := A + [o] + C;
    assert forall i {:trigger A[i]} :: 0 <= i < |A| ==> L[i] == A[i];
    assert forall i {:trigger C[i]} :: 0 <= i < |C| ==> L[|A| + 1 + i] == C[i];
    assert L[|A|] == o;
  }

  /** A chain depends on the link words of its blocks only. */
  lemma {:induction false} ChainSame(m: seq<nat>, r: seq<nat>, before: nat, L: seq<nat>, after: nat)
    requires Chain(m, before, L, after) && |r| == |m|
    requires forall i :: 0 <= i < |L| && L[i] + BLK <= |m| ==> r[L[i] + 1] == m[L[i] + 1] && r[L[i] + 2] == m[L[i] + 2]
    ensures Chain(r, before, L, after)
    decreases |L|
  {
    if |L| > 0 {
      assert forall i {:trigger L[1..][i]} :: 0 <= i < |L[1..]| ==> L[1..][i] == L[i + 1];
      ChainSame(m, r, L[0], L[1..], after);
    }
  }

  // ---------- leaving a list ----------

  lemma {:induction false} ChainInRegion(m: seq<nat>, before: nat, L: seq<nat>, after: nat, i: nat)
    requires Chain(m, before, L, after) && i < |L|
    ensures HDR <= L[i] && L[i] + BLK <= |m|
    decreases i
  {
    if i > 0 {
      ChainInRegion(m, L[0], L[1..], after, i - 1);
    }
  }

  /** The block at o stands between A and C. */
  ghost predicate Middle(m: seq<nat>, A: seq<nat>, o: nat, C: seq<nat>) {
    && HDR <= o && o + BLK <= |m|
    && Chain(m, 0, A, o) && Chain(m, o, C, 0)
    && (|A| > 0 ==> A[|A| - 1] > 0) && (|C| > 0 ==> C[0] > 0)
    && m[o + 1] == Last(A, 0) && m[o + 1] + BLK <= |m|
    && m[o + 2] == First(C, 0) && m[o + 2] + BLK <= |m|
  }

  lemma MiddleOfList(m: seq<nat>, A: seq<nat>, o: nat, C: seq<nat>)
    requires Chain(m, 0, A + [o] + C, 0)
    ensures Middle(m, A, o, C)
  {
    ChainConcat(m, 0, A + [o], C, 0);
    ChainConcat(m, 0, A, [o], First(C, 0));
    assert Last(A + [o], 0) == o;
    if |A| > 0 { ChainInRegion(m, 0, A, o, |A| - 1); }
    if |C| > 0 { ChainInRegion(m, o, C, 0, 0); }
  }

  /** The write that makes the block before o, or the list head at h, skip o. */
  function SkipForward(m: seq<nat>, h: nat, o: nat): (r: seq<nat>)
    requires o + BLK <= |m| && h < |m| && m[o + 1] + BLK <= |m|
    ensures |r| == |m|
  {
    if m[o + 1] != 0 then m[m[o + 1] + 2 := m[o + 2]] else m[h := m[o + 2]]
  }

  /** The writes that take the block at o out of the list whose head is stored at h. */
  function Unlinked(m: seq<nat>, h: nat, o: nat): (r: seq<nat>)
    requires o + BLK <= |m| && h < |m|
    requires m[o + 1] + BLK <= |m| && m[o + 2] + BLK <= |m|
    ensures |r| == |m|
    ensures forall p | 0 <= p < |m| && (if m[o + 1] == 0 then p != h else p != m[o + 1] + 2)
              && (m[o + 2] != 0 ==> p != m[o + 2] + 1) :: r[p] == m[p]
  {
    var m1 := SkipForward(m, h, o);
    if m[o + 2] != 0 then m1[m[o + 2] + 1 := m[o + 1]] else m1
  }

  lemma SkipForwardChains(m: seq<nat>, h: nat, A: seq<nat>, o: nat, C: seq<nat>)
    requires Middle(m, A, o, C) && h < HDR && Sorted(A) && Apart(A, C)
    ensures Chain(SkipForward(m, h, o), 0, A, First(C, 0)) && Chain(SkipForward(m, h, o), o, C, 0)
  {
    if |A| > 0 {
      ChainSetNext(m, 0, A, o, m[o + 2]);
      ChainKeep(m, o, C, 0, Last(A, 0) + 2, m[o + 2]);
    } else {
      ChainKeep(m, o, C, 0, h, m[o + 2]);
    }
  }

  lemma UnlinkedChains(m: seq<nat>, h: nat, A: seq<nat>, o: nat, C: seq<nat>)
    requires Middle(m, A, o, C) && h < HDR && Sorted(A) && Sorted(C) && Apart(A, C)
    ensures Chain(Unlinked(m, h, o), 0, A + C, 0)
  {
    SkipForwardChains(m, h, A, o, C);
    if |C| > 0 {
      var m1 := SkipForward(m, h, o);
      ChainSetPrev(m1, o, C, 0, m[o + 1]);
      ChainKeep(m1, 0, A, C[0], C[0] + 1, m[o + 1]);
    }
    ChainConcat(Unlinked(m, h, o), 0, A, C, 0);
  }

  // ---------- entering a list ----------

  /** Whether a block at o ends where the block at next starts. */
  predicate Touches(m: seq<nat>, o: nat, next: nat)
    requires o < |m|
  {
    o + m[o] == next
  }

  /** The block at o goes after prev (0: to the head stored at h), or is absorbed by it. */
  function LinkBack(m: seq<nat>, h: nat, o: nat, prev: nat, free: bool): (r: seq<nat>)
    requires HDR <= o && o + BLK <= |m| && h < HDR && prev + BLK <= |m|
    ensures |r| == |m|
    ensures forall p | 0 <= p < |m| && p != o + 1 && p != o + 2
              && (if prev == 0 then p != h else if free && Touches(m, prev, o) then p != prev else p != prev + 2) ::
              r[p] == m[p]
  {
    var m1 := m[o + 1 := prev];
    if prev == 0 then m1[o + 2 := m1[h]][h := o]
    else if free && Touches(m, prev, o) then m1[prev := m[prev] + m[o]]
    else m1[o + 2 := m1[prev + 2]][prev + 2 := o]
  }

  /** The block at o absorbs the block after it if they touch, else becomes its predecessor. */
  function LinkForward(m: seq<nat>, o: nat, free: bool): (r: seq<nat>)
    requires HDR <= o && o + BLK <= |m|
    requires m[o + 2] + BLK <= |m| && (m[o + 2] != 0 ==> m[m[o + 2] + 2] + BLK <= |m|)
    ensures |r| == |m|
    ensures forall p | 0 <= p < |m| && p != o && p != o + 2 && (m[o + 2] != 0 ==>
              p != m[o + 2] + 1 && (m[m[o + 2] + 2] != 0 ==> p != m[m[o + 2] + 2] + 1)) :: r[p] == m[p]
  {
    var next := m[o + 2];
    if next == 0 then m
    else if free && Touches(m, o, next) then
      var m1 := m[o := m[o] + m[next]][o + 2 := m[next + 2]];
      if m[next + 2] != 0 then m1[m[next + 2] + 1 := o] else m1
    else m[next + 1 := o]
  }

  /** There is a gap for o between A and C, which are linked to each other. */
  ghost predicate Gap(m: seq<nat>, A: seq<nat>, o: nat, C: seq<nat>) {
    && HDR <= o && o + BLK <= |m|
    && Chain(m, 0, A, First(C, 0)) && Chain(m, Last(A, 0), C, 0)
    && Last(A, 0) + BLK <= |m| && First(C, 0) + BLK <= |m|
    && (|A| > 0 ==> HDR <= A[|A| - 1]) && (|C| > 0 ==> HDR <= C[0])
  }

  /** The moved block's own links can be written without touching either part. */
  lemma OwnLinks(m: seq<nat>, A: seq<nat>, o: nat, C: seq<nat>)
    requires Gap(m, A, o, C) && Sorted(A + [o] + C)
    ensures var r := m[o + 1 := Last(A, 0)][o + 2 := First(C, 0)];
            Chain(r, 0, A, First(C, 0)) && Chain(r, Last(A, 0), C, 0)
  {
    SortedParts(A, o, C);
    var m1 := m[o + 1 := Last(A, 0)];
    ChainKeep(m, 0, A, First(C, 0), o + 1, Last(A, 0));
    ChainKeep(m, Last(A, 0), C, 0, o + 1, Last(A, 0));
    ChainKeep(m1, 0, A, First(C, 0), o + 2, First(C, 0));
    ChainKeep(m1, Last(A, 0), C, 0, o + 2, First(C, 0));
  }

  lemma LinkBackAppends(m: seq<nat>, h: nat, A: seq<nat>, o: nat, C: seq<nat>, free: bool)
    requires Gap(m, A, o, C) && Sorted(A + [o] + C) && h < HDR && m[h] == First(A, First(C, 0))
    requires !(free && |A| > 0 && Touches(m, Last(A, 0), o))
    ensures var r := LinkBack(m, h, o, Last(A, 0), free);
            Chain(r, 0, A, o) && r[o + 1] == Last(A, 0) && r[o + 2] == First(C, 0)
            && Chain(r, Last(A, 0), C, 0) && r[h] == First(A, o)
  {
    var prev := Last(A, 0);
    var m2 := m[o + 1 := prev][o + 2 := First(C, 0)];
    OwnLinks(m, A, o, C);
    SortedParts(A, o, C);
    if |A| == 0 {
      ChainKeep(m2, prev, C, 0, h, o);
    } else {
      ChainLastNext(m, 0, A, First(C, 0));
      ChainSetNext(m2, 0, A, First(C, 0), o);
      ChainKeep(m2, prev, C, 0, prev + 2, o);
    }
  }

  lemma {:induction false} ChainLastNext(m: seq<nat>, before: nat, L: seq<nat>, after: nat)
    requires Chain(m, before, L, after) && |L| > 0
    ensures Last(L, 0) + BLK <= |m| && m[Last(L, 0) + 2] == after
    decreases |L|
  {
    if |L| > 1 {
      assert Last(L, 0) == Last(L[1..], 0);
      ChainLastNext(m, L[0], L[1..], after);
    }
  }

  lemma LinkBackMerges(m: seq<nat>, h: nat, A: seq<nat>, o: nat, C: seq<nat>)
    requires Gap(m, A, o, C) && Sorted(A + [o] + C) && h < HDR && m[h] == First(A, First(C, 0))
    requires |A| > 0 && Touches(m, Last(A, 0), o)
    ensures var prev := Last(A, 0);
            var r := LinkBack(m, h, o, prev, true);
            Chain(r, 0, A, First(C, 0)) && Chain(r, prev, C, 0) && r[h] == m[h]
            && r[prev] == m[prev] + m[o]
  {
    var prev := Last(A, 0);
    var m1 := m[o + 1 := prev];
    LinksApart(A, o, C);
    assert LinkBack(m, h, o, prev, true) == m1[prev := m[prev] + m[o]];
    hide Sorted, OffLinks, Touches, LinkBack, Chain, First, Last;
    KeepBoth(m, A, C, o + 1, prev);
    KeepBoth(m1, A, C, prev, m[prev] + m[o]);
  }

  lemma KeepBoth(m: seq<nat>, A: seq<nat>, C: seq<nat>, p: nat, v: nat)
    requires Chain(m, 0, A, First(C, 0)) && Chain(m, Last(A, 0), C, 0) && p < |m| && OffLinks(A, p) && OffLinks(C, p)
    ensures Chain(m[p := v], 0, A, First(C, 0)) && Chain(m[p := v], Last(A, 0), C, 0)
  {
    hide OffLinks;
    ChainKeep(m, 0, A, First(C, 0), p, v);
    ChainKeep(m, Last(A, 0), C, 0, p, v);
  }

  /** The size word of the block before o and the back link of o are no links of the others. */
  lemma LinksApart(A: seq<nat>, o: nat, C: seq<nat>)
    requires Sorted(A + [o] + C) && |A| > 0
    ensures OffLinks(A, o + 1) && OffLinks(C, o + 1) && OffLinks(A, Last(A, 0)) && OffLinks(C, Last(A, 0))
  {
    SortedParts(A, o, C);
    assert forall i :: 0 <= i < |A| - 1 ==> A[i] + BLK <= A[|A| - 1];
  }

  /** The block at o is the last of A; C follows, but its first block still points back elsewhere. */
  ghost predicate HalfLinked(m: seq<nat>, A: seq<nat>, o: nat, back: nat, C: seq<nat>) {
    && |A| > 0 && o == A[|A| - 1] && HDR <= o && o + BLK <= |m|
    && Chain(m, 0, A, First(C, 0)) && Chain(m, back, C, 0)
    && m[o + 2] == First(C, 0) && First(C, 0) + BLK <= |m|
    && (|C| > 0 ==> HDR <= C[0] && m[C[0] + 2] == First(C[1..], 0) && First(C[1..], 0) + BLK <= |m|)
    && (|C| > 1 ==> HDR <= C[1])
  }

  lemma LinkForwardLinks(m: seq<nat>, A: seq<nat>, o: nat, back: nat, C: seq<nat>, free: bool)
    requires HalfLinked(m, A, o, back, C) && Sorted(A) && Sorted(C) && Apart(A, C)
    requires !(free && |C| > 0 && Touches(m, o, C[0]))
    ensures Chain(LinkForward(m, o, free), 0, A + C, 0)
  {
    assert LinkForward(m, o, free) == if |C| > 0 then m[C[0] + 1 := o] else m;
    assert |C| > 0 ==> OffLinks(A, C[0] + 1);
    hide LinkForward, OffLinks, Apart, Touches;
    if |C| > 0 {
      ChainKeep(m, 0, A, C[0], C[0] + 1, o);
      ChainSetPrev(m, back, C, 0, o);
    }
    ChainConcat(LinkForward(m, o, free), 0, A, C, 0);
  }

  lemma LinkForwardMerges(m: seq<nat>, A: seq<nat>, o: nat, back: nat, C: seq<nat>)
    requires HalfLinked(m, A, o, back, C) && Sorted(A) && Sorted(C) && Apart(A, C)
    requires |C| > 0 && Touches(m, o, C[0])
    ensures Chain(LinkForward(m, o, true), 0, A + C[1..], 0)
    ensures LinkForward(m, o, true)[o] == m[o] + m[C[0]]
  {
    var q, D := C[0], C[1..];
    var m2 := m[o := m[o] + m[q]][o + 2 := m[q + 2]];
    Absorb(m, A, o, back, C);
    assert LinkForward(m, o, true) == if |D| > 0 then m2[D[0] + 1 := o] else m2;
    assert Sorted(D);
    assert |D| > 0 ==> D[0] + BLK <= |m|;
    hide LinkForward, HalfLinked, Sorted, OffLinks, Apart, Touches;
    if |D| > 0 {
      ChainSetPrev(m2, q, D, 0, o);
      ChainKeep(m2, 0, A, D[0], D[0] + 1, o);
    }
    ChainConcat(LinkForward(m, o, true), 0, A, D, 0);
  }

  lemma Absorb(m: seq<nat>, A: seq<nat>, o: nat, back: nat, C: seq<nat>)
    requires HalfLinked(m, A, o, back, C) && Sorted(A) && Sorted(C) && Apart(A, C) && |C| > 0
    ensures var m2 := m[o := m[o] + m[C[0]]][o + 2 := m[C[0] + 2]];
            Chain(m2, 0, A, First(C[1..], 0)) && Chain(m2, C[0], C[1..], 0)
    ensures |C| > 1 ==> OffLinks(A, C[1] + 1)
  {
    var q, D := C[0], C[1..];
    var m1 := m[o := m[o] + m[q]];
    ChainKeep(m, 0, A, q, o, m[o] + m[q]);
    ChainKeep(m, q, D, 0, o, m[o] + m[q]);
    ChainSetNext(m1, 0, A, q, First(D, 0));
    ChainKeep(m1, q, D, 0, o + 2, m[q + 2]);
  }
}
