/**
 Splitting a free block, and what the best-fit search over the free list finds.

 A cut writes a new header inside the payload of a free block and links it into
 the free list behind its first part; the used list and every other payload are
 not touched. The search returns the first of the smallest free blocks that are
 large enough, and no block exactly when none is.
 */
module RmmSplit {
  import opened RmmBlocks
  import opened RmmLists
  import opened RmmMoves

  /** Free block k is cut after n words. */
  ghost function Split(bs: seq<Block>, k: nat, n: nat): seq<Block>
    requires k < |bs| && n <= bs[k].size
  {
    bs[..k] + [Block(bs[k].off, n, false), Block(bs[k].off + n, bs[k].size - n, false)] + bs[k + 1..]
  }

  /** The writes of find_block_of_size that cut the block at o after n words. */
  function SplitWrites(m: seq<nat>, o: nat, n: nat): (r: seq<nat>)
    requires o + BLK <= |m| && o + n + BLK <= |m| && n <= m[o] && BLK <= n && m[o + 2] + BLK <= |m|
    ensures |r| == |m|
  {
    var q, next := o + n, m[o + 2];
    var rest: nat := m[o] - n;
    var m1 := m[q := rest][q + 2 := next][q + 1 := o][o := n][o + 2 := q];
    if next != 0 then m1[next + 1 := q] else m1
  }

  lemma SplitTiles(bs: seq<Block>, k: nat, n: nat, hi: nat)
    requires Tiles(bs, HDR, hi) && k < |bs| && BLK <= n && n + BLK <= bs[k].size
    ensures Tiles(Split(bs, k, n), HDR, hi)
  {
    var s := Split(bs, k, n);
    var b := bs[k];
    assert forall i :: 0 <= i < |s| ==>
             s[i] == if i < k then bs[i] else if i == k then Block(b.off, n, false)
                     else if i == k + 1 then Block(b.off + n, b.size - n, false) else bs[i - 1];
    forall i, j | 0 <= i && j == i + 1 && j < |s| ensures s[j].off == s[i].off + s[i].size {
      if j <= k {
        assert bs[j].off == bs[i].off + bs[i].size;
      } else if i > k {
        assert bs[i].off == bs[i - 1].off + bs[i - 1].size;
      }
    }
  }

  lemma SplitFreeOffs(bs: seq<Block>, k: nat, n: nat)
    requires k < |bs| && n <= bs[k].size && !bs[k].used
    ensures Offs(Split(bs, k, n), false) ==
            Offs(bs[..k], false) + [bs[k].off] + ([bs[k].off + n] + Offs(bs[k + 1..], false))
  {
    var s := Split(bs, k, n);
    var tail := s[k + 1..];
    OffsSplit(s, k, false);
    assert s[..k] == bs[..k];
    assert tail[0] == Block(bs[k].off + n, bs[k].size - n, false) && tail[1..] == bs[k + 1..];
  }

  lemma {:induction false} UnlistedMiddle(P: seq<Block>, mid: seq<Block>, R: seq<Block>, u: bool)
    requires forall i :: 0 <= i < |mid| ==> mid[i].used != u
    ensures Offs(P + mid + R, u) == Offs(P, u) + Offs(R, u)
    decreases |mid|
  {
    if |mid| == 0 {
      assert P + mid + R == P + R;
      OffsConcat(P, R, u);
    } else {
      UnlistedMiddle(P + mid[..1], mid[1..], R, u);
      assert P + mid[..1] + mid[1..] + R == P + mid + R;
      assert mid[..1] == [mid[0]];
      OffsConcat(P, [mid[0]], u);
    }
  }

  lemma SplitUsedOffs(bs: seq<Block>, k: nat, n: nat)
    requires k < |bs| && n <= bs[k].size && !bs[k].used
    ensures Offs(Split(bs, k, n), true) == Offs(bs, true)
  {
    var P, R := bs[..k], bs[k + 1..];
    var mid := [Block(bs[k].off, n, false), Block(bs[k].off + n, bs[k].size - n, false)];
    calc {
      Offs(Split(bs, k, n), true);
      Offs(P + mid + R, true);
      { UnlistedMiddle(P, mid, R, true); }
      Offs(P, true) + Offs(R, true);
      { FlipOffs(bs, k, true); }
      Offs(bs, true);
    }
  }

  /** Cutting and then using the first part is what Take says. */
  lemma SplitThenFlip(bs: seq<Block>, k: nat, n: nat)
    requires k < |bs| && Fits(bs[k], n)
    ensures if bs[k].size > BLK + n then Flip(Split(bs, k, n), k) == Take(bs, k, n) else Flip(bs, k) == Take(bs, k, n)
  {
  }

  lemma SplitKeepsFront(m: seq<nat>, A: seq<nat>, o: nat, C: seq<nat>, n: nat)
    requires Middle(m, A, o, C) && BLK <= n <= m[o] && o + n + BLK <= |m|
    requires Before(A, o) && Before(A, o + n) && Apart(A, C)
    ensures Chain(SplitWrites(m, o, n), 0, A, o)
  {
    ChainSame(m, SplitWrites(m, o, n), 0, A, o);
  }

  lemma SplitKeepsBack(m: seq<nat>, A: seq<nat>, o: nat, C: seq<nat>, n: nat)
    requires Middle(m, A, o, C) && BLK <= n <= m[o] && o + n + BLK <= |m|
    requires After(o, C) && After(o + n, C) && Sorted(C)
    ensures Chain(SplitWrites(m, o, n), o + n, C, 0)
  {
    if |C| > 0 {
      assert forall i {:trigger C[1..][i]} :: 0 <= i < |C[1..]| ==> C[1..][i] == C[i + 1];
      ChainSame(m, SplitWrites(m, o, n), C[0], C[1..], 0);
    }
  }

  lemma SplitChain(m: seq<nat>, A: seq<nat>, o: nat, C: seq<nat>, n: nat)
    requires Middle(m, A, o, C) && BLK <= n <= m[o] && o + n + BLK <= |m|
    requires Sorted(A + [o] + ([o + n] + C))
    ensures Chain(SplitWrites(m, o, n), 0, A + [o] + ([o + n] + C), 0)
  {
    hide Sorted;
    var q, r := o + n, SplitWrites(m, o, n);
    assert Chain(r, 0, A, o) && Chain(r, q, C, 0) && o + BLK <= q && (|C| > 0 ==> q + BLK <= C[0])
           && (|A| > 0 ==> Last(A, 0) + BLK <= o) by {
      SplitParts(A, o, q, C);
      SplitKeepsFront(m, A, o, C, n);
      SplitKeepsBack(m, A, o, C, n);
    }
    ChainConcat(r, o, [q], C, 0);
    ChainConcat(r, 0, A, [o], q);
    ChainConcat(r, 0, A + [o], [q] + C, 0);
  }

  lemma SplitParts(A: seq<nat>, o: nat, q: nat, C: seq<nat>)
    requires Sorted(A + [o] + ([q] + C))
    ensures Before(A, o) && Before(A, q) && After(o, C) && After(q, C) && o + BLK <= q && Sorted(C) && Apart(A, C)
  {
    SortedParts(A, o, [q] + C);
    assert ([q] + C)[0] == q;
    assert forall i {:trigger C[i]} :: 0 <= i < |C| ==> ([q] + C)[i + 1] == C[i];
  }

  /** The two lists and the tiling around a free block k that is about to be cut. */
  lemma SplitLists(m: seq<nat>, bs: seq<Block>, k: nat, n: nat) returns (A: seq<nat>, C: seq<nat>)
    requires Rep(m, bs) && k < |bs| && !bs[k].used && BLK <= n && n + BLK <= bs[k].size
    ensures Middle(m, A, bs[k].off, C) && m[bs[k].off] == bs[k].size && bs[k].off + n + BLK <= |m|
    ensures Tiles(Split(bs, k, n), HDR, |m|) && Sorted(A + [bs[k].off] + ([bs[k].off + n] + C))
    ensures Offs(bs, false) == A + [bs[k].off] + C && Offs(Split(bs, k, n), true) == Offs(bs, true)
    ensures Offs(Split(bs, k, n), false) == A + [bs[k].off] + ([bs[k].off + n] + C)
  {
    A, C := Offs(bs[..k], false), Offs(bs[k + 1..], false);
    assert Offs(bs, false) == A + [bs[k].off] + C by { OffsSplit(bs, k, false); }
    SplitFreeOffs(bs, k, n);
    SplitUsedOffs(bs, k, n);
    SplitTiles(bs, k, n, |m|);
    assert Sorted(A + [bs[k].off] + ([bs[k].off + n] + C)) by { OffsSorted(Split(bs, k, n), HDR, |m|, false); }
    MiddleOfList(m, A, bs[k].off, C);
    InRange(bs, HDR, |m|, k);
  }

  lemma SplitWithin(m: seq<nat>, A: seq<nat>, o: nat, C: seq<nat>, n: nat)
    requires Middle(m, A, o, C) && BLK <= n <= m[o] && o + n + BLK <= |m|
    ensures Within(m, SplitWrites(m, o, n), A + [o] + ([o + n] + C))
  {
    forall p | 0 <= p < |m| && p >= HDR && !InHeader(A + [o] + ([o + n] + C), p)
      ensures SplitWrites(m, o, n)[p] == m[p]
    {
      InHeaderAt(A, o, [o + n] + C, p);
      assert |C| > 0 ==> ([o + n] + C)[1] == C[0];
    }
  }

  lemma SplitSizes(m: seq<nat>, bs: seq<Block>, k: nat, n: nat, A: seq<nat>, C: seq<nat>)
    requires Rep(m, bs) && k < |bs| && !bs[k].used && BLK <= n && n + BLK <= bs[k].size
    requires Middle(m, A, bs[k].off, C) && Offs(bs, false) == A + [bs[k].off] + C
    requires bs[k].off + n + BLK <= |m|
    ensures Sizes(SplitWrites(m, bs[k].off, n), Split(bs, k, n))
  {
    hide Chain, Tiles, SplitWrites, Offs;
    var s, r := Split(bs, k, n), SplitWrites(m, bs[k].off, n);
    SplitOwnSizes(m, bs, k, n, A, C);
    forall i | 0 <= i < |s| ensures s[i].off < |r| && r[s[i].off] == s[i].size {
      SplitIndex(bs, k, n, i);
      if i < k {
        SplitOtherSize(m, bs, k, n, A, C, i);
      } else if i > k + 1 {
        SplitOtherSize(m, bs, k, n, A, C, i - 1);
      }
    }
  }

  lemma SplitIndex(bs: seq<Block>, k: nat, n: nat, i: nat)
    requires k < |bs| && n <= bs[k].size && i < |bs| + 1
    ensures Split(bs, k, n)[i] == if i < k then bs[i] else if i == k then Block(bs[k].off, n, false)
              else if i == k + 1 then Block(bs[k].off + n, bs[k].size - n, false) else bs[i - 1]
  {
  }

  lemma SplitOwnSizes(m: seq<nat>, bs: seq<Block>, k: nat, n: nat, A: seq<nat>, C: seq<nat>)
    requires Rep(m, bs) && k < |bs| && !bs[k].used && BLK <= n && n + BLK <= bs[k].size
    requires Middle(m, A, bs[k].off, C) && Offs(bs, false) == A + [bs[k].off] + C
    requires bs[k].off + n + BLK <= |m|
    ensures var r := SplitWrites(m, bs[k].off, n);
            r[bs[k].off] == n && r[bs[k].off + n] == bs[k].size - n
    ensures |C| > 0 ==> C[0] in Offs(bs, false)
  {
    if |C| > 0 {
      assert C[0] == (A + [bs[k].off] + C)[|A| + 1];
      OffNotLink(bs, |m|, k, C[0], false);
      SplitNotLink(bs, |m|, k, n, C[0]);
    }
  }

  lemma SplitOtherSize(m: seq<nat>, bs: seq<Block>, k: nat, n: nat, A: seq<nat>, C: seq<nat>, i: nat)
    requires Rep(m, bs) && k < |bs| && !bs[k].used && BLK <= n && n + BLK <= bs[k].size
    requires Middle(m, A, bs[k].off, C) && (|C| > 0 ==> C[0] in Offs(bs, false))
    requires bs[k].off + n + BLK <= |m| && i < |bs| && i != k
    ensures bs[i].off < |m| && SplitWrites(m, bs[k].off, n)[bs[i].off] == bs[i].size
  {
    hide Chain, Tiles, SplitWrites, Offs;
    SplitElsewhere(bs, |m|, k, n, i);
    if |C| > 0 { OffNotLink(bs, |m|, i, C[0], false); }
    SplitWritesElsewhere(m, bs[k].off, n, bs[i].off);
  }

  lemma SplitElsewhere(bs: seq<Block>, hi: nat, k: nat, n: nat, i: nat)
    requires Tiles(bs, HDR, hi) && k < |bs| && n + BLK <= bs[k].size && i < |bs| && i != k
    ensures bs[i].off < hi && (bs[i].off < bs[k].off || bs[k].off + n + BLK <= bs[i].off)
  {
    if i < k { Ordered(bs, HDR, hi, i, k); } else { Ordered(bs, HDR, hi, k, i); }
    InRange(bs, HDR, hi, i);
  }

  lemma SplitWritesElsewhere(m: seq<nat>, o: nat, n: nat, p: nat)
    requires o + BLK <= |m| && o + n + BLK <= |m| && n <= m[o] && BLK <= n && m[o + 2] + BLK <= |m|
    requires p < |m| && (p < o || o + n + BLK <= p) && (m[o + 2] != 0 ==> p != m[o + 2] + 1)
    ensures SplitWrites(m, o, n)[p] == m[p]
  {
  }

  lemma SplitNotLink(bs: seq<Block>, hi: nat, k: nat, n: nat, y: nat)
    requires Tiles(bs, HDR, hi) && k < |bs| && BLK <= n && n + BLK <= bs[k].size && y in Offs(bs, false)
    ensures bs[k].off + n != y + 1
  {
    OffsMember(bs, false, y);
    var j :| 0 <= j < |bs| && bs[j].off == y && bs[j].used == false;
    if j < k { Ordered(bs, HDR, hi, j, k); }
    if k < j { Ordered(bs, HDR, hi, k, j); }
  }

  /** Cutting a free block keeps both lists and moves no header of another block. */
  lemma SplitRep(m: seq<nat>, bs: seq<Block>, k: nat, n: nat)
    requires Rep(m, bs) && k < |bs| && !bs[k].used && BLK <= n && n + BLK <= bs[k].size
    ensures bs[k].off + n + BLK <= |m| && m[bs[k].off] == bs[k].size && m[bs[k].off + 2] + BLK <= |m|
    ensures Rep(SplitWrites(m, bs[k].off, n), Split(bs, k, n))
    ensures Within(m, SplitWrites(m, bs[k].off, n), Offs(Split(bs, k, n), false))
  {
    hide Chain, Tiles, Offs, Within, SplitWrites, Split, Sorted, Middle;
    var o, s := bs[k].off, Split(bs, k, n);
    var A, C := SplitLists(m, bs, k, n);
    var r := SplitWrites(m, o, n);
    SplitWithin(m, A, o, C, n);
    assert Chain(r, 0, Offs(s, false), 0) by { SplitChain(m, A, o, C, n); }
    assert Chain(r, 0, Offs(s, true), 0) by { KeepsOther(m, r, s, false); }
    assert Sizes(r, s) by { SplitSizes(m, bs, k, n, A, C); }
    assert First(Offs(bs, false), 0) == First(Offs(s, false), 0);
    SplitHeads(m, A, o, C, n);
  }

  lemma SplitHeads(m: seq<nat>, A: seq<nat>, o: nat, C: seq<nat>, n: nat)
    requires Middle(m, A, o, C) && BLK <= n <= m[o] && o + n + BLK <= |m|
    ensures forall p :: 0 <= p < HDR ==> SplitWrites(m, o, n)[p] == m[p]
  {
  }
}
