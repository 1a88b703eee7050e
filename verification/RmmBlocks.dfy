/** The abstract state of the allocator: the blocks that tile the region. */
module RmmBlocks {

  // The blocks stand in address order, and follow the region header. Every offset
  // and size is in 8-byte words, the unit of APR_ALIGN_DEFAULT; the size of a block
  // includes its own header, as in the region.

  // RMM_HDR_BLOCK_SIZE and RMM_BLOCK_SIZE: three words each
  const HDR: nat := 3
  const BLK: nat := 3

  datatype Block = Block(off: nat, size: nat, used: bool)

  /** The blocks cover lo..hi without gap or overlap, each with room for its header. */
  ghost predicate Tiles(bs: seq<Block>, lo: nat, hi: nat) {
    && (forall i :: 0 <= i < |bs| ==> bs[i].size >= BLK)
    && (forall i, j :: 0 <= i && j == i + 1 && j < |bs| ==> bs[j].off == bs[i].off + bs[i].size)
    && lo == (if |bs| == 0 then hi else bs[0].off)
    && hi == if |bs| == 0 then lo else bs[|bs| - 1].off + bs[|bs| - 1].size
  }

  ghost predicate NoAdjacentFree(bs: seq<Block>) {
    forall i, j :: 0 <= i && j == i + 1 && j < |bs| ==> bs[i].used || bs[j].used
  }

  /** The invariant of every reachable state of a region that ends at hi. */
  ghost predicate Inv(bs: seq<Block>, hi: nat) {
    Tiles(bs, HDR, hi) && NoAdjacentFree(bs)
  }

  ghost function Initial(hi: nat): seq<Block>
    requires hi >= HDR + BLK
  {
    [Block(HDR, hi - HDR, false)]
  }

  /** The offsets of the used (or free) blocks, in address order: the contents of one list. */
  function Offs(bs: seq<Block>, used: bool): (r: seq<nat>) {
    if bs == [] then []
    else (if bs[0].used == used then [bs[0].off] else []) + Offs(bs[1..], used)
  }

  ghost predicate Fits(b: Block, n: nat) {
    !b.used && b.size >= n
  }

  /** Block k is the first among the smallest free blocks that can hold n words. */
  ghost predicate BestFit(bs: seq<Block>, n: nat, k: nat) {
    && k < |bs| && Fits(bs[k], n)
    && forall j :: 0 <= j < |bs| && Fits(bs[j], n) ==>
         bs[k].size <= bs[j].size && (j < k ==> bs[k].size < bs[j].size)
  }

  /** What becomes of free block b when it serves n words: a remainder with room for a payload stays free. */
  ghost function Served(b: Block, n: nat): seq<Block> {
    if b.size > BLK + n then [Block(b.off, n, true), Block(b.off + n, b.size - n, false)]
    else [Block(b.off, b.size, true)]
  }

  /** Block k serves a request of n words. */
  ghost function Take(bs: seq<Block>, k: nat, n: nat): (r: seq<Block>)
    requires k < |bs|
  {
    bs[..k] + Served(bs[k], n) + bs[k + 1..]
  }

  /** Freeing block k merges blocks MergeLo(bs, k)..MergeEnd(bs, k). */
  ghost function MergeLo(bs: seq<Block>, k: nat): nat
    requires k < |bs|
  {
    if k > 0 && !bs[k - 1].used then k - 1 else k
  }

  ghost function MergeEnd(bs: seq<Block>, k: nat): nat
    requires k < |bs|
  {
    if k + 1 < |bs| && !bs[k + 1].used then k + 2 else k + 1
  }

  ghost function MergedSize(bs: seq<Block>, k: nat): nat
    requires k < |bs|
  {
    (if MergeLo(bs, k) < k then bs[k - 1].size else 0) + bs[k].size
    + (if MergeEnd(bs, k) > k + 1 then bs[k + 1].size else 0)
  }

  /** Block k becomes free and merges with the free blocks on either side of it. */
  ghost function Release(bs: seq<Block>, k: nat): (r: seq<Block>)
    requires k < |bs|
  {
    var lo, end := MergeLo(bs, k), MergeEnd(bs, k);
    bs[..lo] + [Block(bs[lo].off, MergedSize(bs, k), false)] + bs[end..]
  }

  // ---------- lists ----------

  lemma {:induction false} OffsConcat(a: seq<Block>, b: seq<Block>, used: bool)
    ensures Offs(a + b, used) == Offs(a, used) + Offs(b, used)
  {
    if a == [] {
      assert a + b == b;
    } else {
      var x := if a[0].used == used then [a[0].off] else [];
      calc {
        Offs(a + b, used);
        { assert (a + b)[0] == a[0] && (a + b)[1..] == a[1..] + b; }
        x + Offs(a[1..] + b, used);
        { OffsConcat(a[1..], b, used); }
        x + (Offs(a[1..], used) + Offs(b, used));
        (x + Offs(a[1..], used)) + Offs(b, used);
        Offs(a, used) + Offs(b, used);
      }
    }
  }

  lemma {:induction false} OffsMember(bs: seq<Block>, used: bool, o: nat)
    ensures o in Offs(bs, used) <==> exists i :: 0 <= i < |bs| && bs[i].off == o && bs[i].used == used
  {
    if bs != [] {
      OffsMember(bs[1..], used, o);
      if o in Offs(bs[1..], used) {
        var i :| 0 <= i < |bs[1..]| && bs[1..][i].off == o && bs[1..][i].used == used;
        assert bs[i + 1].off == o && bs[i + 1].used == used;
      }
      if i :| 0 <= i < |bs| && bs[i].off == o && bs[i].used == used {
        if i > 0 {
          assert bs[1..][i - 1] == bs[i];
        }
      }
    }
  }

  /** The two lists around block k. */
  lemma OffsSplit(bs: seq<Block>, k: nat, used: bool)
    requires k < |bs|
    ensures Offs(bs, used) ==
            Offs(bs[..k], used) + (if bs[k].used == used then [bs[k].off] else []) + Offs(bs[k + 1..], used)
  {
    assert bs == bs[..k] + bs[k..];
    OffsConcat(bs[..k], bs[k..], used);
    assert bs[k..][0] == bs[k] && bs[k..][1..] == bs[k + 1..];
  }

  lemma {:induction false} Ordered(bs: seq<Block>, lo: nat, hi: nat, i: nat, j: nat)
    requires Tiles(bs, lo, hi) && i < j < |bs|
    ensures bs[i].off + bs[i].size <= bs[j].off
    decreases j
  {
    if i + 1 < j {
      Ordered(bs, lo, hi, i, j - 1);
    }
  }

  lemma InRange(bs: seq<Block>, lo: nat, hi: nat, i: nat)
    requires Tiles(bs, lo, hi) && i < |bs|
    ensures lo <= bs[i].off && bs[i].off + bs[i].size <= hi
  {
    assert bs[0].off == lo && bs[|bs| - 1].off + bs[|bs| - 1].size == hi;
    if 0 < i { Ordered(bs, lo, hi, 0, i); }
    if i < |bs| - 1 { Ordered(bs, lo, hi, i, |bs| - 1); }
  }

  // ---------- the invariant over all runs ----------

  lemma SpliceIndex(bs: seq<Block>, i: nat, j: nat, mid: seq<Block>, x: nat)
    requires i < j <= |bs| && x < i + |mid| + (|bs| - j)
    ensures (bs[..i] + mid + bs[j..])[x] ==
            if x < i then bs[x] else if x < i + |mid| then mid[x - i] else bs[x - i - |mid| + j]
  {
  }

  /** Blocks i..j are replaced by blocks that tile the same words. */
  lemma Splice(bs: seq<Block>, hi: nat, i: nat, j: nat, mid: seq<Block>)
    requires Inv(bs, hi) && i < j <= |bs| && |mid| > 0
    requires Tiles(mid, bs[i].off, bs[j - 1].off + bs[j - 1].size) && NoAdjacentFree(mid)
    requires i == 0 || bs[i - 1].used || mid[0].used
    requires j == |bs| || bs[j].used || mid[|mid| - 1].used
    ensures Inv(bs[..i] + mid + bs[j..], hi)
  {
    var r := bs[..i] + mid + bs[j..];
    forall x | 0 <= x < |r| ensures r[x].size >= BLK {
      SpliceIndex(bs, i, j, mid, x);
    }
    forall x, y | 0 <= x && y == x + 1 && y < |r|
      ensures r[y].off == r[x].off + r[x].size && (r[x].used || r[y].used)
    {
      SpliceIndex(bs, i, j, mid, x);
      SpliceIndex(bs, i, j, mid, y);
      SpliceSeam(bs, hi, i, j, mid);
    }
    SpliceIndex(bs, i, j, mid, 0);
    SpliceIndex(bs, i, j, mid, |r| - 1);
  }

  lemma SpliceSeam(bs: seq<Block>, hi: nat, i: nat, j: nat, mid: seq<Block>)
    requires Tiles(bs, HDR, hi) && i < j <= |bs| && |mid| > 0
    requires Tiles(mid, bs[i].off, bs[j - 1].off + bs[j - 1].size)
    ensures i > 0 ==> mid[0].off == bs[i - 1].off + bs[i - 1].size
    ensures j < |bs| ==> bs[j].off == mid[|mid| - 1].off + mid[|mid| - 1].size
  {
  }

  lemma ServedTiles(b: Block, n: nat)
    requires b.size >= n >= BLK
    ensures |Served(b, n)| > 0 && Served(b, n)[0].used
    ensures Tiles(Served(b, n), b.off, b.off + b.size) && NoAdjacentFree(Served(b, n))
  {
  }

  lemma TakeKeepsInv(bs: seq<Block>, hi: nat, k: nat, n: nat)
    requires Inv(bs, hi) && k < |bs| && Fits(bs[k], n) && n >= BLK
    ensures Inv(Take(bs, k, n), hi)
  {
    ServedTiles(bs[k], n);
    assert k + 1 < |bs| ==> bs[k].used || bs[k + 1].used;
    Splice(bs, hi, k, k + 1, Served(bs[k], n));
  }

  lemma ReleaseKeepsInv(bs: seq<Block>, hi: nat, k: nat)
    requires Inv(bs, hi) && k < |bs| && bs[k].used
    ensures Inv(Release(bs, k), hi)
  {
    var lo, end := MergeLo(bs, k), MergeEnd(bs, k);
    assert MergedSize(bs, k) == bs[end - 1].off + bs[end - 1].size - bs[lo].off;
    Splice(bs, hi, lo, end, [Block(bs[lo].off, MergedSize(bs, k), false)]);
  }

  /** Freeing what was just allocated restores the state. */
  lemma ReleaseUndoesTake(bs: seq<Block>, hi: nat, k: nat, n: nat)
    requires Inv(bs, hi) && k < |bs| && Fits(bs[k], n) && n >= BLK
    ensures Take(bs, k, n)[k].used && Release(Take(bs, k, n), k) == bs
  {
    var t := Take(bs, k, n);
    assert t[k].used && t[..k] == bs[..k];
    assert k > 0 ==> t[k - 1] == bs[k - 1] && bs[k - 1].used;
    assert MergeLo(t, k) == k;
    if bs[k].size > BLK + n {
      assert t[k + 1] == Block(bs[k].off + n, bs[k].size - n, false);
      assert t[k + 2..] == bs[k + 1..];
    } else {
      assert k + 1 < |bs| ==> t[k + 1] == bs[k + 1] && bs[k + 1].used;
      assert t[k + 1..] == bs[k + 1..];
    }
    assert bs == bs[..k] + [bs[k]] + bs[k + 1..];
    assert Release(t, k) == t[..k] + [bs[k]] + t[MergeEnd(t, k)..];
  }

  /** With no block in use, the region is in its initial state: one free block. */
  lemma AllFreeIsInitial(bs: seq<Block>, hi: nat)
    requires Inv(bs, hi) && hi >= HDR + BLK && Offs(bs, true) == []
    ensures bs == Initial(hi)
  {
    if |bs| > 1 {
      OffsMember(bs, true, bs[0].off);
      OffsMember(bs, true, bs[1].off);
    }
    OffsMember(bs, true, bs[0].off);
  }

  // ---------- freeing in any order ----------

  /** The block at offset o. */
  ghost predicate At(bs: seq<Block>, o: nat, k: nat) {
    k < |bs| && bs[k].off == o
  }

  /** cs results from freeing the used blocks at the given offsets, in that order. */
  ghost predicate FreeRun(bs: seq<Block>, order: seq<nat>, cs: seq<Block>)
    decreases |order|
  {
    if order == [] then cs == bs
    else exists k: nat :: At(bs, order[0], k) && bs[k].used && FreeRun(Release(bs, k), order[1..], cs)
  }

  lemma ReleaseOffs(bs: seq<Block>, k: nat)
    requires k < |bs| && bs[k].used
    ensures Offs(Release(bs, k), true) == Offs(bs[..k], true) + Offs(bs[k + 1..], true)
  {
    var lo, end := MergeLo(bs, k), MergeEnd(bs, k);
    var r := Release(bs, k);
    OffsSplit(r, lo, true);
    assert r[..lo] == bs[..lo] && r[lo + 1..] == bs[end..];
    if lo < k {
      OffsSplit(bs[..k], lo, true);
      assert bs[..k][..lo] == bs[..lo] && bs[..k][lo + 1..] == [];
    }
    if end > k + 1 {
      assert bs[k + 1..][0] == bs[k + 1] && bs[k + 1..][1..] == bs[end..];
    }
  }

  lemma WithoutOne(a: seq<nat>, x: nat, c: seq<nat>)
    ensures multiset(a + [x] + c) == multiset(a + c) + multiset{x}
  {
  }

  /** Freeing a live block drops exactly its offset from the used list. */
  lemma ReleaseUsed(bs: seq<Block>, k: nat)
    requires k < |bs| && bs[k].used
    ensures multiset(Offs(bs, true)) == multiset(Offs(Release(bs, k), true)) + multiset{bs[k].off}
  {
    OffsSplit(bs, k, true);
    ReleaseOffs(bs, k);
    WithoutOne(Offs(bs[..k], true), bs[k].off, Offs(bs[k + 1..], true));
  }

  lemma DropFirst(s: seq<nat>, m: multiset<nat>)
    requires s != [] && multiset(s) == m + multiset{s[0]}
    ensures multiset(s[1..]) == m
  {
    assert s == [s[0]] + s[1..];
    assert multiset(s) - multiset{s[0]} == m;
  }

  /** Every live block can be freed, whatever was freed before it. */
  lemma FreeRunStep(bs: seq<Block>, order: seq<nat>) returns (k: nat)
    requires order != [] && multiset(order) == multiset(Offs(bs, true))
    ensures At(bs, order[0], k) && bs[k].used
    ensures multiset(order[1..]) == multiset(Offs(Release(bs, k), true))
  {
    assert order[0] in multiset(Offs(bs, true));
    OffsMember(bs, true, order[0]);
    k :| 0 <= k < |bs| && bs[k].off == order[0] && bs[k].used;
    ReleaseUsed(bs, k);
    DropFirst(order, multiset(Offs(Release(bs, k), true)));
  }

  /** Freeing all live blocks is possible in every order and always ends in the initial state. */
  lemma {:induction false} FreeAllInAnyOrder(bs: seq<Block>, hi: nat, order: seq<nat>)
    requires Inv(bs, hi) && hi >= HDR + BLK
    requires multiset(order) == multiset(Offs(bs, true))
    ensures FreeRun(bs, order, Initial(hi))
    decreases |order|
  {
    if order == [] {
      assert |multiset(Offs(bs, true))| == 0;
      AllFreeIsInitial(bs, hi);
    } else {
      var k := FreeRunStep(bs, order);
      ReleaseKeepsInv(bs, hi, k);
      FreeAllInAnyOrder(Release(bs, k), hi, order[1..]);
    }
  }

  // ---------- whole runs ----------

  /** One request that is granted: n words with their header go to the best fit, or a live block is freed. */
  datatype Request = Alloc(n: nat, k: nat) | Free(k: nat)

  ghost predicate Grants(bs: seq<Block>, r: Request, cs: seq<Block>) {
    match r
    case Alloc(n, k) => n >= BLK && BestFit(bs, n, k) && cs == Take(bs, k, n)
    case Free(k) => k < |bs| && bs[k].used && cs == Release(bs, k)
  }

  ghost predicate Run(states: seq<seq<Block>>, requests: seq<Request>) {
    && |states| == |requests| + 1
    && forall i :: 0 <= i < |requests| ==> Grants(states[i], requests[i], states[i + 1])
  }

  /** Every state that requests can lead to keeps the invariant, and is the initial one when nothing is live. */
  lemma {:induction false} RunKeepsInv(states: seq<seq<Block>>, requests: seq<Request>, hi: nat, i: nat)
    requires hi >= HDR + BLK && Run(states, requests) && states[0] == Initial(hi) && i < |states|
    ensures Inv(states[i], hi)
    ensures |Offs(states[i], true)| == 0 ==> states[i] == Initial(hi)
  {
    if i > 0 {
      hide Inv, Take, Release, Offs;
      RunKeepsInv(states, requests, hi, i - 1);
      GrantKeepsInv(states[i - 1], requests[i - 1], states[i], hi);
    }
    if |Offs(states[i], true)| == 0 {
      AllFreeIsInitial(states[i], hi);
    }
  }

  lemma GrantKeepsInv(bs: seq<Block>, r: Request, cs: seq<Block>, hi: nat)
    requires Inv(bs, hi) && Grants(bs, r, cs)
    ensures Inv(cs, hi)
  {
    hide Inv, Take, Release;
    match r
    case Alloc(n, k) => TakeKeepsInv(bs, hi, k, n);
    case Free(k) => ReleaseKeepsInv(bs, hi, k);
  }
}
