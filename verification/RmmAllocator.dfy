/**
 The allocator's public operations. Offsets are in words from the start of the
 region, requests in bytes; a payload starts BLK words after its block.
 */
module RmmAllocator {
  import opened Basics
  import opened RmmBlocks
  import opened RmmLists
  import opened RmmSplit
  import opened Rmm

  /** The block size in words that serves a request: a header and the least payload that holds the bytes. */
  function Need(bytes: nat): (n: nat)
    ensures bytes <= 8 * (n - BLK) < bytes + 8
  {
    AlignedWords(bytes) + BLK
  }

  /**
   A request is granted from the first of the smallest free blocks with room for a header and the bytes, or refused.
   */
  ghost predicate AllocatedFor(bs: seq<Block>, bytes: nat, r: nat, k: nat, bs': seq<Block>) {
    exists words: nat :: bytes <= 8 * words < bytes + 8 && Allocated(bs, words + BLK, r, k, bs')
  }

  /**
   A free block of `was` words that serves the bytes is given whole when nothing could be stored in the rest, and
   otherwise only the words that hold the bytes.
   */
  ghost predicate CutTo(was: nat, bytes: nat, size: nat) {
    if 8 * (was - 2 * BLK) < bytes + 8 then size == was else bytes <= 8 * (size - BLK) < bytes + 8
  }

  /** All words that hold one of the bytes of the payload at r are zero. */
  ghost predicate Cleared(m: seq<nat>, r: nat, bytes: nat) {
    forall i: nat :: 8 * i < bytes ==> r + i < |m| && m[r + i] == 0
  }

  /**
   The first min(old, new) bytes of the payload at q are those of the one at p: all words that hold one of them are the
   same, where the old payload has so many words.
   */
  ghost predicate FirstBytes(m: seq<nat>, r: seq<nat>, p: nat, q: nat, words: nat, bytes: nat) {
    forall i: nat :: i < words && 8 * i < bytes ==> p + i < |m| && q + i < |r| && r[q + i] == m[p + i]
  }

  /** The live payload at offset p is that of block k. */
  ghost predicate LiveAt(bs: seq<Block>, p: nat, k: nat) {
    k < |bs| && bs[k].used && bs[k].off + BLK == p
  }

  /** What an allocation does to the blocks: the best fit is taken, or nothing fits and nothing changes. */
  ghost predicate Allocated(bs: seq<Block>, n: nat, r: nat, k: nat, bs': seq<Block>) {
    if r == 0 then bs' == bs && forall j :: 0 <= j < |bs| ==> !Fits(bs[j], n)
    else BestFit(bs, n, k) && r == bs[k].off + BLK && bs' == Take(bs, k, n)
  }

  class Allocator {
    const base: array<nat>
    ghost var blocks: seq<Block>

    ghost predicate Valid()
      reads this, base
    {
      Rep(base[..], blocks) && Inv(blocks, base.Length)
    }

    /** apr_rmm_init */
    constructor (base: array<nat>)
      requires base.Length >= HDR + BLK
      modifies base
      ensures Valid() && this.base == base && blocks == Initial(base.Length)
    {
      this.base := base;
      blocks := Initial(base.Length);
      new;
      base[0] := base.Length;
      base[FIRSTUSED] := 0;
      base[FIRSTFREE] := HDR;
      base[HDR] := base.Length - HDR;
      base[HDR + 1] := 0;
      base[HDR + 2] := 0;
      InitialRep(base[..]);
    }

    /** apr_rmm_malloc */
    method Malloc(reqsize: nat) returns (r: nat, ghost k: nat)
      requires Valid()
      modifies this, base
      ensures Valid() && Allocated(old(blocks), Need(reqsize), r, k, blocks) &&
              AllocatedFor(old(blocks), reqsize, r, k, blocks)
      ensures LiveKept(old(base[..]), base[..], old(blocks), -1)
      ensures r == 0 ==> base[..] == old(base[..])
      ensures r != 0 ==>
                LiveAt(blocks, r, k) && blocks[k].size >= Need(reqsize) && r + AlignedWords(reqsize) <= base.Length
      ensures r != 0 ==> reqsize <= 8 * (blocks[k].size - BLK) && r + (blocks[k].size - BLK) <= base.Length
      ensures r != 0 ==> CutTo(old(blocks)[k].size, reqsize, blocks[k].size)
    {
      ghost var m, bs := base[..], blocks;
      hide AllocatedFor, LiveKept, Take, Rep, Inv;
      r, k := FindBlockOfSize(base, Need(reqsize), bs);
      if r != 0 {
        UseBlock(base, r, bs, k, Need(reqsize), m);
        blocks := Take(bs, k, Need(reqsize));
        TakeKeepsInv(bs, base.Length, k, Need(reqsize));
        TakenBlock(bs, k, Need(reqsize));
        EndsInRegion(blocks, base.Length, k);
        r := r + BLK;
      }
      InBytes(bs, reqsize, r, k, blocks);
    }

    /** apr_rmm_calloc */
    method Calloc(reqsize: nat) returns (r: nat, ghost k: nat)
      requires Valid()
      modifies this, base
      ensures Valid() && AllocatedFor(old(blocks), reqsize, r, k, blocks)
      ensures LiveKept(old(base[..]), base[..], old(blocks), -1)
      ensures r != 0 ==> LiveAt(blocks, r, k) && reqsize <= 8 * (blocks[k].size - BLK) && Cleared(base[..], r, reqsize)
    {
      hide AllocatedFor, LiveKept, Take, Inv, Allocated, Cleared, BestFit;
      ghost var bs := blocks;
      r, k := Malloc(reqsize);
      if r != 0 {
        ghost var m := base[..];
        GrantedFits(bs, Need(reqsize), r, k, blocks);
        Clear(base, r, AlignedWords(reqsize));
        PayloadWrite(m, base[..], blocks, k);
        TakeKeepsLive(old(base[..]), m, base[..], bs, k, Need(reqsize));
        WordsHoldBytes(base[..], r, AlignedWords(reqsize), reqsize);
      }
    }

    /**
     apr_rmm_free of the payload of a block, or of an offset that is too small. The first free block is refused; another
     free block passes the checks, leaves the free list and returns to its place.
     */
    method Free(p: nat, ghost k: nat) returns (s: Status)
      requires Valid()
      requires p < HDR + BLK || (k < |blocks| && blocks[k].off + BLK == p)
      modifies this, base
      ensures Valid()
      ensures s == Success <==> p >= HDR + BLK && (LiveAt(old(blocks), p, k) || LaterFree(old(blocks), k))
      ensures p >= HDR + BLK && LiveAt(old(blocks), p, k) ==>
                blocks == Release(old(blocks), k) && PayloadsKept(old(base[..]), base[..], old(blocks))
      ensures p < HDR + BLK || !LiveAt(old(blocks), p, k) ==> blocks == old(blocks) && base[..] == old(base[..])
    {
      hide Rep, Inv, Release, PayloadsKept;
      if p < HDR + BLK {
        return Invalid;
      }
      var o := p - BLK;
      SaneBounds(base[..], blocks, k);
      SaneIffUsedOrLaterFree(base[..], blocks, k);
      if base[o + 1] != 0 {
        if base[base[o + 1] + 2] != o {
          return Invalid;
        }
      } else if base[FIRSTUSED] != o {
        return Invalid;
      }
      if base[o + 2] != 0 {
        if base[base[o + 2] + 1] != o {
          return Invalid;
        }
      }
      MoveBlock(base, o, true, blocks, k);
      if blocks[k].used {
        ReleaseKeepsInv(blocks, base.Length, k);
        blocks := Release(blocks, k);
      }
      return Success;
    }

    /**
     apr_rmm_realloc of the live block j at p, or of NULL (0). The copied length comes
     from the block size, which counts the header, so up to BLK words after the old
     payload are read too; beyond holds the words that follow the region.
     */
    method Realloc(p: nat, ghost j: nat, reqsize: nat, beyond: seq<nat>) returns (r: nat, ghost k: nat)
      requires Valid() && |beyond| == BLK && (p == 0 || LiveAt(blocks, p, j))
      modifies this, base
      ensures Valid()
      ensures p == 0 || r == 0 ==> AllocatedFor(old(blocks), reqsize, r, k, blocks)
      ensures p == 0 || r == 0 ==> LiveKept(old(base[..]), base[..], old(blocks), -1)
      ensures p != 0 && r != 0 ==> ReallocatedFor(old(blocks), reqsize, j, r, k, blocks)
      ensures p != 0 && r != 0 ==> LiveKept(old(base[..]), base[..], old(blocks), j)
      ensures p != 0 && r != 0 ==>
                FirstBytes(old(base[..]), base[..], p, r, old(blocks)[j].size - BLK, reqsize)
    {
      hide Rep, Inv, LiveKept, Take, Reallocated, Prefix, Allocated;
      if p == 0 {
        r, k := Malloc(reqsize);
        return;
      }
      ghost var m0, bs := base[..], blocks;
      var words := AlignedWords(reqsize);
      assert AlignedWords(8 * words) == words;
      r, k := Malloc(8 * words);
      if r == 0 {
        return;
      }
      LiveSize(bs, base.Length, j);
      GrantedFits(bs, words + BLK, r, k, blocks);
      MoveInto(p, r, words, beyond, bs, j, k, m0);
      PrefixHoldsBytes(m0, base[..], p, r, bs[j].size - BLK, words, reqsize);
      MakeReallocated(bs, words, reqsize, j, r, k, blocks);
    }

    /** The copy and the final free of apr_rmm_realloc, once block k has been taken. */
    method MoveInto(p: nat, r: nat, words: nat, beyond: seq<nat>, ghost bs: seq<Block>, ghost j: nat, ghost k: nat,
                    ghost m0: seq<nat>)
      requires Valid() && |beyond| == BLK && LiveAt(bs, p, j) && bs[j].size >= BLK
      requires BestFit(bs, words + BLK, k) && blocks == Take(bs, k, words + BLK) && r == bs[k].off + BLK
      requires LiveKept(m0, base[..], bs, -1)
      modifies this, base
      ensures Valid() && Reallocated(bs, words + BLK, j, r, k, blocks)
      ensures LiveKept(m0, base[..], bs, j)
      ensures Prefix(m0, base[..], p, r, Min(bs[j].size - BLK, words))
    {
      hide Rep, Inv, LiveKept, Take, Prefix, Release;
      TakenBlock(bs, k, words + BLK);
      ghost var t, j', m := blocks, Moved(j, k, bs, blocks), base[..];
      MovedBlock(bs, j, k, words + BLK);
      LiveSize(t, base.Length, j');
      CopyPayload(base, beyond, p, r, words, t, j', k);
      ghost var m1 := base[..];
      var s := Free(p, j');
      ReallocKeeps(m0, m, m1, base[..], bs, j, k, words + BLK);
      PrefixKept(m0, m, m1, base[..], bs, j, k, r, words);
    }
  }

  /** The n words at q in r are those at p in m. */
  ghost predicate Prefix(m: seq<nat>, r: seq<nat>, p: nat, q: nat, n: nat) {
    q + n <= |r| && p + n <= |m| && forall i :: q <= i < q + n ==> r[i] == m[i - q + p]
  }

  /** A block for n words was taken, and then block j freed. */
  ghost predicate Reallocated(bs: seq<Block>, n: nat, j: nat, r: nat, k: nat, bs': seq<Block>)
    requires j < |bs| && bs[j].used
  {
    && BestFit(bs, n, k) && r == bs[k].off + BLK
    && var t := Take(bs, k, n);
       |t| >= |bs| && Moved(j, k, bs, t) < |t| && t[Moved(j, k, bs, t)] == bs[j] &&
         bs' == Release(t, Moved(j, k, bs, t))
  }

  /** Room for so many bytes was taken from the best fit, and then block j freed. */
  ghost predicate ReallocatedFor(bs: seq<Block>, bytes: nat, j: nat, r: nat, k: nat, bs': seq<Block>)
    requires j < |bs| && bs[j].used
  {
    exists words: nat :: bytes <= 8 * words < bytes + 8 && Reallocated(bs, words + BLK, j, r, k, bs')
  }

  lemma WordsHoldBytes(m: seq<nat>, r: nat, words: nat, bytes: nat)
    requires bytes <= 8 * words && r + words <= |m| && forall p :: r <= p < r + words ==> m[p] == 0
    ensures Cleared(m, r, bytes)
  {
  }

  lemma InBytes(bs: seq<Block>, bytes: nat, r: nat, k: nat, bs': seq<Block>)
    requires Allocated(bs, Need(bytes), r, k, bs')
    ensures AllocatedFor(bs, bytes, r, k, bs')
  {
    hide Allocated;
    var words := Need(bytes) - BLK;
    assert Allocated(bs, words + BLK, r, k, bs');
  }

  lemma EndsInRegion(bs: seq<Block>, hi: nat, k: nat)
    requires Inv(bs, hi) && k < |bs|
    ensures bs[k].off + bs[k].size <= hi
  {
    InRange(bs, HDR, hi, k);
  }

  lemma MakeReallocated(bs: seq<Block>, words: nat, bytes: nat, j: nat, r: nat, k: nat, bs': seq<Block>)
    requires j < |bs| && bs[j].used && bytes <= 8 * words < bytes + 8 && Reallocated(bs, words + BLK, j, r, k, bs')
    ensures ReallocatedFor(bs, bytes, j, r, k, bs')
  {
    hide Reallocated;
  }

  lemma GrantedFits(bs: seq<Block>, n: nat, r: nat, k: nat, bs': seq<Block>)
    requires Allocated(bs, n, r, k, bs') && r != 0
    ensures BestFit(bs, n, k) && k < |bs| && Fits(bs[k], n) && r == bs[k].off + BLK && bs' == Take(bs, k, n)
  {
  }

  lemma PrefixHoldsBytes(m: seq<nat>, r: seq<nat>, p: nat, q: nat, old_: nat, words: nat, bytes: nat)
    requires Prefix(m, r, p, q, Min(old_, words)) && bytes <= 8 * words
    ensures FirstBytes(m, r, p, q, old_, bytes)
  {
    forall i: nat | i < old_ && 8 * i < bytes ensures p + i < |m| && q + i < |r| && r[q + i] == m[p + i] {
      assert q <= q + i < q + Min(old_, words) && q + i - q + p == p + i;
    }
  }

  /** The copy of apr_rmm_realloc from the payload of block j to the payload of block k. */
  method CopyPayload(a: array<nat>, beyond: seq<nat>, p: nat, r: nat, words: nat,
                     ghost t: seq<Block>, ghost j: nat, ghost k: nat)
    requires Rep(a[..], t) && j < |t| && k < |t| && j != k && p == t[j].off + BLK && r == t[k].off + BLK
    requires words + BLK <= t[k].size && |beyond| == BLK
    modifies a
    ensures Rep(a[..], t) && LiveKept(old(a[..]), a[..], t, k)
    ensures Prefix(old(a[..]), a[..], p, r, Min(t[j].size - BLK, words))
  {
    ghost var m := a[..];
    SizeWord(m, t, j);
    SizeWord(m, t, k);
    var oldsize := a[p - BLK];
    TwoBlocks(t, a.Length, j, k, r, words);
    Copy(a, beyond, r, p, if oldsize < words then oldsize else words);
    PayloadWrite(m, a[..], t, k);
  }

  lemma PrefixKept(m0: seq<nat>, m: seq<nat>, m1: seq<nat>, r: seq<nat>, bs: seq<Block>, j: nat, k: nat, q: nat,
                   words: nat)
    requires k < |bs| && Fits(bs[k], words + BLK) && j < |bs| && bs[j].used && bs[j].size >= BLK
    requires q == bs[k].off + BLK && LiveKept(m0, m, bs, -1) && PayloadsKept(m1, r, Take(bs, k, words + BLK))
    requires Prefix(m, m1, bs[j].off + BLK, q, Min(bs[j].size - BLK, words)) && |m1| == |m|
    ensures Prefix(m0, r, bs[j].off + BLK, q, Min(bs[j].size - BLK, words))
  {
    var t := Take(bs, k, words + BLK);
    assert t[k].off == bs[k].off && t[k].size >= words + BLK;
  }

  /** memset of n words to zero */
  method Clear(a: array<nat>, from: nat, n: nat)
    requires from + n <= a.Length
    modifies a
    ensures forall p :: 0 <= p < a.Length ==> a[p] == if from <= p < from + n then 0 else old(a[p])
  {
    for i := 0 to n
      invariant forall p :: 0 <= p < a.Length ==> a[p] == if from <= p < from + i then 0 else old(a[p])
    {
      a[from + i] := 0;
    }
  }

  /** memcpy of n words; words past the end of the region come from the memory that follows it. */
  method Copy(a: array<nat>, beyond: seq<nat>, dst: nat, src: nat, n: nat)
    requires dst + n <= a.Length && src + n <= a.Length + |beyond|
    requires dst + n <= src || src + n <= dst
    modifies a
    ensures forall p :: 0 <= p < a.Length && !(dst <= p < dst + n) ==> a[p] == old(a[p])
    ensures forall p :: dst <= p < dst + n && p - dst + src < a.Length ==> a[p] == old(a[p - dst + src])
  {
    for i := 0 to n
      invariant forall p :: 0 <= p < a.Length && !(dst <= p < dst + i) ==> a[p] == old(a[p])
      invariant forall p :: dst <= p < dst + i && p - dst + src < a.Length ==> a[p] == old(a[p - dst + src])
    {
      a[dst + i] := if src + i < a.Length then a[src + i] else beyond[src + i - a.Length];
    }
  }

  lemma InitialRep(m: seq<nat>)
    requires |m| >= HDR + BLK && m[0] == |m| && m[FIRSTUSED] == 0 && m[FIRSTFREE] == HDR
    requires m[HDR] == |m| - HDR && m[HDR + 1] == 0 && m[HDR + 2] == 0
    ensures Rep(m, Initial(|m|)) && Inv(Initial(|m|), |m|)
  {
    var bs := Initial(|m|);
    assert bs[1..] == [] && Offs(bs[1..], true) == [] && Offs(bs[1..], false) == [];
    assert Offs(bs, true) == [] && Offs(bs, false) == [HDR];
    assert [HDR][1..] == [];
  }

  lemma LiveSize(bs: seq<Block>, hi: nat, j: nat)
    requires Inv(bs, hi) && j < |bs|
    ensures bs[j].off >= HDR && bs[j].size >= BLK
  {
    InRange(bs, HDR, hi, j);
  }

  lemma TakenBlock(bs: seq<Block>, k: nat, n: nat)
    requires k < |bs| && Fits(bs[k], n)
    ensures |Take(bs, k, n)| >= |bs|
    ensures LiveAt(Take(bs, k, n), bs[k].off + BLK, k)
    ensures Take(bs, k, n)[k].size == if bs[k].size > BLK + n then n else bs[k].size
  {
  }

  /** The found block, cut to size, moves to the used list. */
  method UseBlock(a: array<nat>, o: nat, ghost bs: seq<Block>, ghost k: nat, ghost n: nat, ghost m: seq<nat>)
    requires k < |bs| && Fits(bs[k], n) && o == bs[k].off && n >= BLK
    requires var cut := if bs[k].size > BLK + n then Split(bs, k, n) else bs;
             Rep(a[..], cut) && PayloadsKept(m, a[..], cut)
    modifies a
    ensures Rep(a[..], Take(bs, k, n)) && LiveKept(m, a[..], bs, -1)
  {
    ghost var cut := if bs[k].size > BLK + n then Split(bs, k, n) else bs;
    ghost var m1 := a[..];
    SplitThenFlip(bs, k, n);
    MoveBlock(a, o, false, cut, k);
    assert PayloadsKept(m, a[..], cut);
    assert LiveKept(m, a[..], bs, -1) by {
      if bs[k].size > BLK + n { LiveKeptThroughSplit(m, a[..], bs, k, n); }
    }
  }

  /** The index of block j after block k was taken. */
  ghost function Moved(j: nat, k: nat, bs: seq<Block>, t: seq<Block>): nat
    requires |t| >= |bs|
  {
    if j < k then j else j + |t| - |bs|
  }

  lemma MovedBlock(bs: seq<Block>, j: nat, k: nat, n: nat)
    requires j < |bs| && bs[j].used && k < |bs| && Fits(bs[k], n)
    ensures var t := Take(bs, k, n);
            |t| >= |bs| && Moved(j, k, bs, t) < |t| && Moved(j, k, bs, t) != k && t[Moved(j, k, bs, t)] == bs[j]
  {
  }

  lemma SizeWord(m: seq<nat>, bs: seq<Block>, k: nat)
    requires Rep(m, bs) && k < |bs|
    ensures bs[k].off + bs[k].size <= |m| && m[bs[k].off] == bs[k].size
  {
    InRange(bs, HDR, |m|, k);
  }

  /** Copying from block j into the payload of block k never overlaps, even a header past block j. */
  lemma TwoBlocks(bs: seq<Block>, hi: nat, j: nat, k: nat, r: nat, n: nat)
    requires Tiles(bs, HDR, hi) && j < |bs| && k < |bs| && j != k && r == bs[k].off + BLK && n + BLK <= bs[k].size
    ensures r + n <= bs[j].off || bs[j].off + BLK + bs[j].size <= r
  {
    if j < k { Ordered(bs, HDR, hi, j, k); } else { Ordered(bs, HDR, hi, k, j); }
  }

  lemma ReallocKeeps(m0: seq<nat>, m: seq<nat>, m1: seq<nat>, r: seq<nat>, bs: seq<Block>, j: nat, k: nat, n: nat)
    requires k < |bs| && Fits(bs[k], n) && n >= BLK && j < |bs| && bs[j].used
    requires LiveKept(m0, m, bs, -1) && LiveKept(m, m1, Take(bs, k, n), k) && PayloadsKept(m1, r, Take(bs, k, n))
    ensures LiveKept(m0, r, bs, j)
  {
    TakeKeepsLive(m0, m, m1, bs, k, n);
    forall i, p | 0 <= i < |bs| && i != j && bs[i].used
      && bs[i].off + BLK <= p < bs[i].off + bs[i].size && p < |m0| ensures r[p] == m0[p] {
      MovedBlock(bs, i, k, n);
    }
  }

  /** Words outside the payload of the block just taken are as before for every older live block. */
  lemma TakeKeepsLive(m0: seq<nat>, m: seq<nat>, r: seq<nat>, bs: seq<Block>, k: nat, n: nat)
    requires k < |bs| && Fits(bs[k], n) && n >= BLK && LiveKept(m0, m, bs, -1)
    requires LiveKept(m, r, Take(bs, k, n), k)
    ensures LiveKept(m0, r, bs, -1)
  {
    var t := Take(bs, k, n);
    forall i, p | 0 <= i < |bs| && i != -1 && bs[i].used
      && bs[i].off + BLK <= p < bs[i].off + bs[i].size && p < |m| ensures r[p] == m0[p] {
      if i < k {
        assert t[i] == bs[i];
      } else {
        assert t[i + |t| - |bs|] == bs[i];
      }
    }
  }
}
