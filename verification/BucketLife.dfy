/** Making, copying, deleting and appending buckets, pool cleanup, and counts over whole runs. */
module BucketLife {
  import opened Buckets
  import opened BucketSteps
  import opened BucketReads

  // ---------- creation ----------

  /** A bucket on new storage is linked in at position i; metadata has no storage. */
  function Inserted(w: World, i: nat, b: Bucket, d: Data): World
    requires i <= |w.ring|
  {
    World(if b.kind == META then w.mem else w.mem[w.next := d], w.next + 1, w.ring[..i] + [b] + w.ring[i..])
  }

  /** What the create functions make. */
  predicate Created(w: World, b: Bucket, d: Data) {
    if b.kind == META then b.start == 0 && b.length == 0
    else b.data == w.next && Fits(w.mem[w.next := d], b) && (Counted(d) ==> d.refs == 1)
  }

  lemma RingParts(w: World, i: nat)
    requires i <= |w.ring|
    ensures Uses(w.ring) == Uses(w.ring[..i]) + Uses(w.ring[i..])
    ensures AllFit(w.mem, w.ring) <==> AllFit(w.mem, w.ring[..i]) && AllFit(w.mem, w.ring[i..])
    ensures AllFit(w.mem, w.ring) ==>
              Content(w.mem, w.ring) == Content(w.mem, w.ring[..i]) + Content(w.mem, w.ring[i..])
    ensures AllSolid(w.mem, w.ring) <==> AllSolid(w.mem, w.ring[..i]) && AllSolid(w.mem, w.ring[i..])
  {
    hide Fits, Solid, Content, Uses;
    assert w.ring == w.ring[..i] + w.ring[i..];
    UsesConcat(w.ring[..i], w.ring[i..]);
    forall k | 0 <= k < |w.ring|
      ensures w.ring[k] == if k < i then w.ring[..i][k] else w.ring[i..][k - i]
    {
    }
    if AllFit(w.mem, w.ring) {
      ContentConcat(w.mem, w.ring[..i], w.ring[i..]);
    }
  }

  /** The new bucket's bytes come in at its position, and nothing else changes. */
  lemma InsertKeeps(w: World, i: nat, b: Bucket, d: Data, outside: multiset<nat>)
    requires Inv(w, outside) && i <= |w.ring| && Created(w, b, d)
    ensures var w' := Inserted(w, i, b, d);
            && Inv(w', outside) && Spares(w.mem, w'.mem, outside) && Fits(w'.mem, b)
            && AllFit(w.mem, w.ring[..i]) && AllFit(w.mem, w.ring[i..])
            && Content(w'.mem, w'.ring) ==
              Content(w.mem, w.ring[..i]) + BytesOf(w'.mem, b) + Content(w.mem, w.ring[i..])
            && (AllSolid(w.mem, w.ring) && Solid(w'.mem, b) ==> AllSolid(w'.mem, w'.ring))
  {
    var w' := Inserted(w, i, b, d);
    var a, c := w.ring[..i], w.ring[i..];
    NextIsUnused(w, outside);
    RingParts(w, i);
    InsertedMem(w, i, b, d, outside);
    var ids := Uses(w.ring) + outside;
    assert w'.ring == (a + [b]) + c;
    assert forall id :: id in outside ==> id in w.mem;
    assert forall id :: id in w'.mem ==> id < w'.next;
    assert forall id :: id in w.mem ==> id in w'.mem;
    hide *;
    SparesFewer(w.mem, w'.mem, ids, outside);
    SparedRing(w.mem, w'.mem, ids, a);
    SparedRing(w.mem, w'.mem, ids, c);
    ContentOne(w'.mem, b);
    ContentConcat(w'.mem, a, [b]);
    ContentConcat(w'.mem, a + [b], c);
    UsesOne(b);
    UsesConcat(a, [b]);
    UsesConcat(a + [b], c);
    SolidConcat(w'.mem, a, [b]);
    SolidConcat(w'.mem, a + [b], c);
    SolidOne(w'.mem, b);
    Swap(Uses(a), Use(b), Uses(c), outside);
    MakeInv(w', outside);
  }

  lemma MakeInv(w: World, outside: multiset<nat>)
    requires forall id :: id in w.mem ==> id < w.next
    requires forall id :: id in outside ==> id in w.mem
    requires AllFit(w.mem, w.ring) && Exact(w.mem, Uses(w.ring) + outside)
    ensures Inv(w, outside)
  {
  }

  lemma SolidConcat(m: Mem, a: seq<Bucket>, b: seq<Bucket>)
    ensures AllSolid(m, a + b) <==> AllSolid(m, a) && AllSolid(m, b)
  {
    hide Solid;
    forall k | 0 <= k < |a + b|
      ensures (a + b)[k] == if k < |a| then a[k] else b[k - |a|]
    {
    }
    assert forall k :: 0 <= k < |b| ==> (a + b)[k + |a|] == b[k];
  }

  lemma SolidOne(m: Mem, b: Bucket)
    ensures AllSolid(m, [b]) <==> Solid(m, b)
  {
    hide Solid;
    assert [b][0] == b;
  }

  lemma Swap(a: multiset<nat>, b: multiset<nat>, c: multiset<nat>, d: multiset<nat>)
    ensures a + b + c + d == (a + c + d) + b
  {
  }

  lemma NextIsUnused(w: World, outside: multiset<nat>)
    requires Inv(w, outside)
    ensures w.next !in w.mem && w.next !in Uses(w.ring) && w.next !in outside
    ensures AllFit(w.mem, w.ring) && Exact(w.mem, Uses(w.ring) + outside)
  {
    UsedInMem(w.mem, w.ring);
  }

  lemma InsertedMem(w: World, i: nat, b: Bucket, d: Data, outside: multiset<nat>)
    requires Inv(w, outside) && i <= |w.ring| && Created(w, b, d)
    requires w.next !in w.mem && w.next !in Uses(w.ring) && w.next !in outside
    ensures Fits(Inserted(w, i, b, d).mem, b)
    ensures Spares(w.mem, Inserted(w, i, b, d).mem, Uses(w.ring) + outside)
    ensures Exact(Inserted(w, i, b, d).mem, Uses(w.ring) + outside + Use(b))
  {
    hide Uses;
    var m := Inserted(w, i, b, d).mem;
    AddNothing(Uses(w.ring) + outside);
    SparesAlike(w.mem, m, Uses(w.ring) + outside);
  }

  // ---------- copy and delete ----------

  /** apr_bucket_shared_copy and apr_bucket_simple_copy, with the copy at the tail */
  function Copied(w: World, i: nat): World
    requires i < |w.ring| && (w.ring[i].kind != META ==> w.ring[i].data in w.mem)
  {
    var e := w.ring[i];
    World(if e.kind == META then w.mem else Adjust(w.mem, e.data, 1), w.next, w.ring + [e])
  }

  lemma CopyKeeps(w: World, i: nat, outside: multiset<nat>)
    requires Inv(w, outside) && i < |w.ring| && w.ring[i].kind != PIPE
    ensures w.ring[i].kind != META ==> w.ring[i].data in w.mem
    ensures Fits(w.mem, w.ring[i]) && AllFit(w.mem, w.ring)
    ensures var w' := Copied(w, i);
            && Inv(w', outside) && Spares(w.mem, w'.mem, outside)
            && Content(w'.mem, w'.ring) == Content(w.mem, w.ring) + BytesOf(w.mem, w.ring[i])
            && (AllSolid(w.mem, w.ring) ==> AllSolid(w'.mem, w'.ring))
  {
    var e := w.ring[i];
    assert Fits(w.mem, e);
    NextIsUnused(w, outside);
    var w' := Copied(w, i);
    CopiedMem(w, i, outside);
    UsedIfKind(w, i);
    assert AllSolid(w.mem, w.ring) ==> Solid(w.mem, e);
    var ids := Uses(w.ring) + outside;
    assert w'.ring == w.ring + [e] && w'.next == w.next;
    assert forall id :: id in outside ==> id in w.mem;
    assert forall id :: id in w.mem ==> id < w.next;
    hide *;
    SparesFewer(w.mem, w'.mem, ids, outside);
    SparedRing(w.mem, w'.mem, ids, w.ring);
    SparedBucket(w.mem, w'.mem, ids, e);
    ContentOne(w'.mem, e);
    ContentConcat(w'.mem, w.ring, [e]);
    UsesOne(e);
    UsesConcat(w.ring, [e]);
    SolidConcat(w'.mem, w.ring, [e]);
    SolidOne(w'.mem, e);
    SwapLast(Uses(w.ring), Use(e), outside);
    MakeInv(w', outside);
  }

  lemma UsedIfKind(w: World, i: nat)
    requires i < |w.ring|
    ensures w.ring[i].kind == META || w.ring[i].data in Uses(w.ring)
  {
    if w.ring[i].kind != META {
      UsedIfIn(w.ring, i);
    }
  }

  lemma SwapLast(a: multiset<nat>, b: multiset<nat>, c: multiset<nat>)
    ensures a + b + c == a + c + b
  {
  }

  lemma SparedBucket(m: Mem, m': Mem, ids: multiset<nat>, b: Bucket)
    requires Spares(m, m', ids) && Fits(m, b) && (b.kind == META || b.data in ids)
    ensures Fits(m', b) && BytesOf(m', b) == BytesOf(m, b) && (Solid(m, b) ==> Solid(m', b))
  {
  }

  lemma CopiedMem(w: World, i: nat, outside: multiset<nat>)
    requires Inv(w, outside) && i < |w.ring| && Fits(w.mem, w.ring[i]) && w.ring[i].kind != PIPE
    ensures Copied(w, i).mem.Keys == w.mem.Keys
    ensures Spares(w.mem, Copied(w, i).mem, Uses(w.ring) + outside)
    ensures Exact(Copied(w, i).mem, Uses(w.ring) + outside + Use(w.ring[i]))
  {
    hide Uses;
    var e, ids := w.ring[i], Uses(w.ring) + outside;
    if e.kind == META {
      AddNothing(ids);
      SparesSelf(w.mem, ids);
    } else {
      AdjustUp(w.mem, e.data, ids);
      SparesAlike(w.mem, Copied(w, i).mem, ids);
    }
  }

  /** apr_bucket_delete: the bucket is unlinked and destroyed; the last one on a structure releases it. */
  function Deleted(w: World, i: nat): World
    requires i < |w.ring| && (w.ring[i].kind != META ==> w.ring[i].data in w.mem)
  {
    var e := w.ring[i];
    World(if e.kind == META then w.mem else Adjust(w.mem, e.data, -1), w.next, w.ring[..i] + w.ring[i + 1..])
  }

  /** The other buckets keep their bytes; what the bucket pointed at goes exactly when nothing else points at it. */
  lemma DeleteKeeps(w: World, i: nat, outside: multiset<nat>)
    requires Inv(w, outside) && i < |w.ring|
    ensures w.ring[i].kind != META ==> w.ring[i].data in w.mem
    ensures AllFit(w.mem, w.ring[..i]) && AllFit(w.mem, w.ring[i + 1..])
    ensures var w' := Deleted(w, i);
            && Inv(w', outside) && Spares(w.mem, w'.mem, outside)
            && Content(w'.mem, w'.ring) == Content(w.mem, w.ring[..i]) + Content(w.mem, w.ring[i + 1..])
            && (AllSolid(w.mem, w.ring) ==> AllSolid(w'.mem, w'.ring))
    ensures w.ring[i].kind != META ==> var id := w.ring[i].data;
            (id !in Deleted(w, i).mem <==> Counted(w.mem[id]) && (Rest(w, i) + outside)[id] == 0)
  {
    var e := w.ring[i];
    assert Fits(w.mem, e);
    var w' := Deleted(w, i);
    DeletedMem(w, i, outside);
    var a, c, ids := w.ring[..i], w.ring[i + 1..], Rest(w, i) + outside;
    assert Rest(w, i) == Uses(a) + Uses(c) && w'.ring == a + c && AllFit(w.mem, a) && AllFit(w.mem, c);
    assert AllSolid(w.mem, w.ring) ==> AllSolid(w.mem, a) && AllSolid(w.mem, c);
    OutsideKept(w, i, w'.mem, outside);
    hide *;
    SparesFewer(w.mem, w'.mem, ids, outside);
    SparedRing(w.mem, w'.mem, ids, a);
    SparedRing(w.mem, w'.mem, ids, c);
    ContentConcat(w'.mem, a, c);
    UsesConcat(a, c);
    SolidConcat(w'.mem, a, c);
    MakeInv(w', outside);
  }

  lemma OutsideKept(w: World, i: nat, m: Mem, outside: multiset<nat>)
    requires Inv(w, outside) && i < |w.ring| && m.Keys <= w.mem.Keys
    requires forall id :: id in Rest(w, i) + outside && id in w.mem ==> id in m
    ensures forall id :: id in outside ==> id in m
    ensures forall id :: id in m ==> id < w.next
  {
    hide Rest;
    assert forall id :: id in m ==> id in m.Keys;
  }

  lemma DeletedMem(w: World, i: nat, outside: multiset<nat>)
    requires Inv(w, outside) && i < |w.ring| && Fits(w.mem, w.ring[i])
    ensures Deleted(w, i).mem.Keys <= w.mem.Keys
    ensures forall id :: id in Rest(w, i) + outside && id in w.mem ==> id in Deleted(w, i).mem
    ensures Spares(w.mem, Deleted(w, i).mem, Rest(w, i) + outside)
    ensures Exact(Deleted(w, i).mem, Rest(w, i) + outside)
    ensures w.ring[i].kind != META ==> var id := w.ring[i].data;
            (id !in Deleted(w, i).mem <==> Counted(w.mem[id]) && (Rest(w, i) + outside)[id] == 0)
  {
    var e, ids := w.ring[i], Rest(w, i) + outside;
    if e.kind == META {
      UsesPut(w, i, []);
      hide Uses, Rest;
      assert Uses(w.ring) + outside == ids;
      SparesSelf(w.mem, ids);
    } else {
      OwnUse(w, i, outside);
      hide Uses, Rest;
      AdjustDown(w.mem, e.data, ids);
      SparesAlike(w.mem, Deleted(w, i).mem, ids);
    }
  }

  // ---------- pool cleanup ----------

  /** pool_bucket_cleanup: the data moves to the heap; the buckets learn of it when they are read. */
  function Cleaned(w: World, id: nat): World
    requires id in w.mem && w.mem[id].Pool?
  {
    w.(mem := w.mem[id := Pool(w.mem[id].refs, [], w.mem[id].poolBase, false)])
  }

  lemma CleanupKeeps(w: World, id: nat, outside: multiset<nat>)
    requires Inv(w, outside) && id in w.mem && w.mem[id].Pool? && w.mem[id].inPool
    ensures Keeps(w, Cleaned(w, id), outside)
  {
    var m, ids := Cleaned(w, id).mem, Uses(w.ring) + outside;
    NextIsUnused(w, outside);
    CleanupSpares(w, id, ids);
    assert Exact(m, ids);
    assert forall k :: k in m <==> k in w.mem;
    assert forall k :: k in outside ==> k in m;
    assert forall k :: k in m ==> k < w.next;
    hide *;
    SparesFewer(w.mem, m, ids, outside);
    SparedRing(w.mem, m, ids, w.ring);
    MakeKeeps(w, Cleaned(w, id), outside);
  }

  lemma MakeKeeps(w: World, w': World, outside: multiset<nat>)
    requires w'.ring == w.ring && w'.next == w.next && AllFit(w.mem, w.ring) && AllFit(w'.mem, w.ring)
    requires Content(w'.mem, w.ring) == Content(w.mem, w.ring) && Spares(w.mem, w'.mem, outside)
    requires AllSolid(w.mem, w.ring) ==> AllSolid(w'.mem, w.ring)
    requires forall id :: id in w'.mem ==> id < w'.next
    requires forall id :: id in outside ==> id in w'.mem
    requires Exact(w'.mem, Uses(w.ring) + outside)
    ensures Keeps(w, w', outside)
  {
    hide Fits, Solid, Exact, Spares, Uses, Content;
  }

  lemma CleanupSpares(w: World, id: nat, ids: multiset<nat>)
    requires id in w.mem && w.mem[id].Pool? && w.mem[id].inPool
    ensures Spares(w.mem, Cleaned(w, id).mem, ids)
  {
  }

  // ---------- writing behind the last bucket ----------

  function Overwritten(s: seq<Byte>, at: nat, text: seq<Byte>): (r: seq<Byte>)
    requires at + |text| <= |s|
    ensures |r| == |s|
  {
    s[..at] + text + s[at + |text|..]
  }

  function WithBase(d: Data, base: seq<Byte>): Data {
    match d
    case Heap(refs, _) => Heap(refs, base)
    case Pool(refs, poolBase, _, inPool) => Pool(refs, poolBase, base, inPool)
    case _ => d
  }

  /** The last bucket is a heap bucket with n bytes of its buffer behind it. */
  predicate HasRoom(w: World, n: nat) {
    && |w.ring| > 0 && Fits(w.mem, w.ring[|w.ring| - 1]) && w.ring[|w.ring| - 1].kind == HEAP
    && End(w) + n <= |Text(w.mem[w.ring[|w.ring| - 1].data], HEAP)|
  }

  function End(w: World): int
    requires |w.ring| > 0
  {
    w.ring[|w.ring| - 1].start + w.ring[|w.ring| - 1].length
  }

  function Appended(w: World, text: seq<Byte>): World
    requires HasRoom(w, |text|)
  {
    var k := |w.ring| - 1;
    var e := w.ring[k];
    World(w.mem[e.data := WithBase(w.mem[e.data], Overwritten(Text(w.mem[e.data], HEAP), End(w), text))], w.next,
          w.ring[..k] + [e.(length := e.length + |text|)])
  }

  /** The last bucket is a heap bucket, behind which a write puts its text. */
  predicate HeapTail(w: World) {
    |w.ring| > 0 && Last(w).kind == HEAP && Last(w).data in w.mem
  }

  /** The bucket holds some of the n bytes from `at` on of structure id. */
  predicate Overlaps(b: Bucket, id: nat, at: int, n: nat) {
    b.kind != META && b.data == id && b.length > 0 && n > 0 && b.start < at + n && at < b.start + b.length
  }

  /** No other bucket of the ring holds any of the n bytes behind the last one. */
  predicate Clear(w: World, n: nat) {
    HeapTail(w) ==> forall i :: 0 <= i < |w.ring| - 1 ==> !Overlaps(w.ring[i], Last(w).data, End(w), n)
  }

  /** No other bucket points at the storage of the last one. */
  predicate Unshared(w: World) {
    HeapTail(w) ==> Counted(w.mem[Last(w).data]) && w.mem[Last(w).data].refs == 1
  }

  /** Buckets on these structures keep their bytes unless they hold some of the n bytes from `at` on of structure id. */
  ghost predicate Reserves(m: Mem, m': Mem, ids: multiset<nat>, id: nat, at: int, n: nat) {
    forall b: Bucket :: Fits(m, b) && (b.kind == META || b.data in ids) && !Overlaps(b, id, at, n) ==>
      Fits(m', b) && BytesOf(m', b) == BytesOf(m, b) && (Solid(m, b) ==> Solid(m', b))
  }

  /**
   What writing n bytes does to buckets in other rings: only those that hold some of the bytes behind the last bucket
   change.
   */
  ghost predicate Leaves(w: World, n: nat, m': Mem, outside: multiset<nat>) {
    if HeapTail(w) then Reserves(w.mem, m', outside, Last(w).data, End(w), n) else Spares(w.mem, m', outside)
  }

  function Last(w: World): Bucket
    requires |w.ring| > 0
  {
    w.ring[|w.ring| - 1]
  }

  function Grown(b: Bucket, n: nat): Bucket {
    b.(length := b.length + n)
  }

  /** A write disturbs nothing outside when it writes nothing in place, or no other ring points at that storage. */
  lemma LeavesSpares(w: World, n: nat, m': Mem, outside: multiset<nat>)
    ensures Spares(w.mem, m', outside) ==> Leaves(w, n, m', outside)
    ensures Leaves(w, n, m', outside) && (HeapTail(w) && n > 0 ==> Last(w).data !in outside) ==>
              Spares(w.mem, m', outside)
  {
    hide Fits, BytesOf, Solid;
  }

  lemma LeavesThenSpares(w: World, n: nat, m': Mem, m'': Mem, outside: multiset<nat>)
    requires Leaves(w, n, m', outside) && Spares(m', m'', outside)
    ensures Leaves(w, n, m'', outside)
  {
    hide Fits, BytesOf, Solid, Overlaps;
  }

  /** Unshared storage is a special case: nothing else points at it, here or in another ring. */
  lemma UnsharedIsClear(w: World, outside: multiset<nat>)
    requires Inv(w, outside) && Unshared(w)
    ensures (forall n: nat :: Clear(w, n)) && (HeapTail(w) ==> Last(w).data !in outside)
  {
    if HeapTail(w) {
      var k, id := |w.ring| - 1, Last(w).data;
      UsesPut(w, k, []);
      assert w.ring[k + 1..] == [] && Uses([]) == multiset{};
      AddNothing(Uses(w.ring[..k]));
      assert Balanced(w.mem[id], (Uses(w.ring) + outside)[id]);
      assert (Uses(w.ring[..k]) + multiset{id} + outside)[id] == 1;
      forall i | 0 <= i < k ensures w.ring[i].kind == META || w.ring[i].data != id {
        if w.ring[i].kind != META && w.ring[i].data == id {
          UsedIfIn(w.ring[..k], i);
        }
      }
    }
  }

  /** Appending in place changes no count and no bucket that holds none of the bytes written. */
  lemma AppendedMem(w: World, text: seq<Byte>, ids: multiset<nat>)
    requires HasRoom(w, |text|)
    ensures var m := Appended(w, text).mem;
            && m.Keys == w.mem.Keys && Reserves(w.mem, m, ids, Last(w).data, End(w), |text|)
            && (forall b: Bucket :: Fits(w.mem, b) ==>
                  Fits(m, b) && (Solid(w.mem, b) ==> Solid(m, b)) && |BytesOf(m, b)| == |BytesOf(w.mem, b)|)
            && (Exact(w.mem, ids) ==> Exact(m, ids))
  {
    var id, m := Last(w).data, Appended(w, text).mem;
    var base := Text(w.mem[id], HEAP);
    assert forall k :: k in m <==> k in w.mem.Keys;
    forall b: Bucket | Fits(w.mem, b)
      ensures Fits(m, b) && (Solid(w.mem, b) ==> Solid(m, b)) && |BytesOf(m, b)| == |BytesOf(w.mem, b)|
      ensures !Overlaps(b, id, End(w), |text|) ==> BytesOf(m, b) == BytesOf(w.mem, b)
    {
      if b.kind != META && b.data == id {
        assert Text(w.mem[id], b.kind) == base && Text(m[id], b.kind) == Overwritten(base, End(w), text);
        if !Overlaps(b, id, End(w), |text|) {
          OverwrittenElsewhere(base, End(w), text, b.start, b.length);
        }
      }
    }
    if Exact(w.mem, ids) {
      forall k | k in m ensures Balanced(m[k], ids[k]) {
        assert Balanced(w.mem[k], ids[k]);
      }
    }
  }

  lemma AppendedParts(w: World, text: seq<Byte>)
    requires HasRoom(w, |text|)
    ensures Appended(w, text).ring == w.ring[..|w.ring| - 1] + [Grown(Last(w), |text|)]
    ensures Appended(w, text).next == w.next && Use(Grown(Last(w), |text|)) == Use(Last(w))
    ensures w.ring == w.ring[..|w.ring| - 1] + [Last(w)] && HeapTail(w)
    ensures forall k: nat :: Clear(w, |text| + k) ==> Clear(Appended(w, text), k)
  {
  }

  /** Whatever is overwritten, the invariant stays. */
  lemma AppendInv(w: World, text: seq<Byte>, outside: multiset<nat>)
    requires Inv(w, outside) && HasRoom(w, |text|)
    ensures Inv(Appended(w, text), outside)
  {
    var w', a, e := Appended(w, text), w.ring[..|w.ring| - 1], Last(w);
    NextIsUnused(w, outside);
    AppendedParts(w, text);
    AppendedMem(w, text, Uses(w.ring) + outside);
    AppendedBucket(w, text);
    assert forall id :: id in w'.mem <==> id in w'.mem.Keys;
    assert forall id :: id in outside ==> id in w.mem.Keys;
    assert AllFit(w'.mem, w'.ring) by {
      hide Appended, Fits;
      assert forall i :: 0 <= i < |a| ==> w'.ring[i] == w.ring[i];
    }
    hide *;
    UsesConcat(a, [e]);
    UsesConcat(a, [Grown(e, |text|)]);
    UsesOne(e);
    UsesOne(Grown(e, |text|));
    MakeInv(w', outside);
  }

  /**
   When no other bucket holds any of the bytes that are written, appending in place adds the text to this ring and
   touches no other bucket.
   */
  lemma AppendKeeps(w: World, text: seq<Byte>, outside: multiset<nat>)
    requires Inv(w, outside) && HasRoom(w, |text|) && Clear(w, |text|)
    ensures var w' := Appended(w, text);
            && Inv(w', outside) && Leaves(w, |text|, w'.mem, outside) && AllFit(w.mem, w.ring)
            && Content(w'.mem, w'.ring) == Content(w.mem, w.ring) + text
            && (AllSolid(w.mem, w.ring) ==> AllSolid(w'.mem, w'.ring))
            && forall k: nat :: Clear(w, |text| + k) ==> Clear(w', k)
  {
    var k, w' := |w.ring| - 1, Appended(w, text);
    var a, e, e' := w.ring[..k], Last(w), Grown(Last(w), |text|);
    AppendInv(w, text, outside);
    AppendedParts(w, text);
    AppendedBucket(w, text);
    FitsAll(w, outside);
    FitParts(w, k);
    KeepsFront(w, text);
    AppendedMem(w, text, outside);
    hide *;
    LeavesIs(w, |text|, w'.mem, outside);
    LastGrows(w.mem, w'.mem, a, e, e', text);
  }

  lemma LastGrows(m: Mem, m': Mem, a: seq<Bucket>, e: Bucket, e': Bucket, text: seq<Byte>)
    requires AllFit(m, a) && Fits(m, e) && AllFit(m', a) && Fits(m', e') && Solid(m', e')
    requires BytesOf(m', e') == BytesOf(m, e) + text && Content(m', a) == Content(m, a)
    requires AllSolid(m, a) ==> AllSolid(m', a)
    ensures AllFit(m, a + [e]) && AllFit(m', a + [e']) && Content(m', a + [e']) == Content(m, a + [e]) + text
    ensures AllSolid(m, a + [e]) ==> AllSolid(m', a + [e'])
  {
    hide *;
    ContentOne(m', e');
    ContentOne(m, e);
    ContentConcat(m', a, [e']);
    ContentConcat(m, a, [e]);
    SolidConcat(m', a, [e']);
    SolidConcat(m, a, [e]);
    SolidOne(m', e');
    assert Content(m, a) + (BytesOf(m, e) + text) == Content(m, a) + BytesOf(m, e) + text;
  }

  lemma LeavesIs(w: World, n: nat, m': Mem, outside: multiset<nat>)
    requires HeapTail(w) && Reserves(w.mem, m', outside, Last(w).data, End(w), n)
    ensures Leaves(w, n, m', outside)
  {
    hide Reserves;
  }

  lemma FitsAll(w: World, outside: multiset<nat>)
    requires Inv(w, outside)
    ensures AllFit(w.mem, w.ring)
  {
  }

  /** The buckets before the last one keep their bytes. */
  lemma KeepsFront(w: World, text: seq<Byte>)
    requires HasRoom(w, |text|) && Clear(w, |text|) && AllFit(w.mem, w.ring)
    ensures var a, m := w.ring[..|w.ring| - 1], Appended(w, text).mem;
            && AllFit(w.mem, a) && AllFit(m, a) && Content(m, a) == Content(w.mem, a)
            && (AllSolid(w.mem, a) ==> AllSolid(m, a))
  {
    var a, m := w.ring[..|w.ring| - 1], Appended(w, text).mem;
    assert forall i :: 0 <= i < |a| ==> a[i] == w.ring[i];
    AppendedMem(w, text, Uses(a));
    forall i | 0 <= i < |a| ensures Fits(m, a[i]) && BytesOf(m, a[i]) == BytesOf(w.mem, a[i]) {
      if a[i].kind != META {
        UsedIfIn(a, i);
      }
    }
    hide Fits, Solid, BytesOf, Reserves, Appended, HasRoom;
    ContentSame(w.mem, m, a);
  }

  lemma {:induction false} ContentSame(m: Mem, m': Mem, ring: seq<Bucket>)
    requires AllFit(m, ring) && AllFit(m', ring)
    requires forall i :: 0 <= i < |ring| ==> BytesOf(m', ring[i]) == BytesOf(m, ring[i])
    ensures Content(m', ring) == Content(m, ring)
  {
    hide Fits, BytesOf;
    if |ring| > 0 {
      assert forall i :: 0 <= i < |ring[1..]| ==> ring[1..][i] == ring[i + 1];
      ContentSame(m, m', ring[1..]);
    }
  }

  lemma AppendedBucket(w: World, text: seq<Byte>)
    requires HasRoom(w, |text|)
    ensures var e', m := Grown(Last(w), |text|), Appended(w, text).mem;
            Fits(m, e') && Solid(m, e') && BytesOf(m, e') == BytesOf(w.mem, Last(w)) + text
  {
    var e := w.ring[|w.ring| - 1];
    var base := Text(w.mem[e.data], HEAP);
    var over := Overwritten(base, End(w), text);
    assert Text(Appended(w, text).mem[e.data], HEAP) == over;
    assert over[e.start..e.start + e.length] == base[e.start..e.start + e.length];
    assert over[End(w)..End(w) + |text|] == text;
    ClipSplits(over, e.start, e.length + |text|, e.length);
    assert Clip(over, e.start, e.length) == Clip(base, e.start, e.length);
    assert Clip(over, End(w), |text|) == text;
  }

  /**
   Another bucket on the same storage keeps its bytes for every text of that length exactly when none is written
   there.
   */
  lemma AppendDisturbs(w: World, b: Bucket, n: nat)
    requires HasRoom(w, n) && Fits(w.mem, b) && b.kind != META && b.data == Last(w).data
    ensures (forall text: seq<Byte> | |text| == n ::
              Fits(Appended(w, text).mem, b) && BytesOf(Appended(w, text).mem, b) == BytesOf(w.mem, b)) <==>
            !Overlaps(b, Last(w).data, End(w), n)
  {
    if Overlaps(b, Last(w).data, End(w), n) {
      var text := AppendHits(w, b, n);
    } else {
      forall text: seq<Byte> | |text| == n
        ensures Fits(Appended(w, text).mem, b) && BytesOf(Appended(w, text).mem, b) == BytesOf(w.mem, b)
      {
        OverwrittenElsewhere(Text(w.mem[b.data], HEAP), End(w), text, b.start, b.length);
      }
    }
  }

  lemma OverwrittenElsewhere(s: seq<Byte>, at: nat, text: seq<Byte>, start: nat, length: nat)
    requires at + |text| <= |s| && start + length <= |s|
    requires length == 0 || |text| == 0 || start + length <= at || at + |text| <= start
    ensures Clip(Overwritten(s, at, text), start, length) == Clip(s, start, length)
  {
    var over := Overwritten(s, at, text);
    assert forall k :: 0 <= k < |s| && (k < at || k >= at + |text|) ==> over[k] == s[k];
    assert over[start..start + length] == s[start..start + length];
  }

  /** A text that differs at the first byte that the two areas share. */
  lemma AppendHits(w: World, b: Bucket, n: nat) returns (text: seq<Byte>)
    requires HasRoom(w, n) && Fits(w.mem, b) && Overlaps(b, Last(w).data, End(w), n)
    ensures |text| == n && !(Fits(Appended(w, text).mem, b) && BytesOf(Appended(w, text).mem, b) == BytesOf(w.mem, b))
  {
    var base, at := Text(w.mem[b.data], HEAP), End(w);
    var k := if b.start < at then at else b.start;
    text := seq(n, j => if j == k - at && base[k] == 0 then 1 else 0);
    var over := Overwritten(base, at, text);
    assert over[k] == text[k - at] != base[k];
    assert Text(Appended(w, text).mem[b.data], b.kind) == over && Text(w.mem[b.data], b.kind) == base;
    hide Overwritten, Appended;
    assert Clip(over, b.start, b.length)[k - b.start] == over[k];
    assert Clip(base, b.start, b.length)[k - b.start] == base[k];
  }

  /**
   Appending any text of n bytes adds just that text to the ring exactly when every other bucket on the storage is
   empty, ends before the bytes written or starts behind them.
   */
  lemma AppendExact(w: World, n: nat)
    requires HasRoom(w, n) && AllFit(w.mem, w.ring)
    ensures (forall text: seq<Byte> | |text| == n ::
              && AllFit(Appended(w, text).mem, Appended(w, text).ring)
              && Content(Appended(w, text).mem, Appended(w, text).ring) == Content(w.mem, w.ring) + text) <==>
            Clear(w, n)
  {
    hide *;
    if Clear(w, n) {
      forall text: seq<Byte> | |text| == n
        ensures AllFit(Appended(w, text).mem, Appended(w, text).ring)
        ensures Content(Appended(w, text).mem, Appended(w, text).ring) == Content(w.mem, w.ring) + text
      {
        AppendAdds(w, text);
      }
    } else {
      var i := WhoOverlaps(w, n);
      var text := AppendHits(w, w.ring[i], n);
      AppendSpoils(w, text, i);
    }
  }

  lemma AppendAdds(w: World, text: seq<Byte>)
    requires HasRoom(w, |text|) && AllFit(w.mem, w.ring) && Clear(w, |text|)
    ensures AllFit(Appended(w, text).mem, Appended(w, text).ring)
    ensures Content(Appended(w, text).mem, Appended(w, text).ring) == Content(w.mem, w.ring) + text
  {
    AppendedParts(w, text);
    AppendedBucket(w, text);
    FitParts(w, |w.ring| - 1);
    KeepsFront(w, text);
    hide *;
    LastGrows(w.mem, Appended(w, text).mem, w.ring[..|w.ring| - 1], Last(w), Grown(Last(w), |text|), text);
  }

  lemma WhoOverlaps(w: World, n: nat) returns (i: nat)
    requires HasRoom(w, n) && AllFit(w.mem, w.ring) && !Clear(w, n)
    ensures i < |w.ring| - 1 && Fits(w.mem, w.ring[i]) && Overlaps(w.ring[i], Last(w).data, End(w), n)
  {
    hide Fits, Overlaps;
    i :| 0 <= i < |w.ring| - 1 && Overlaps(w.ring[i], Last(w).data, End(w), n);
  }

  /** When one bucket has changed, the bytes of the whole ring have: no bucket has changed its length. */
  lemma AppendSpoils(w: World, text: seq<Byte>, i: nat)
    requires HasRoom(w, |text|) && AllFit(w.mem, w.ring) && i < |w.ring| - 1
    requires Fits(Appended(w, text).mem, w.ring[i]) ==>
               BytesOf(Appended(w, text).mem, w.ring[i]) != BytesOf(w.mem, w.ring[i])
    ensures !(AllFit(Appended(w, text).mem, Appended(w, text).ring)
              && Content(Appended(w, text).mem, Appended(w, text).ring) == Content(w.mem, w.ring) + text)
  {
    var k, m := |w.ring| - 1, Appended(w, text).mem;
    var a, e, e' := w.ring[..k], Last(w), Grown(Last(w), |text|);
    AppendedParts(w, text);
    AppendedBucket(w, text);
    FrontFits(w, text);
    FitParts(w, k);
    assert a[i] == w.ring[i];
    hide *;
    PiecesTell(w.mem, m, a, i);
    RingsDiffer(w.mem, m, a, e, e', text);
  }

  /** The buckets before the last one still fit and have not changed their lengths. */
  lemma FrontFits(w: World, text: seq<Byte>)
    requires HasRoom(w, |text|) && AllFit(w.mem, w.ring)
    ensures var a, m := w.ring[..|w.ring| - 1], Appended(w, text).mem;
            && AllFit(w.mem, a) && AllFit(m, a)
            && forall j :: 0 <= j < |a| ==> |BytesOf(m, a[j])| == |BytesOf(w.mem, a[j])|
  {
    var a := w.ring[..|w.ring| - 1];
    AppendedMem(w, text, multiset{});
    hide Fits, BytesOf, Appended, HasRoom;
    assert forall j :: 0 <= j < |a| ==> a[j] == w.ring[j];
  }

  lemma RingsDiffer(m: Mem, m': Mem, a: seq<Bucket>, e: Bucket, e': Bucket, text: seq<Byte>)
    requires AllFit(m, a) && Fits(m, e) && AllFit(m', a) && Fits(m', e')
    requires |Content(m', a)| == |Content(m, a)| && Content(m', a) != Content(m, a)
    ensures AllFit(m, a + [e]) && AllFit(m', a + [e']) && Content(m', a + [e']) != Content(m, a + [e]) + text
  {
    hide *;
    ContentOne(m', e');
    ContentOne(m, e);
    ContentConcat(m', a, [e']);
    ContentConcat(m, a, [e]);
    Cut(Content(m', a), BytesOf(m', e'), Content(m, a), BytesOf(m, e) + text);
    assert Content(m, a) + (BytesOf(m, e) + text) == Content(m, a) + BytesOf(m, e) + text;
  }

  lemma Cut(a: seq<Byte>, b: seq<Byte>, c: seq<Byte>, d: seq<Byte>)
    requires |a| == |c| && a != c
    ensures a + b != c + d
  {
    assert (a + b)[..|a|] == a && (c + d)[..|a|] == c;
  }

  /** Rings of buckets of equal lengths have different bytes when one bucket has. */
  lemma {:induction false} PiecesTell(m: Mem, m': Mem, ring: seq<Bucket>, i: nat)
    requires AllFit(m, ring) && AllFit(m', ring) && i < |ring| && BytesOf(m', ring[i]) != BytesOf(m, ring[i])
    requires forall j :: 0 <= j < |ring| ==> |BytesOf(m', ring[j])| == |BytesOf(m, ring[j])|
    ensures |Content(m', ring)| == |Content(m, ring)| && Content(m', ring) != Content(m, ring)
  {
    hide Fits, BytesOf;
    var tail := ring[1..];
    assert forall j :: 0 <= j < |tail| ==> tail[j] == ring[j + 1];
    SameLength(m, m', tail);
    if i > 0 {
      PiecesTell(m, m', tail, i - 1);
      if BytesOf(m', ring[0]) == BytesOf(m, ring[0]) {
        var h := BytesOf(m, ring[0]);
        assert (h + Content(m', tail))[|h|..] == Content(m', tail) && (h + Content(m, tail))[|h|..] == Content(m, tail);
      } else {
        Cut(BytesOf(m', ring[0]), Content(m', tail), BytesOf(m, ring[0]), Content(m, tail));
      }
    } else {
      Cut(BytesOf(m', ring[0]), Content(m', tail), BytesOf(m, ring[0]), Content(m, tail));
    }
  }

  lemma {:induction false} SameLength(m: Mem, m': Mem, ring: seq<Bucket>)
    requires AllFit(m, ring) && AllFit(m', ring)
    requires forall j :: 0 <= j < |ring| ==> |BytesOf(m', ring[j])| == |BytesOf(m, ring[j])|
    ensures |Content(m', ring)| == |Content(m, ring)|
  {
    hide Fits, BytesOf;
    if |ring| > 0 {
      assert forall j :: 0 <= j < |ring[1..]| ==> ring[1..][j] == ring[j + 1];
      SameLength(m, m', ring[1..]);
    }
  }

  // ---------- whole runs ----------

  /** What can happen to the buckets of a program; all of them stand in one ring. */
  datatype Op =
    | Split(i: nat, point: nat)
    | Copy(i: nat)
    | Read(i: nat, st: Status, str: seq<Byte>)
    | Delete(i: nat)
    | Insert(i: nat, b: Bucket, d: Data)
    | Move(i: nat, j: nat)
    | Cleanup(id: nat)
    | Append(text: seq<Byte>)

  function Without(ring: seq<Bucket>, i: nat): seq<Bucket>
    requires i < |ring|
  {
    ring[..i] + ring[i + 1..]
  }

  predicate Does(w: World, op: Op, w': World)
    requires AllFit(w.mem, w.ring)
  {
    match op
    case Split(i, point) => i < |w.ring| && Splittable(w.ring[i]) && point <= w.ring[i].length &&
      w' == SplitAt(w, i, point)
    case Copy(i) => i < |w.ring| && w.ring[i].kind != PIPE && w' == Copied(w, i)
    case Read(i, st, str) => i < |w.ring| && ReadStep(w, i, w', st, str)
    case Delete(i) => i < |w.ring| && w' == Deleted(w, i)
    case Insert(i, b, d) => i <= |w.ring| && Created(w, b, d) && w' == Inserted(w, i, b, d)
    case Move(i, j) => i < |w.ring| && j < |w.ring|
                       && w' == w.(ring := Without(w.ring, i)[..j] + [w.ring[i]] + Without(w.ring, i)[j..])
    case Cleanup(id) => id in w.mem && w.mem[id].Pool? && w.mem[id].inPool && w' == Cleaned(w, id)
    case Append(text) => HasRoom(w, |text|) && w' == Appended(w, text)
  }

  lemma MoveKeeps(w: World, i: nat, j: nat, outside: multiset<nat>)
    requires Inv(w, outside) && i < |w.ring| && j < |w.ring|
    ensures Inv(w.(ring := Without(w.ring, i)[..j] + [w.ring[i]] + Without(w.ring, i)[j..]), outside)
  {
    NextIsUnused(w, outside);
    UsesMove(w, i, j);
    FitMove(w, i, j);
    assert forall id :: id in outside ==> id in w.mem;
    hide *;
    MakeInv(w.(ring := Without(w.ring, i)[..j] + [w.ring[i]] + Without(w.ring, i)[j..]), outside);
  }

  lemma UsesMove(w: World, i: nat, j: nat)
    requires i < |w.ring| && j < |w.ring|
    ensures Uses(Without(w.ring, i)[..j] + [w.ring[i]] + Without(w.ring, i)[j..]) == Uses(w.ring)
  {
    var e, rest := w.ring[i], Without(w.ring, i);
    hide *;
    UsesPut(w, i, []);
    WithoutParts(w.ring, i, j);
    UsesStep([]);
    UsesConcat(rest[..j], rest[j..]);
    UsesConcat(rest[..j], [e]);
    UsesConcat(rest[..j] + [e], rest[j..]);
    UsesOne(e);
    AddNothing(Rest(w, i));
    SwapLast(Uses(rest[..j]), Use(e), Uses(rest[j..]));
  }

  lemma WithoutParts(ring: seq<Bucket>, i: nat, j: nat)
    requires i < |ring| && j < |ring|
    ensures |Without(ring, i)| == |ring| - 1 && Put(ring, i, []) == Without(ring, i)
    ensures Without(ring, i) == Without(ring, i)[..j] + Without(ring, i)[j..]
  {
  }

  lemma FitMove(w: World, i: nat, j: nat)
    requires i < |w.ring| && j < |w.ring| && AllFit(w.mem, w.ring)
    ensures AllFit(w.mem, Without(w.ring, i)[..j] + [w.ring[i]] + Without(w.ring, i)[j..])
  {
    hide Fits;
    var rest := Without(w.ring, i);
    var ring := rest[..j] + [w.ring[i]] + rest[j..];
    forall k | 0 <= k < |ring|
      ensures Fits(w.mem, ring[k])
    {
      var x := if k < j then k else k - 1;
      assert k != j ==> rest[x] == w.ring[if x < i then x else x + 1];
    }
  }

  lemma StepKeepsInv(w: World, op: Op, w': World, outside: multiset<nat>)
    requires Inv(w, outside) && Does(w, op, w')
    ensures Inv(w', outside)
  {
    NextIsUnused(w, outside);
    hide Inv, Fits, SplitAt, Copied, ReadStep, Deleted, Inserted, Cleaned, Appended, HasRoom, Created;
    match op
    case Split(i, point) => SplitKeeps(w, i, point, outside);
    case Copy(i) => CopyKeeps(w, i, outside);
    case Read(i, st, str) => ReadKeeps(w, i, w', st, str, outside);
    case Delete(i) => DeleteKeeps(w, i, outside);
    case Insert(i, b, d) => InsertKeeps(w, i, b, d, outside);
    case Move(i, j) => MoveKeeps(w, i, j, outside);
    case Cleanup(id) => CleanupKeeps(w, id, outside);
    case Append(text) => AppendInv(w, text, outside);
  }

  /** Numbers are handed out in order, so what is released stays released. */
  lemma StepReleasesForGood(w: World, op: Op, w': World, id: nat)
    requires AllFit(w.mem, w.ring) && Does(w, op, w') && id < w.next && id !in w.mem
    ensures id < w'.next && id !in w'.mem
  {
  }

  predicate Run(ws: seq<World>, ops: seq<Op>) {
    && |ws| == |ops| + 1 && AllFit(ws[0].mem, ws[0].ring)
    && forall k :: 0 <= k < |ops| ==> AllFit(ws[k].mem, ws[k].ring) && Does(ws[k], ops[k], ws[k + 1])
  }

  /** In every state of a run, each count is the number of live buckets that point at the structure, and is not zero. */
  lemma {:induction false} RunCounts(ws: seq<World>, ops: seq<Op>, k: nat)
    requires Run(ws, ops) && Inv(ws[0], multiset{}) && k < |ws|
    ensures Inv(ws[k], multiset{})
    ensures forall id :: id in ws[k].mem && Counted(ws[k].mem[id]) ==> ws[k].mem[id].refs == Uses(ws[k].ring)[id] > 0
  {
    hide Does, Fits, Uses;
    if k > 0 {
      RunCounts(ws, ops, k - 1);
      StepKeepsInv(ws[k - 1], ops[k - 1], ws[k], multiset{});
    }
    assert Uses(ws[k].ring) + multiset{} == Uses(ws[k].ring);
    assert forall id :: id in ws[k].mem ==> Balanced(ws[k].mem[id], Uses(ws[k].ring)[id]);
  }

  /** A structure is released at most once: it never comes back. */
  lemma {:induction false} RunReleasesOnce(ws: seq<World>, ops: seq<Op>, j: nat, k: nat, id: nat)
    requires Run(ws, ops) && j <= k < |ws| && id < ws[j].next && id !in ws[j].mem
    ensures id < ws[k].next && id !in ws[k].mem
  {
    hide Does, Fits;
    if j < k {
      RunReleasesOnce(ws, ops, j, k - 1, id);
      StepReleasesForGood(ws[k - 1], ops[k - 1], ws[k], id);
    }
  }

  /**
   A counted structure leaves the memory in exactly the step that drops the last pointer to it: it has pointers as long
   as it is there, and it is gone after a step exactly when that step has left none.
   */
  lemma RunReleasesAtLast(ws: seq<World>, ops: seq<Op>, k: nat, id: nat)
    requires Run(ws, ops) && Inv(ws[0], multiset{}) && k < |ops| && id in ws[k].mem && Counted(ws[k].mem[id])
    ensures Uses(ws[k].ring)[id] > 0
    ensures id !in ws[k + 1].mem <==> Uses(ws[k + 1].ring)[id] == 0
    ensures Uses(ws[k + 1].ring)[id] == 0 ==> forall j :: k < j < |ws| ==> id !in ws[j].mem
  {
    hide Does, Fits, Uses;
    RunCounts(ws, ops, k);
    RunCounts(ws, ops, k + 1);
    StaysCounted(ws[k], ops[k], ws[k + 1], id);
    if id !in ws[k + 1].mem {
      UsedIsThere(ws[k + 1], id);
      forall j | k < j < |ws| ensures id !in ws[j].mem {
        RunReleasesOnce(ws, ops, k + 1, j, id);
      }
    }
  }

  /** No step turns a counted structure into another kind, or takes back a number. */
  lemma StaysCounted(w: World, op: Op, w': World, id: nat)
    requires AllFit(w.mem, w.ring) && Does(w, op, w') && id in w.mem && Counted(w.mem[id])
    requires forall k :: k in w.mem ==> k < w.next
    ensures (id in w'.mem ==> Counted(w'.mem[id])) && w.next <= w'.next
  {
    hide HasRoom, SystemRead, BytesOf, Clip, Put, Overwritten;
  }

  lemma UsedIsThere(w: World, id: nat)
    requires Inv(w, multiset{}) && id !in w.mem
    ensures Uses(w.ring)[id] == 0
  {
    UsedInMem(w.mem, w.ring);
  }

  // ---------- a bucket that an append overwrites ----------

  const FIRST_HALF: Bucket := Bucket(HEAP, 0, 0, 1)
  const SECOND_HALF: Bucket := Bucket(HEAP, 0, 1, 1)

  /** A heap bucket of two bytes is made and cut, its first half moves behind the second and is appended to. */
  const OVERWRITING: seq<Op> := [Insert(0, Bucket(HEAP, 0, 0, 2), Heap(1, [1, 2])), Split(0, 1), Move(0, 1),
                                  Append([9])]

  function Halves(ring: seq<Bucket>, bytes: seq<Byte>): World {
    World(map[0 := Heap(2, bytes)], 1, ring)
  }

  lemma MakeAndCut()
    ensures var b, d := Bucket(HEAP, 0, 0, 2), Heap(1, [1, 2]);
            && AllFit(map[0 := d], [b])
            && Does(World(map[], 0, []), Insert(0, b, d), World(map[0 := d], 1, [b]))
            && Does(World(map[0 := d], 1, [b]), Split(0, 1), Halves([FIRST_HALF, SECOND_HALF], [1, 2]))
  {
    var b, d := Bucket(HEAP, 0, 0, 2), Heap(1, [1, 2]);
    assert Inserted(World(map[], 0, []), 0, b, d) == World(map[0 := d], 1, [b]);
    assert SplitAt(World(map[0 := d], 1, [b]), 0, 1) == Halves([FIRST_HALF, SECOND_HALF], [1, 2]);
  }

  lemma MoveAndAppend()
    ensures var w2, w3 := Halves([FIRST_HALF, SECOND_HALF], [1, 2]), Halves([SECOND_HALF, FIRST_HALF], [1, 2]);
            && AllFit(w2.mem, w2.ring) && AllFit(w3.mem, w3.ring) && Does(w2, Move(0, 1), w3)
            && Does(w3, Append([9]), Halves([SECOND_HALF, Grown(FIRST_HALF, 1)], [1, 9]))
  {
    var ring := [FIRST_HALF, SECOND_HALF];
    assert Without(ring, 0) == [SECOND_HALF];
    var w := Halves([SECOND_HALF, FIRST_HALF], [1, 2]);
    assert Overwritten([1, 2], 1, [9]) == [1, 9];
    assert Appended(w, [9]).mem == map[0 := Heap(2, [1, 9])];
    assert Appended(w, [9]).ring == [SECOND_HALF, Grown(FIRST_HALF, 1)];
  }

  /** The second half of a split bucket reads another byte after a text has been appended to the first. */
  lemma AppendOverwrites() returns (ws: seq<World>)
    ensures Run(ws, OVERWRITING) && ws[0] == World(map[], 0, []) && Inv(ws[0], multiset{}) && !Clear(ws[3], 1)
    ensures ws[3].ring[0] == ws[4].ring[0] == SECOND_HALF
    ensures BytesOf(ws[3].mem, SECOND_HALF) == [2] && BytesOf(ws[4].mem, SECOND_HALF) == [9]
  {
    MakeAndCut();
    MoveAndAppend();
    SecondHalfReads([SECOND_HALF, FIRST_HALF], [1, 2]);
    SecondHalfReads([SECOND_HALF, Grown(FIRST_HALF, 1)], [1, 9]);
    NotClear();
    StartsEmpty();
    hide *;
    var w2 := Halves([FIRST_HALF, SECOND_HALF], [1, 2]);
    var w3 := Halves([SECOND_HALF, FIRST_HALF], [1, 2]);
    var w4 := Halves([SECOND_HALF, Grown(FIRST_HALF, 1)], [1, 9]);
    var w1 := World(map[0 := Heap(1, [1, 2])], 1, [Bucket(HEAP, 0, 0, 2)]);
    FourSteps(World(map[], 0, []), w1, w2, w3, w4, OVERWRITING);
    ws := [World(map[], 0, []), w1, w2, w3, w4];
  }

  lemma NotClear()
    ensures !Clear(Halves([SECOND_HALF, FIRST_HALF], [1, 2]), 1)
  {
    var w := Halves([SECOND_HALF, FIRST_HALF], [1, 2]);
    assert HeapTail(w) && Overlaps(w.ring[0], Last(w).data, End(w), 1);
  }

  lemma StartsEmpty()
    ensures AllFit(map[], []) && Inv(World(map[], 0, []), multiset{})
  {
  }

  lemma FourSteps(w0: World, w1: World, w2: World, w3: World, w4: World, ops: seq<Op>)
    requires AllFit(w0.mem, w0.ring) && AllFit(w1.mem, w1.ring) && AllFit(w2.mem, w2.ring) && AllFit(w3.mem, w3.ring)
    requires |ops| == 4
    requires Does(w0, ops[0], w1) && Does(w1, ops[1], w2) && Does(w2, ops[2], w3) && Does(w3, ops[3], w4)
    ensures Run([w0, w1, w2, w3, w4], ops)
  {
    hide Does, AllFit;
  }

  lemma SecondHalfReads(ring: seq<Bucket>, bytes: seq<Byte>)
    requires |bytes| == 2 && |ring| == 2 && ring[0] == SECOND_HALF
    ensures var w := Halves(ring, bytes);
            w.ring[0] == SECOND_HALF && Fits(w.mem, SECOND_HALF) && BytesOf(w.mem, SECOND_HALF) == [bytes[1]]
  {
  }
}
