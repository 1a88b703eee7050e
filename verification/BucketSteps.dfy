/** The bucket operations as steps on a memory and a ring, and what they keep. */
module BucketSteps {
  import opened Buckets

  /** refcount += k; a structure that nothing points at any more is released. */
  function Adjust(m: Mem, id: nat, k: int): Mem
    requires id in m
  {
    if !Counted(m[id]) then m
    else if m[id].refs + k <= 0 then m - {id}
    else m[id := m[id].(refs := m[id].refs + k)]
  }

  lemma AdjustUp(m: Mem, id: nat, uses: multiset<nat>)
    requires id in m && !m[id].Pipe? && Exact(m, uses)
    ensures Adjust(m, id, 1).Keys == m.Keys && Exact(Adjust(m, id, 1), uses + multiset{id})
    ensures forall k :: k in m ==> Alike(m[k], Adjust(m, id, 1)[k])
  {
  }

  /** Dropping a pointer releases the structure exactly when it was the last one. */
  lemma AdjustDown(m: Mem, id: nat, uses: multiset<nat>)
    requires id in m && Exact(m, uses + multiset{id})
    ensures Adjust(m, id, -1).Keys == (if Counted(m[id]) && uses[id] == 0 then m.Keys - {id} else m.Keys)
    ensures Exact(Adjust(m, id, -1), uses)
    ensures forall k :: k in Adjust(m, id, -1) ==> Alike(m[k], Adjust(m, id, -1)[k])
  {
    assert (uses + multiset{id})[id] == uses[id] + 1;
  }

  // ---------- split and copy ----------

  predicate Splittable(b: Bucket) {
    b.kind != PIPE && b.kind != META
  }

  function Front(b: Bucket, point: nat): Bucket { b.(length := point) }
  function Back(b: Bucket, point: nat): Bucket { b.(start := b.start + point, length := b.length - point) }

  /** apr_bucket_simple_split and apr_bucket_shared_split */
  function SplitAt(w: World, i: nat, point: nat): World
    requires i < |w.ring| && w.ring[i].data in w.mem
  {
    var e := w.ring[i];
    World(Adjust(w.mem, e.data, 1), w.next, Put(w.ring, i, [Front(e, point), Back(e, point)]))
  }

  lemma UsesTwo(a: Bucket, b: Bucket)
    ensures Uses([a, b]) == Use(a) + Use(b)
  {
    assert [a, b] == [a] + [b];
    UsesOne(a);
    UsesOne(b);
    UsesConcat([a], [b]);
  }

  lemma ContentTwo(m: Mem, a: Bucket, b: Bucket)
    requires Fits(m, a) && Fits(m, b)
    ensures AllFit(m, [a, b]) && Content(m, [a, b]) == BytesOf(m, a) + BytesOf(m, b)
  {
    hide Fits, BytesOf;
    assert [a, b] == [a] + [b];
    ContentOne(m, a);
    ContentOne(m, b);
    ContentConcat(m, [a], [b]);
  }

  lemma HalvesFit(m: Mem, b: Bucket, point: nat)
    requires Fits(m, b) && Splittable(b) && point <= b.length
    ensures Fits(m, Front(b, point)) && Fits(m, Back(b, point))
    ensures BytesOf(m, Front(b, point)) + BytesOf(m, Back(b, point)) == BytesOf(m, b)
    ensures Solid(m, b) ==> Solid(m, Front(b, point)) && Solid(m, Back(b, point))
    ensures point <= |BytesOf(m, b)| ==> BytesOf(m, Front(b, point)) == BytesOf(m, b)[..point]
  {
    ClipSplits(Text(m[b.data], b.kind), b.start, b.length, point);
  }

  /** The bucket's own data is used by it. */
  lemma OwnUse(w: World, i: nat, outside: multiset<nat>)
    requires Inv(w, outside) && i < |w.ring| && w.ring[i].kind != META
    ensures w.ring[i].data in w.mem && w.ring[i].data < w.next
    ensures Exact(w.mem, Rest(w, i) + outside + multiset{w.ring[i].data})
  {
    UsesPut(w, i, []);
    assert Fits(w.mem, w.ring[i]);
    hide Uses, Rest, Fits, Exact;
    var e := w.ring[i];
    assert Uses(w.ring) + outside == Rest(w, i) + outside + multiset{e.data};
  }

  lemma SplitKeeps(w: World, i: nat, point: nat, outside: multiset<nat>)
    requires Inv(w, outside) && i < |w.ring| && Splittable(w.ring[i]) && point <= w.ring[i].length
    ensures w.ring[i].data in w.mem && Keeps(w, SplitAt(w, i, point), outside)
  {
    var e := w.ring[i];
    OwnUse(w, i, outside);
    assert Fits(w.mem, e);
    var m, halves := Adjust(w.mem, e.data, 1), [Front(e, point), Back(e, point)];
    AdjustUp(w.mem, e.data, Rest(w, i) + outside + multiset{e.data});
    SparesAlike(w.mem, m, Rest(w, i) + outside);
    SparesAlike(w.mem, m, multiset{e.data});
    HalvesFit(w.mem, e, point);
    UsesTwo(Front(e, point), Back(e, point));
    SplitTypes(w.mem, m, e, point);
    hide Adjust, Fits, BytesOf, Solid, Content, Exact, Uses, Rest, Spares, Inv;
    ContentTwo(m, Front(e, point), Back(e, point));
    assert Rest(w, i) + outside + multiset{e.data} + multiset{e.data} == Rest(w, i) + Uses(halves) + outside;
    ReplaceKeeps(w, m, w.next, i, halves, outside);
  }

  lemma SplitTypes(m: Mem, m': Mem, b: Bucket, point: nat)
    requires Fits(m, b) && Splittable(b) && point <= b.length && Spares(m, m', multiset{b.data})
    ensures Fits(m', Front(b, point)) && Fits(m', Back(b, point))
    ensures BytesOf(m', Front(b, point)) + BytesOf(m', Back(b, point)) == BytesOf(m, b)
    ensures Solid(m, b) ==> Solid(m', Front(b, point)) && Solid(m', Back(b, point))
  {
    HalvesFit(m, b, point);
    hide Fits, BytesOf, Solid;
  }

  // ---------- reading ----------

  /** A file bucket hands its first n bytes to new storage; what is left of it follows, or its count drops. */
  function HandOver(w: World, i: nat, n: nat, kind: Kind, d: Data): World
    requires i < |w.ring| && w.ring[i].data in w.mem
  {
    World(KeptMem(w, w.ring[i], n)[w.next := d], w.next + 1, Put(w.ring, i, Handed(w, w.ring[i], n, kind)))
  }

  function KeptMem(w: World, e: Bucket, n: nat): Mem
    requires e.data in w.mem
  {
    if 0 < n < e.length then w.mem else Adjust(w.mem, e.data, -1)
  }

  function Kept(e: Bucket, n: nat): multiset<nat> {
    if 0 < n < e.length then multiset{e.data} else multiset{}
  }

  function Handed(w: World, e: Bucket, n: nat, kind: Kind): seq<Bucket> {
    if 0 < n < e.length then [Bucket(kind, w.next, 0, n), Back(e, n)] else [Bucket(kind, w.next, 0, n)]
  }

  lemma HandedFits(w: World, m: Mem, e: Bucket, n: nat, kind: Kind, d: Data, text: seq<Byte>)
    requires Fits(w.mem, e) && e.kind == FILE && n <= e.length && text == Clip(w.mem[e.data].file, e.start, n)
    requires |text| == n && (n == 0 ==> BytesOf(w.mem, e) == [])
    requires (kind == HEAP && d == Heap(1, text)) || (kind == MMAP && d == Mmap(1, text))
    requires w.next in m && m[w.next] == d
    requires 0 < n < e.length ==> e.data in m && m[e.data] == w.mem[e.data]
    ensures AllFit(m, Handed(w, e, n, kind)) && Content(m, Handed(w, e, n, kind)) == BytesOf(w.mem, e)
    ensures Solid(w.mem, e) ==> AllSolid(m, Handed(w, e, n, kind))
    ensures BytesOf(m, Handed(w, e, n, kind)[0]) == text
  {
    var head := Bucket(kind, w.next, 0, n);
    assert Clip(text, 0, n) == text;
    ClipSplits(w.mem[e.data].file, e.start, e.length, n);
    assert Fits(m, head) && BytesOf(m, head) == text;
    if 0 < n < e.length {
      assert Fits(m, Back(e, n));
      ContentTwo(m, head, Back(e, n));
    } else {
      ContentOne(m, head);
    }
  }

  lemma HandOverMem(w: World, i: nat, n: nat, outside: multiset<nat>)
    requires Inv(w, outside) && i < |w.ring| && w.ring[i].kind == FILE
    ensures w.ring[i].data in w.mem && w.ring[i].data < w.next
    ensures KeptMem(w, w.ring[i], n).Keys <= w.mem.Keys
    ensures forall id :: id in Rest(w, i) + outside && id in w.mem ==>
              id in KeptMem(w, w.ring[i], n) && Alike(w.mem[id], KeptMem(w, w.ring[i], n)[id])
    ensures Exact(KeptMem(w, w.ring[i], n), Rest(w, i) + outside + Kept(w.ring[i], n))
  {
    hide Uses, Rest, Fits;
    OwnUse(w, i, outside);
    var rest := Rest(w, i) + outside;
    AdjustDown(w.mem, w.ring[i].data, rest);
    assert rest + multiset{} == rest;
  }

  /** A bucket is replaced by one on new storage and perhaps one on the old. */
  lemma FreshKeeps(w: World, m0: Mem, d: Data, i: nat, repl: seq<Bucket>, kept: multiset<nat>, outside: multiset<nat>)
    requires Inv(w, outside) && i < |w.ring| && m0.Keys <= w.mem.Keys
    requires forall id :: id in Rest(w, i) + outside && id in w.mem ==> id in m0 && Alike(w.mem[id], m0[id])
    requires Exact(m0, Rest(w, i) + outside + kept) && w.next !in kept
    requires d.Memory? || (Counted(d) && d.refs == 1)
    requires Uses(repl) == kept + multiset{w.next}
    requires AllFit(m0[w.next := d], repl) && Content(m0[w.next := d], repl) == BytesOf(w.mem, w.ring[i])
    requires Solid(w.mem, w.ring[i]) ==> AllSolid(m0[w.next := d], repl)
    ensures Keeps(w, World(m0[w.next := d], w.next + 1, Put(w.ring, i, repl)), outside)
    ensures Spares(w.mem, m0[w.next := d], Rest(w, i) + outside)
  {
    FreshIsUnused(w, i, outside);
    var rest, m := Rest(w, i) + outside, m0[w.next := d];
    FreshMem(w, m, outside);
    hide Fits, BytesOf, Solid, Content, Uses, Rest, Spares, Inv, Exact, AllFit, AllSolid, Alike, Put;
    AddFresh(m0, w.next, d, rest + kept);
    Shuffle(Rest(w, i), outside, kept, multiset{w.next});
    AlikeFresh(w.mem, m0, w.next, d, rest);
    SparesAlike(w.mem, m, rest);
    KeysOfRest(w, i, m, outside);
    InvFits(w, outside);
    ReplaceKeeps(w, m, w.next + 1, i, repl, outside);
  }

  lemma Shuffle(a: multiset<nat>, b: multiset<nat>, c: multiset<nat>, d: multiset<nat>)
    ensures a + b + c + d == a + (c + d) + b
  {
  }

  lemma AlikeFresh(m: Mem, m0: Mem, next: nat, d: Data, ids: multiset<nat>)
    requires next !in m && forall id :: id in ids && id in m ==> id in m0 && Alike(m[id], m0[id])
    ensures forall id :: id in ids && id in m ==> id in m0[next := d] && Alike(m[id], m0[next := d][id])
  {
    hide Alike;
  }

  lemma InvFits(w: World, outside: multiset<nat>)
    requires Inv(w, outside)
    ensures AllFit(w.mem, w.ring)
  {
  }

  lemma FreshMem(w: World, m: Mem, outside: multiset<nat>)
    requires Inv(w, outside) && m.Keys <= w.mem.Keys + {w.next}
    ensures forall id :: id in m ==> id < w.next + 1
  {
    assert forall id :: id in m ==> id in m.Keys;
  }

  lemma HandOverKeeps(w: World, i: nat, n: nat, kind: Kind, d: Data, text: seq<Byte>, outside: multiset<nat>)
    requires Inv(w, outside) && i < |w.ring| && w.ring[i].kind == FILE && n <= w.ring[i].length
    requires w.ring[i].data in w.mem && w.mem[w.ring[i].data].File?
    requires text == Clip(w.mem[w.ring[i].data].file, w.ring[i].start, n) && |text| == n
    requires n == 0 ==> Fits(w.mem, w.ring[i]) && BytesOf(w.mem, w.ring[i]) == []
    requires (kind == HEAP && d == Heap(1, text)) || (kind == MMAP && d == Mmap(1, text))
    ensures Keeps(w, HandOver(w, i, n, kind, d), outside)
    ensures Spares(w.mem, HandOver(w, i, n, kind, d).mem, Rest(w, i) + outside)
  {
    hide *;
    var e := w.ring[i];
    HandOverMem(w, i, n, outside);
    HandOverFacts(w, i, n, kind, d, outside);
    HandedUses(w, e, n, kind);
    HandedFits(w, KeptMem(w, e, n)[w.next := d], e, n, kind, d, text);
    FreshKeeps(w, KeptMem(w, e, n), d, i, Handed(w, e, n, kind), Kept(e, n), outside);
  }

  lemma HandOverFacts(w: World, i: nat, n: nat, kind: Kind, d: Data, outside: multiset<nat>)
    requires Inv(w, outside) && i < |w.ring| && w.ring[i].kind == FILE && w.ring[i].data in w.mem
    ensures Fits(w.mem, w.ring[i]) && w.ring[i].data < w.next && w.next !in Kept(w.ring[i], n)
    ensures 0 < n < w.ring[i].length ==> KeptMem(w, w.ring[i], n) == w.mem
    ensures HandOver(w, i, n, kind, d) ==
            World(KeptMem(w, w.ring[i], n)[w.next := d], w.next + 1, Put(w.ring, i, Handed(w, w.ring[i], n, kind)))
    ensures Counted(d) == !(d.Memory? || d.Pipe?)
  {
  }

  lemma HandedUses(w: World, e: Bucket, n: nat, kind: Kind)
    requires e.kind == FILE && kind != META
    ensures Uses(Handed(w, e, n, kind)) == multiset{w.next} + Kept(e, n)
  {
    UsesOne(Bucket(kind, w.next, 0, n));
    UsesTwo(Bucket(kind, w.next, 0, n), Back(e, n));
  }

  /** The number of the next allocation is not in use. */
  lemma FreshIsUnused(w: World, i: nat, outside: multiset<nat>)
    requires Inv(w, outside) && i < |w.ring|
    ensures w.next !in w.mem && w.next !in Rest(w, i) && w.next !in outside
  {
    UsesPut(w, i, []);
    UsedInMem(w.mem, w.ring);
    hide Uses, Fits;
    assert Rest(w, i) <= Uses(w.ring);
  }

  lemma {:induction false} UsedInMem(m: Mem, ring: seq<Bucket>)
    requires AllFit(m, ring)
    ensures forall id :: id in Uses(ring) ==> id in m
  {
    if |ring| > 0 {
      assert Fits(m, ring[0]);
      UsedInMem(m, ring[1..]);
    }
  }

  lemma AddFresh(m: Mem, next: nat, d: Data, uses: multiset<nat>)
    requires next !in m && next !in uses && Exact(m, uses) && (d.Memory? || (Counted(d) && d.refs == 1))
    ensures Exact(m[next := d], uses + multiset{next})
  {
  }

  /** Structures that others point at survive. */
  lemma KeysOfRest(w: World, i: nat, m: Mem, outside: multiset<nat>)
    requires Inv(w, outside) && i < |w.ring| && Spares(w.mem, m, Rest(w, i) + outside)
    requires forall id :: id in Rest(w, i) + outside && id in w.mem ==> id in m
    ensures forall id :: id in outside ==> id in m
  {
    hide Fits, BytesOf, Solid, Spares;
  }

  /**
   A pipe bucket becomes a heap bucket of n bytes in a whole buffer, with the pipe behind it, or at the end an empty
   one.
   */
  function PipeTake(w: World, i: nat, n: nat, buf: seq<Byte>): World
    requires i < |w.ring| && w.ring[i].data in w.mem && w.mem[w.ring[i].data].Pipe? && n <= |w.mem[w.ring[i].data].rest|
  {
    World(PipeLeft(w, w.ring[i], n)[w.next := PipeBuffer(n, buf)], w.next + 1,
      Put(w.ring, i, PipeParts(w, w.ring[i], n)))
  }

  function PipeLeft(w: World, e: Bucket, n: nat): Mem
    requires e.data in w.mem && w.mem[e.data].Pipe? && n <= |w.mem[e.data].rest|
  {
    if n > 0 then w.mem[e.data := Pipe(w.mem[e.data].rest[n..])] else w.mem
  }

  function PipeBuffer(n: nat, buf: seq<Byte>): Data {
    if n > 0 then Heap(1, buf) else Memory([])
  }

  function PipeParts(w: World, e: Bucket, n: nat): seq<Bucket> {
    if n > 0 then [Bucket(HEAP, w.next, 0, n), e] else [Bucket(MEMORY, w.next, 0, 0)]
  }

  lemma PipeMem(w: World, i: nat, n: nat, outside: multiset<nat>)
    requires Inv(w, outside) && i < |w.ring| && w.ring[i].kind == PIPE
    ensures Fits(w.mem, w.ring[i]) && w.mem[w.ring[i].data].Pipe? && w.ring[i].data in w.mem && w.ring[i].data < w.next
    ensures BytesOf(w.mem, w.ring[i]) == w.mem[w.ring[i].data].rest
    ensures w.ring[i].data !in Rest(w, i) + outside && Exact(w.mem, Rest(w, i) + outside)
    ensures forall p: Data :: p.Pipe? ==>
              Exact(w.mem[w.ring[i].data := p], Rest(w, i) + outside + multiset{w.ring[i].data})
  {
    hide Uses, Rest;
    OwnUse(w, i, outside);
    var id, rest := w.ring[i].data, Rest(w, i) + outside;
    assert Balanced(w.mem[id], (rest + multiset{id})[id]);
    forall k | k in w.mem
      ensures Balanced(w.mem[k], rest[k])
    {
      assert Balanced(w.mem[k], (rest + multiset{id})[k]);
    }
  }

  lemma PipeFits(w: World, e: Bucket, n: nat, buf: seq<Byte>)
    requires Fits(w.mem, e) && e.kind == PIPE && n <= |w.mem[e.data].rest| && e.data != w.next
    requires n > 0 ==> n <= |buf| && buf[..n] == w.mem[e.data].rest[..n]
    requires n == 0 ==> w.mem[e.data].rest == []
    ensures var m := PipeLeft(w, e, n)[w.next := PipeBuffer(n, buf)]; var parts := PipeParts(w, e, n);
            && AllFit(m, parts) && AllSolid(m, parts) && Content(m, parts) == BytesOf(w.mem, e)
            && BytesOf(m, parts[0]) == w.mem[e.data].rest[..n]
  {
    var m := PipeLeft(w, e, n)[w.next := PipeBuffer(n, buf)];
    if n > 0 {
      var head := Bucket(HEAP, w.next, 0, n);
      assert Fits(m, head) && Fits(m, e) && BytesOf(m, head) == w.mem[e.data].rest[..n];
      ContentTwo(m, head, e);
    } else {
      ContentOne(m, Bucket(MEMORY, w.next, 0, 0));
    }
  }

  lemma PipeFacts(w: World, i: nat, n: nat, buf: seq<Byte>, outside: multiset<nat>)
    requires Inv(w, outside) && i < |w.ring| && w.ring[i].kind == PIPE
    requires w.ring[i].data in w.mem && w.mem[w.ring[i].data].Pipe? && n <= |w.mem[w.ring[i].data].rest|
    ensures PipeLeft(w, w.ring[i], n).Keys <= w.mem.Keys && PipeUse(w.ring[i], n)[w.next] == 0
    ensures Exact(PipeLeft(w, w.ring[i], n), Rest(w, i) + outside + PipeUse(w.ring[i], n))
    ensures Uses(PipeParts(w, w.ring[i], n)) == PipeUse(w.ring[i], n) + multiset{w.next}
    ensures forall id :: id in Rest(w, i) + outside && id in w.mem ==>
              id in PipeLeft(w, w.ring[i], n) && Alike(w.mem[id], PipeLeft(w, w.ring[i], n)[id])
    ensures PipeBuffer(n, buf).Memory? || (Counted(PipeBuffer(n, buf)) && PipeBuffer(n, buf).refs == 1)
  {
    PipeMem(w, i, n, outside);
    UsesTwo(Bucket(HEAP, w.next, 0, n), w.ring[i]);
    UsesOne(Bucket(MEMORY, w.next, 0, 0));
    hide Uses, Rest, Inv, Fits, Exact;
    ghost var rest := Rest(w, i) + outside;
    AddNothing(rest);
    AddNothing(multiset{w.next});
    OthersAlike(w.mem, w.ring[i].data, PipeLeft(w, w.ring[i], n), rest);
  }

  lemma AddNothing(a: multiset<nat>)
    ensures a + multiset{} == a == multiset{} + a
  {
  }

  lemma OthersAlike(m: Mem, id: nat, m': Mem, ids: multiset<nat>)
    requires id !in ids && id in m && m'.Keys == m.Keys && forall k :: k in m && k != id ==> m'[k] == m[k]
    ensures forall k :: k in ids && k in m ==> k in m' && Alike(m[k], m'[k])
  {
    assert forall k :: k in m <==> k in m.Keys;
  }

  function PipeUse(e: Bucket, n: nat): multiset<nat> {
    if n > 0 then multiset{e.data} else multiset{}
  }

  lemma PipeTakeKeeps(w: World, i: nat, n: nat, buf: seq<Byte>, outside: multiset<nat>)
    requires Inv(w, outside) && i < |w.ring| && w.ring[i].kind == PIPE
    requires w.ring[i].data in w.mem && w.mem[w.ring[i].data].Pipe? && n <= |w.mem[w.ring[i].data].rest|
    requires n > 0 ==> n <= |buf| && buf[..n] == w.mem[w.ring[i].data].rest[..n]
    requires n == 0 ==> w.mem[w.ring[i].data].rest == []
    ensures Keeps(w, PipeTake(w, i, n, buf), outside)
    ensures Spares(w.mem, PipeTake(w, i, n, buf).mem, Rest(w, i) + outside)
  {
    var e := w.ring[i];
    assert PipeTake(w, i, n, buf) ==
           World(PipeLeft(w, e, n)[w.next := PipeBuffer(n, buf)], w.next + 1, Put(w.ring, i, PipeParts(w, e, n)));
    hide *;
    PipeMem(w, i, n, outside);
    PipeFits(w, e, n, buf);
    PipeFacts(w, i, n, buf, outside);
    FreshKeeps(w, PipeLeft(w, e, n), PipeBuffer(n, buf), i, PipeParts(w, e, n), PipeUse(e, n), outside);
  }

  /** A bucket whose pool is gone is a heap bucket from now on. */
  function PoolRead(w: World, i: nat): World
    requires i < |w.ring| && w.ring[i].data in w.mem && w.mem[w.ring[i].data].Pool?
  {
    if w.mem[w.ring[i].data].inPool then w else w.(ring := Put(w.ring, i, [w.ring[i].(kind := HEAP)]))
  }

  lemma PoolReadKeeps(w: World, i: nat, outside: multiset<nat>)
    requires Inv(w, outside) && i < |w.ring| && w.ring[i].kind == POOL
    ensures w.ring[i].data in w.mem && w.mem[w.ring[i].data].Pool? && Keeps(w, PoolRead(w, i), outside)
    ensures PoolRead(w, i).mem == w.mem
  {
    assert Fits(w.mem, w.ring[i]);
    KeepsItself(w, outside);
    if !w.mem[w.ring[i].data].inPool {
      AsHeapFits(w.mem, w.ring[i]);
      assert PoolRead(w, i) == World(w.mem, w.next, Put(w.ring, i, [w.ring[i].(kind := HEAP)]));
      OwnUse(w, i, outside);
      FreshIsUnused(w, i, outside);
      InvFits(w, outside);
      FreshMem(w, w.mem, outside);
      hide *;
      SparesSelf(w.mem, Rest(w, i) + outside);
      Shuffle(Rest(w, i), outside, multiset{w.ring[i].data}, multiset{});
      assert multiset{w.ring[i].data} + multiset{} == multiset{w.ring[i].data};
      ReplaceKeeps(w, w.mem, w.next, i, [w.ring[i].(kind := HEAP)], outside);
    }
  }

  lemma AsHeapFits(m: Mem, b: Bucket)
    requires Fits(m, b) && b.kind == POOL && !m[b.data].inPool
    ensures AllFit(m, [b.(kind := HEAP)]) && Content(m, [b.(kind := HEAP)]) == BytesOf(m, b)
    ensures AllSolid(m, [b.(kind := HEAP)]) && Uses([b.(kind := HEAP)]) == multiset{b.data}
  {
    ContentOne(m, b.(kind := HEAP));
    UsesOne(b.(kind := HEAP));
  }

  lemma SparesSelf(m: Mem, ids: multiset<nat>)
    ensures Spares(m, m, ids)
  {
    hide Fits, BytesOf, Solid;
  }
}
