/**
 Buckets: slices of storage that several buckets may share.

 A bucket is the value of its C structure; what its data pointer leads to lives in a memory, under a number that is
 never used again. The abstract value of a ring of buckets is its bytes, and every structure counts the buckets that
 point at it.
 */
module Buckets {

  type Byte = b: int | 0 <= b < 256

  const BUFF_SIZE: nat := 8000
  const MMAP_THRESHOLD: nat := 1
  const MMAP_LIMIT: nat := 4 * 1024 * 1024

  datatype Status = Success | Einval | NotImpl | Incomplete | Eof | Failed

  /** MEMORY is the immortal and the transient type; META is the end-of-stream and the flush type. */
  datatype Kind = HEAP | POOL | FILE | MMAP | MEMORY | PIPE | META

  datatype Bucket = Bucket(kind: Kind, data: nat, start: int, length: int)

  /** A pool structure holds a heap structure, whose base is set only when the pool goes away. */
  datatype Data =
    | Memory(base: seq<Byte>)
    | Pipe(rest: seq<Byte>)
    | Heap(refs: int, base: seq<Byte>)
    | Pool(refs: int, poolBase: seq<Byte>, heapBase: seq<Byte>, inPool: bool)
    | File(refs: int, file: seq<Byte>, canMmap: bool)
    | Mmap(refs: int, base: seq<Byte>)

  type Mem = map<nat, Data>

  /** A memory and the buckets of one ring; `next` is the number of the next allocation. */
  datatype World = World(mem: Mem, next: nat, ring: seq<Bucket>)

  // ---------- what a bucket holds ----------

  /** The bytes start..start+length of s that exist. */
  function Clip(s: seq<Byte>, start: nat, length: nat): seq<Byte> {
    if start >= |s| then [] else if start + length >= |s| then s[start..] else s[start..start + length]
  }

  lemma ClipSplits(s: seq<Byte>, start: nat, length: nat, point: nat)
    requires point <= length
    ensures Clip(s, start, length) == Clip(s, start, point) + Clip(s, start + point, length - point)
  {
  }

  /** The text that the offsets of a bucket of this kind count in. */
  function Text(d: Data, kind: Kind): seq<Byte> {
    match d
    case Memory(base) => base
    case Pipe(rest) => rest
    case Heap(_, base) => base
    case Pool(_, poolBase, heapBase, inPool) => if kind == POOL && inPool then poolBase else heapBase
    case File(_, file, _) => file
    case Mmap(_, base) => base
  }

  predicate Typed(d: Data, kind: Kind) {
    match d
    case Memory(_) => kind == MEMORY
    case Pipe(_) => kind == PIPE
    case Heap(_, _) => kind == HEAP
    case Pool(_, _, _, inPool) => kind == POOL || (kind == HEAP && !inPool)
    case File(_, _, _) => kind == FILE
    case Mmap(_, _) => kind == MMAP
  }

  /** The bucket points at storage of its type and stays inside it; a file may be shorter than is claimed. */
  predicate Fits(m: Mem, b: Bucket) {
    if b.kind == META then b.start == 0 && b.length == 0
    else
      && b.data in m && Typed(m[b.data], b.kind)
      && if b.kind == PIPE then b.start == -1 && b.length == -1
         else 0 <= b.start && 0 <= b.length && (b.kind == FILE || b.start + b.length <= |Text(m[b.data], b.kind)|)
  }

  function BytesOf(m: Mem, b: Bucket): seq<Byte>
    requires Fits(m, b)
  {
    if b.kind == META then []
    else if b.kind == PIPE then m[b.data].rest
    else Clip(Text(m[b.data], b.kind), b.start, b.length)
  }

  /** The length field is the number of bytes: it is known, and no file is shorter than is claimed. */
  predicate Solid(m: Mem, b: Bucket) {
    b.kind == FILE ==> b.data in m && b.start + b.length <= |Text(m[b.data], FILE)|
  }

  predicate AllFit(m: Mem, ring: seq<Bucket>) {
    forall i :: 0 <= i < |ring| ==> Fits(m, ring[i])
  }

  predicate AllSolid(m: Mem, ring: seq<Bucket>) {
    forall i :: 0 <= i < |ring| ==> Solid(m, ring[i])
  }

  /** The abstract value of a ring: its bytes. */
  function Content(m: Mem, ring: seq<Bucket>): seq<Byte>
    requires AllFit(m, ring)
  {
    if |ring| == 0 then [] else BytesOf(m, ring[0]) + Content(m, ring[1..])
  }

  lemma {:induction false} ContentConcat(m: Mem, a: seq<Bucket>, b: seq<Bucket>)
    requires AllFit(m, a) && AllFit(m, b)
    ensures AllFit(m, a + b) && Content(m, a + b) == Content(m, a) + Content(m, b)
  {
    hide Fits, BytesOf;
    if |a| == 0 {
      assert a + b == b;
    } else {
      ContentConcat(m, a[1..], b);
      assert (a + b)[1..] == a[1..] + b;
    }
  }

  lemma ContentOne(m: Mem, b: Bucket)
    requires Fits(m, b)
    ensures AllFit(m, [b]) && Content(m, [b]) == BytesOf(m, b)
  {
    hide Fits, BytesOf;
    assert [b][1..] == [];
  }

  // ---------- reference counts ----------

  predicate Counted(d: Data) {
    !d.Memory? && !d.Pipe?
  }

  function Use(b: Bucket): multiset<nat> {
    if b.kind == META then multiset{} else multiset{b.data}
  }

  /** How many buckets of the ring point at each structure. */
  function Uses(ring: seq<Bucket>): multiset<nat> {
    if |ring| == 0 then multiset{} else Use(ring[0]) + Uses(ring[1..])
  }

  lemma AddEmpty(a: multiset<nat>)
    ensures multiset{} + a == a
  {
  }

  lemma Associate(a: multiset<nat>, b: multiset<nat>, c: multiset<nat>)
    ensures a + (b + c) == (a + b) + c
  {
  }

  lemma UsesStep(ring: seq<Bucket>)
    ensures |ring| == 0 ==> Uses(ring) == multiset{}
    ensures |ring| > 0 ==> Uses(ring) == Use(ring[0]) + Uses(ring[1..])
  {
  }

  lemma {:induction false} UsesConcat(a: seq<Bucket>, b: seq<Bucket>)
    ensures Uses(a + b) == Uses(a) + Uses(b)
  {
    hide *;
    UsesStep(a);
    if |a| == 0 {
      assert a + b == b;
      AddEmpty(Uses(b));
    } else {
      UsesConcat(a[1..], b);
      assert (a + b)[0] == a[0] && (a + b)[1..] == a[1..] + b;
      UsesStep(a + b);
      Associate(Use(a[0]), Uses(a[1..]), Uses(b));
    }
  }

  lemma UsesOne(b: Bucket)
    ensures Uses([b]) == Use(b)
  {
    assert [b][1..] == [];
  }

  lemma {:induction false} UsedIfIn(ring: seq<Bucket>, i: nat)
    requires i < |ring| && ring[i].kind != META
    ensures Uses(ring)[ring[i].data] > 0
  {
    if i > 0 {
      UsedIfIn(ring[1..], i - 1);
    }
  }

  /** n buckets point at the structure: a count is exact and not zero, and a pipe is never shared. */
  predicate Balanced(d: Data, n: nat) {
    if Counted(d) then d.refs == n > 0 else d.Pipe? ==> n <= 1
  }

  /** The counts of a memory are right for these pointers. */
  predicate Exact(m: Mem, uses: multiset<nat>) {
    forall id :: id in m ==> Balanced(m[id], uses[id])
  }

  /**
   What every operation keeps. `outside` counts the pointers of all live buckets that are not in
   this ring; with none outside, the ring holds all buckets of the program.
   */
  predicate Inv(w: World, outside: multiset<nat>) {
    && (forall id :: id in w.mem ==> id < w.next)
    && AllFit(w.mem, w.ring)
    && (forall id :: id in outside ==> id in w.mem)
    && Exact(w.mem, Uses(w.ring) + outside)
  }

  /** Whatever a bucket on one of these structures held, it still holds. */
  ghost predicate Spares(m: Mem, m': Mem, ids: multiset<nat>) {
    forall b: Bucket :: Fits(m, b) && (b.kind == META || b.data in ids) ==>
      Fits(m', b) && BytesOf(m', b) == BytesOf(m, b) && (Solid(m, b) ==> Solid(m', b))
  }

  /** Equal but for the count. */
  predicate Alike(d: Data, d': Data) {
    if Counted(d) then Counted(d') && d' == d.(refs := d'.refs) else d' == d
  }

  lemma SparesAlike(m: Mem, m': Mem, ids: multiset<nat>)
    requires forall id :: id in ids && id in m ==> id in m' && Alike(m[id], m'[id])
    ensures Spares(m, m', ids)
  {
    forall b: Bucket | Fits(m, b) && (b.kind == META || b.data in ids)
      ensures Fits(m', b) && BytesOf(m', b) == BytesOf(m, b) && (Solid(m, b) ==> Solid(m', b))
    {
      if b.kind != META {
        assert Alike(m[b.data], m'[b.data]);
        assert Text(m'[b.data], b.kind) == Text(m[b.data], b.kind);
      }
    }
  }

  lemma SparesFewer(m: Mem, m': Mem, ids: multiset<nat>, fewer: multiset<nat>)
    requires Spares(m, m', ids) && fewer <= ids
    ensures Spares(m, m', fewer)
  {
    hide Fits, BytesOf, Solid;
  }

  lemma SparesTwice(m: Mem, m': Mem, m'': Mem, ids: multiset<nat>)
    requires Spares(m, m', ids) && Spares(m', m'', ids)
    ensures Spares(m, m'', ids)
  {
    hide Fits, BytesOf, Solid;
  }

  lemma Within(a: multiset<nat>, b: multiset<nat>, ids: multiset<nat>)
    requires a + b <= ids
    ensures a <= ids && b <= ids
  {
  }

  lemma HeadSpared(m: Mem, m': Mem, ids: multiset<nat>, b: Bucket)
    requires Fits(m, b) && Spares(m, m', ids) && Use(b) <= ids
    ensures Fits(m', b) && BytesOf(m', b) == BytesOf(m, b) && (Solid(m, b) ==> Solid(m', b))
  {
    hide Fits, BytesOf, Solid;
    assert b.kind == META || b.data in ids by {
      if b.kind != META {
        assert b.data in Use(b);
      }
    }
  }

  /** A ring on spared structures keeps its bytes. */
  lemma {:induction false} SparedRing(m: Mem, m': Mem, ids: multiset<nat>, ring: seq<Bucket>)
    requires AllFit(m, ring) && Spares(m, m', ids) && Uses(ring) <= ids
    ensures AllFit(m', ring) && Content(m', ring) == Content(m, ring)
    ensures AllSolid(m, ring) ==> AllSolid(m', ring)
  {
    hide Fits, BytesOf, Solid, Uses, Use, Spares;
    if |ring| > 0 {
      UsesStep(ring);
      Within(Use(ring[0]), Uses(ring[1..]), ids);
      HeadSpared(m, m', ids, ring[0]);
      assert forall i :: 0 <= i < |ring[1..]| ==> ring[1..][i] == ring[i + 1];
      SparedRing(m, m', ids, ring[1..]);
      assert forall i :: 0 < i < |ring| ==> ring[i] == ring[1..][i - 1];
    }
  }

  // ---------- replacing one bucket ----------

  function Rest(w: World, i: nat): multiset<nat>
    requires i < |w.ring|
  {
    Uses(w.ring[..i]) + Uses(w.ring[i + 1..])
  }

  function Put(ring: seq<Bucket>, i: nat, repl: seq<Bucket>): seq<Bucket>
    requires i < |ring|
  {
    ring[..i] + repl + ring[i + 1..]
  }

  lemma UsesPut(w: World, i: nat, repl: seq<Bucket>)
    requires i < |w.ring|
    ensures Uses(w.ring) == Rest(w, i) + Use(w.ring[i])
    ensures Uses(Put(w.ring, i, repl)) == Rest(w, i) + Uses(repl)
  {
    var a, e, c := w.ring[..i], w.ring[i], w.ring[i + 1..];
    assert w.ring == a + ([e] + c);
    assert Put(w.ring, i, repl) == a + (repl + c);
    UsesOne(e);
    UsesConcat([e], c);
    UsesConcat(a, [e] + c);
    UsesConcat(repl, c);
    UsesConcat(a, repl + c);
  }

  lemma ContentPut(m: Mem, ring: seq<Bucket>, i: nat, repl: seq<Bucket>)
    requires i < |ring| && AllFit(m, ring[..i]) && AllFit(m, repl) && AllFit(m, ring[i + 1..])
    ensures AllFit(m, Put(ring, i, repl))
    ensures Content(m, Put(ring, i, repl)) == Content(m, ring[..i]) + Content(m, repl) + Content(m, ring[i + 1..])
  {
    hide Fits, BytesOf, Content;
    var a, c := ring[..i], ring[i + 1..];
    assert Put(ring, i, repl) == (a + repl) + c;
    ContentConcat(m, a, repl);
    ContentConcat(m, a + repl, c);
  }

  /** The ring still holds the same bytes, in the same memory or another. */
  predicate SameContent(w: World, w': World) {
    AllFit(w.mem, w.ring) ==> AllFit(w'.mem, w'.ring) && Content(w'.mem, w'.ring) == Content(w.mem, w.ring)
  }

  /** An operation that keeps the bytes of this ring and of all others, and the invariant. */
  ghost predicate Keeps(w: World, w': World, outside: multiset<nat>) {
    && Inv(w', outside) && SameContent(w, w') && Spares(w.mem, w'.mem, outside)
    && (AllSolid(w.mem, w.ring) ==> AllSolid(w'.mem, w'.ring))
  }

  lemma KeepsTwice(w: World, w': World, w'': World, outside: multiset<nat>)
    requires AllFit(w.mem, w.ring) && Keeps(w, w', outside) && Keeps(w', w'', outside)
    ensures Keeps(w, w'', outside)
  {
    hide Fits, BytesOf, Solid, Content, Exact;
    SparesTwice(w.mem, w'.mem, w''.mem, outside);
  }

  lemma KeepsItself(w: World, outside: multiset<nat>)
    requires Inv(w, outside)
    ensures Keeps(w, w, outside)
  {
    hide Fits, BytesOf, Solid, Content, Exact;
  }

  /** The other buckets keep their bytes. */
  lemma OthersKept(w: World, m: Mem, i: nat, outside: multiset<nat>)
    requires i < |w.ring| && AllFit(w.mem, w.ring) && Spares(w.mem, m, Rest(w, i) + outside)
    ensures AllFit(m, w.ring[..i]) && AllFit(m, w.ring[i + 1..])
    ensures Content(m, w.ring[..i]) == Content(w.mem, w.ring[..i])
    ensures Content(m, w.ring[i + 1..]) == Content(w.mem, w.ring[i + 1..])
    ensures AllSolid(w.mem, w.ring) ==> AllSolid(m, w.ring[..i]) && AllSolid(m, w.ring[i + 1..])
    ensures Spares(w.mem, m, outside)
  {
    hide Fits, BytesOf, Solid, Content, Uses, Spares;
    var ids := Rest(w, i) + outside;
    SparesFewer(w.mem, m, ids, outside);
    SparedRing(w.mem, m, ids, w.ring[..i]);
    SparedRing(w.mem, m, ids, w.ring[i + 1..]);
  }

  lemma PutAll(m: Mem, ring: seq<Bucket>, i: nat, repl: seq<Bucket>)
    requires i < |ring|
    ensures AllFit(m, ring[..i]) && AllFit(m, repl) && AllFit(m, ring[i + 1..]) ==> AllFit(m, Put(ring, i, repl))
    ensures AllSolid(m, ring[..i]) && AllSolid(m, repl) && AllSolid(m, ring[i + 1..]) ==>
              AllSolid(m, Put(ring, i, repl))
  {
    hide Fits, Solid;
    var all := Put(ring, i, repl);
    forall k | 0 <= k < |all|
      ensures all[k] in ring[..i] || all[k] in repl || all[k] in ring[i + 1..]
    {
      assert all[k] ==
             if k < i then ring[..i][k] else if k < i + |repl| then repl[k - i] else ring[i + 1..][k - i - |repl|];
    }
  }

  lemma InvPut(w: World, m: Mem, next: nat, i: nat, repl: seq<Bucket>, outside: multiset<nat>)
    requires i < |w.ring| && AllFit(m, Put(w.ring, i, repl))
    requires forall id :: id in m ==> id < next
    requires forall id :: id in outside ==> id in m
    requires Exact(m, Rest(w, i) + Uses(repl) + outside)
    ensures Inv(World(m, next, Put(w.ring, i, repl)), outside)
  {
    UsesPut(w, i, repl);
    hide Exact, Uses, Rest, Put, AllFit;
  }

  /** One bucket gives way to others with the same bytes, and the counts follow. */
  lemma ReplaceKeeps(w: World, m: Mem, next: nat, i: nat, repl: seq<Bucket>, outside: multiset<nat>)
    requires AllFit(w.mem, w.ring) && i < |w.ring| && AllFit(m, repl)
    requires Content(m, repl) == BytesOf(w.mem, w.ring[i])
    requires Spares(w.mem, m, Rest(w, i) + outside)
    requires Solid(w.mem, w.ring[i]) ==> AllSolid(m, repl)
    requires forall id :: id in m ==> id < next
    requires forall id :: id in outside ==> id in m
    requires Exact(m, Rest(w, i) + Uses(repl) + outside)
    ensures Keeps(w, World(m, next, Put(w.ring, i, repl)), outside)
  {
    hide Fits, BytesOf, Solid, Content, Exact, Uses, Rest, Put, Spares, AllFit, AllSolid, Inv;
    var e := w.ring[i];
    OthersKept(w, m, i, outside);
    PutAll(m, w.ring, i, repl);
    InvPut(w, m, next, i, repl, outside);
    ContentPut(m, w.ring, i, repl);
    FitParts(w, i);
    ContentOne(w.mem, e);
    PutSame(w.ring, i);
    ContentPut(w.mem, w.ring, i, [e]);
  }

  lemma PutSame(ring: seq<Bucket>, i: nat)
    requires i < |ring|
    ensures Put(ring, i, [ring[i]]) == ring
  {
  }

  lemma FitParts(w: World, i: nat)
    requires i < |w.ring| && AllFit(w.mem, w.ring)
    ensures AllFit(w.mem, w.ring[..i]) && Fits(w.mem, w.ring[i]) && AllFit(w.mem, w.ring[i + 1..])
    ensures AllSolid(w.mem, w.ring) ==> Solid(w.mem, w.ring[i])
  {
    hide Fits, Solid;
  }
}
