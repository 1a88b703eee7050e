/** Lengths, loads and moves of rings. */
module BrigadeFacts {
  import opened Buckets
  import opened BucketReads
  import opened BucketLife

  // ---------- lengths ----------

  /** No bucket of unknown length. */
  predicate Known(ring: seq<Bucket>) {
    forall i :: 0 <= i < |ring| ==> ring[i].kind != PIPE
  }

  function Total(ring: seq<Bucket>): int {
    if |ring| == 0 then 0 else Total(ring[..|ring| - 1]) + ring[|ring| - 1].length
  }

  lemma OneSize(m: Mem, b: Bucket)
    requires Fits(m, b) && b.kind != PIPE
    ensures |BytesOf(m, b)| <= b.length && (Solid(m, b) ==> |BytesOf(m, b)| == b.length)
  {
  }

  /** The lengths of the buckets add up to the number of bytes, unless a file is shorter than is claimed. */
  lemma {:induction false} TotalIsSize(m: Mem, ring: seq<Bucket>)
    requires AllFit(m, ring) && Known(ring)
    ensures |Content(m, ring)| <= Total(ring)
    ensures AllSolid(m, ring) ==> |Content(m, ring)| == Total(ring)
  {
    if |ring| > 0 {
      var k := |ring| - 1;
      var a, e := ring[..k], ring[k];
      assert Fits(m, e) && (AllSolid(m, ring) ==> Solid(m, e) && AllSolid(m, a));
      assert AllFit(m, a) && ring == a + [e];
      hide Fits, BytesOf, Solid, Content;
      TotalIsSize(m, a);
      OneSize(m, e);
      ContentOne(m, e);
      ContentConcat(m, a, [e]);
    }
  }

  lemma TotalStep(ring: seq<Bucket>, i: nat)
    requires i < |ring|
    ensures Total(ring[..i + 1]) == Total(ring[..i]) + ring[i].length
    ensures Known(ring[..i]) && ring[i].kind != PIPE ==> Known(ring[..i + 1])
  {
    assert ring[..i + 1][..i] == ring[..i];
  }

  /** Where the lengths add up to a point, the bytes are cut there. */
  lemma CutAt(m: Mem, ring: seq<Bucket>, k: nat)
    requires AllFit(m, ring) && AllSolid(m, ring) && k <= |ring| && Known(ring[..k])
    ensures AllFit(m, ring[..k]) && AllFit(m, ring[k..]) && 0 <= Total(ring[..k]) <= |Content(m, ring)|
    ensures Content(m, ring[..k]) == Content(m, ring)[..Total(ring[..k])]
    ensures Content(m, ring[k..]) == Content(m, ring)[Total(ring[..k])..]
  {
    var n := World(m, 0, ring);
    RingParts(n, k);
    hide Fits, BytesOf, Solid, Content;
    TotalIsSize(m, ring[..k]);
  }

  // ---------- what is left to fetch ----------

  function Load(m: Mem, ring: seq<Bucket>): nat {
    if |ring| == 0 then 0 else Weight(m, ring[0]) + Load(m, ring[1..])
  }

  lemma {:induction false} LoadSpared(m: Mem, m': Mem, ids: multiset<nat>, ring: seq<Bucket>)
    requires AllFit(m, ring) && Spares(m, m', ids) && Uses(ring) <= ids
    ensures Load(m', ring) == Load(m, ring)
  {
    if |ring| > 0 {
      var b := ring[0];
      assert Use(b) <= ids && Uses(ring[1..]) <= ids && Fits(m, b);
      assert b.kind == META || b.data in ids by {
        if b.kind != META {
          assert b.data in Use(b);
        }
      }
      SparedBucket(m, m', ids, b);
      assert Weight(m', b) == Weight(m, b);
      hide Fits, BytesOf, Spares, Weight, Uses;
      FitTail(m, ring);
      LoadSpared(m, m', ids, ring[1..]);
    }
  }

  lemma FitTail(m: Mem, ring: seq<Bucket>)
    requires |ring| > 0 && AllFit(m, ring)
    ensures AllFit(m, ring[1..])
  {
    hide Fits;
  }

  lemma LoadDrops(m: Mem, ring: seq<Bucket>, i: nat)
    requires i < |ring|
    ensures Load(m, ring[i + 1..]) < Load(m, ring[i..])
    ensures Load(m, ring[i..]) == Weight(m, ring[i]) + Load(m, ring[i + 1..])
  {
    assert ring[i..][1..] == ring[i + 1..];
  }

  /** Every read makes progress: behind the bucket that was read, less is left to fetch than before. */
  lemma ReadDrops(w: World, i: nat, w': World, st: Status, str: seq<Byte>, outside: multiset<nat>)
    requires Inv(w, outside) && i < |w.ring| && Fits(w.mem, w.ring[i]) && ReadStep(w, i, w', st, str)
    requires ReadShape(w, i, w', st, str)
    requires Spares(w.mem, w'.mem, Rest(w, i) + outside)
    ensures Load(w'.mem, w'.ring[i + 1..]) < Load(w.mem, w.ring[i..])
  {
    assert AllFit(w.mem, w.ring[i + 1..]);
    hide ReadStep, Fits, BytesOf, Spares, Weight, Uses, InMemory;
    LoadSpared(w.mem, w'.mem, Rest(w, i) + outside, w.ring[i + 1..]);
    LoadDrops(w.mem, w.ring, i);
    if w'.ring[i + 1..] != w.ring[i + 1..] && st != Failed {
      assert w'.ring[i + 1..][1..] == w'.ring[i + 2..];
    }
  }

  // ---------- moving buckets between two rings on one memory ----------

  /** The first bucket of one ring goes to the end of the other. */
  lemma MoveOver(w: World, ring: seq<Bucket>, others: multiset<nat>)
    requires |w.ring| > 0 && Inv(w, others + Uses(ring)) && AllFit(w.mem, ring)
    ensures Inv(w.(ring := w.ring[1..]), others + Uses(ring + [w.ring[0]]))
    ensures AllFit(w.mem, ring + [w.ring[0]]) && AllFit(w.mem, w.ring[1..]) && Fits(w.mem, w.ring[0])
    ensures Content(w.mem, ring + [w.ring[0]]) == Content(w.mem, ring) + BytesOf(w.mem, w.ring[0])
    ensures Content(w.mem, w.ring) == BytesOf(w.mem, w.ring[0]) + Content(w.mem, w.ring[1..])
  {
    var e, rest := w.ring[0], w.ring[1..];
    assert Fits(w.mem, e) && AllFit(w.mem, rest);
    assert Content(w.mem, w.ring) == BytesOf(w.mem, e) + Content(w.mem, rest);
    NextIsUnused(w, others + Uses(ring));
    assert Uses(w.ring) == Use(e) + Uses(rest);
    assert e.kind != META ==> e.data in w.mem;
    assert forall id :: id in others + Uses(ring) ==> id in w.mem;
    assert forall id :: id in w.mem ==> id < w.next;
    UsesOne(e);
    UsesConcat(ring, [e]);
    ContentOne(w.mem, e);
    ContentConcat(w.mem, ring, [e]);
    UseInMem(w.mem, e);
    assert Uses(w.ring) + (others + Uses(ring)) == Uses(rest) + (others + Uses(ring + [e]));
    hide Uses, Fits, Exact, Content, BytesOf, Use;
    MakeInv(w.(ring := rest), others + Uses(ring + [e]));
  }

  lemma UseInMem(m: Mem, b: Bucket)
    requires Fits(m, b)
    ensures forall id :: id in Use(b) ==> id in m
  {
  }
}
