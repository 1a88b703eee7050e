/** Reading a bucket: storage that is not in memory is fetched, and the bucket changes its type for good. */
module BucketReads {
  import opened Basics
  import opened Buckets
  import opened BucketSteps

  /** How much of a file bucket one mapping covers. */
  function MapLength(e: Bucket): int {
    Min(e.length, MMAP_LIMIT)
  }

  /** file_make_mmap: mapping is allowed and long enough; a mapping succeeds only inside the file. */
  predicate Mappable(d: Data, e: Bucket) {
    && d.File? && d.canMmap && (e.length > MMAP_LIMIT || e.length >= MMAP_THRESHOLD)
    && 0 <= e.start && e.start + MapLength(e) <= |d.file|
  }

  /**
   The outcome of a system read of at most want bytes: some of those there are, or the end, or an error without
   bytes.
   */
  predicate SystemRead(avail: seq<Byte>, want: nat, st: Status, got: seq<Byte>) {
    match st
    case Success => got <= avail && |got| <= want && (|got| == 0 ==> want == 0)
    case Eof => got == [] && avail == [] && want > 0
    case Failed => got == []
    case _ => false
  }

  /** file_bucket_read */
  predicate FileRead(w: World, i: nat, w': World, st: Status, str: seq<Byte>)
    requires i < |w.ring| && Fits(w.mem, w.ring[i]) && w.ring[i].kind == FILE
  {
    var e, d := w.ring[i], w.mem[w.ring[i].data];
    || (Mappable(d, e) && st == Success && str == Clip(d.file, e.start, MapLength(e))
        && w' == HandOver(w, i, MapLength(e), MMAP, Mmap(1, str)))
    || (SystemRead(BytesOf(w.mem, e), Min(e.length, BUFF_SIZE), st, str)
        && w' == if st == Failed then w else HandOver(w, i, |str|, HEAP, Heap(1, str)))
  }

  /** pipe_bucket_read; the end of the pipe is a success for the caller. */
  predicate PipeRead(w: World, i: nat, w': World, st: Status, str: seq<Byte>)
    requires i < |w.ring| && Fits(w.mem, w.ring[i]) && w.ring[i].kind == PIPE
  {
    var e, rest := w.ring[i], w.mem[w.ring[i].data].rest;
    if st == Success then
      && SystemRead(rest, BUFF_SIZE, if |str| > 0 then Success else Eof, str)
      && w.next in w'.mem && (|str| > 0 ==> w'.mem[w.next].Heap?)
      && var buf := if |str| > 0 then w'.mem[w.next].base else [];
      && (|str| > 0 ==> |buf| == BUFF_SIZE && str <= buf) && w' == PipeTake(w, i, |str|, buf)
    else st == Failed && str == [] && w' == w
  }

  /** apr_bucket_read: what can happen, with the bytes it hands out. */
  predicate ReadStep(w: World, i: nat, w': World, st: Status, str: seq<Byte>)
    requires i < |w.ring| && Fits(w.mem, w.ring[i])
  {
    match w.ring[i].kind
    case FILE => FileRead(w, i, w', st, str)
    case PIPE => PipeRead(w, i, w', st, str)
    case POOL => st == Success && str == BytesOf(w.mem, w.ring[i]) && w' == PoolRead(w, i)
    case _ => st == Success && str == BytesOf(w.mem, w.ring[i]) && w' == w
  }

  // ---------- when a read can fail ----------

  /** Reading the bucket calls the system. */
  predicate FromSystem(b: Bucket) {
    b.kind == FILE || b.kind == PIPE
  }

  predicate NoSystem(ring: seq<Bucket>) {
    forall i :: 0 <= i < |ring| ==> !FromSystem(ring[i])
  }

  /** What a step brings in: no bucket that calls the system and no file that is too short, unless there was one. */
  predicate Settles(w: World, w': World) {
    (NoSystem(w.ring) ==> NoSystem(w'.ring)) && (AllSolid(w.mem, w.ring) ==> AllSolid(w'.mem, w'.ring))
  }

  /**
   Only a system read fails, and then nothing has changed; the end is met only by a file that is shorter than
   claimed.
   */
  lemma ReadStatus(w: World, i: nat, w': World, st: Status, str: seq<Byte>, outside: multiset<nat>)
    requires i < |w.ring| && Fits(w.mem, w.ring[i]) && ReadStep(w, i, w', st, str) && Keeps(w, w', outside)
    ensures st == Success || st == Failed || st == Eof
    ensures st == Failed ==> FromSystem(w.ring[i]) && w' == w
    ensures st == Eof ==> !AllSolid(w.mem, w.ring)
    ensures Settles(w, w')
  {
    if NoSystem(w.ring) {
      assert !FromSystem(w.ring[i]);
      if w.ring[i].kind == POOL {
        PutShape(w.ring, i, [w.ring[i].(kind := HEAP)]);
        KindsAfterPut(w.ring, i, w.ring[i].(kind := HEAP));
      }
    }
  }

  lemma KindsAfterPut(ring: seq<Bucket>, i: nat, b: Bucket)
    requires i < |ring| && NoSystem(ring) && !FromSystem(b)
    ensures NoSystem(Put(ring, i, [b]))
  {
    var r := Put(ring, i, [b]);
    assert forall j :: 0 <= j < |r| ==> r[j] == if j == i then b else ring[j];
  }

  lemma PrefixClip(s: seq<Byte>, start: nat, length: nat, got: seq<Byte>)
    requires got <= Clip(s, start, length)
    ensures |got| <= length && Clip(s, start, |got|) == got
  {
  }

  lemma FileReadKeeps(w: World, i: nat, w': World, st: Status, str: seq<Byte>, outside: multiset<nat>)
    requires Inv(w, outside) && i < |w.ring| && Fits(w.mem, w.ring[i]) && w.ring[i].kind == FILE
    requires FileRead(w, i, w', st, str)
    ensures Keeps(w, w', outside) && Spares(w.mem, w'.mem, Rest(w, i) + outside)
  {
    var e, d := w.ring[i], w.mem[w.ring[i].data];
    hide Keeps, HandOver, Inv, Spares;
    if st == Failed {
      KeepsItself(w, outside);
      SparesSelf(w.mem, Rest(w, i) + outside);
    } else if Mappable(d, e) && w' == HandOver(w, i, MapLength(e), MMAP, Mmap(1, str)) &&
      str == Clip(d.file, e.start, MapLength(e)) {
      HandOverKeeps(w, i, MapLength(e), MMAP, Mmap(1, str), str, outside);
    } else {
      PrefixClip(d.file, e.start, e.length, str);
      HandOverKeeps(w, i, |str|, HEAP, Heap(1, str), str, outside);
    }
  }

  lemma PipeReadKeeps(w: World, i: nat, w': World, st: Status, str: seq<Byte>, outside: multiset<nat>)
    requires Inv(w, outside) && i < |w.ring| && Fits(w.mem, w.ring[i]) && w.ring[i].kind == PIPE
    requires PipeRead(w, i, w', st, str)
    ensures Keeps(w, w', outside) && Spares(w.mem, w'.mem, Rest(w, i) + outside)
  {
    hide Keeps, PipeTake, Inv, Spares;
    if st == Failed {
      KeepsItself(w, outside);
      SparesSelf(w.mem, Rest(w, i) + outside);
    } else {
      var buf := if |str| > 0 then w'.mem[w.next].base else [];
      PipeTakeKeeps(w, i, |str|, buf, outside);
    }
  }

  /** Reading changes no bytes, neither of this ring nor of any other, and keeps every count exact. */
  lemma ReadKeeps(w: World, i: nat, w': World, st: Status, str: seq<Byte>, outside: multiset<nat>)
    requires Inv(w, outside) && i < |w.ring| && Fits(w.mem, w.ring[i]) && ReadStep(w, i, w', st, str)
    ensures Keeps(w, w', outside) && Spares(w.mem, w'.mem, Rest(w, i) + outside)
  {
    hide Keeps, FileRead, PipeRead, PoolRead, Inv, Fits, BytesOf, Spares;
    SparesSelf(w.mem, Rest(w, i) + outside);
    match w.ring[i].kind
    case FILE => FileReadKeeps(w, i, w', st, str, outside);
    case PIPE => PipeReadKeeps(w, i, w', st, str, outside);
    case POOL => PoolReadKeeps(w, i, outside);
    case _ => KeepsItself(w, outside);
  }

  // ---------- the bucket after a read ----------

  predicate InMemory(b: Bucket) {
    b.kind != FILE && b.kind != PIPE
  }

  /** How much fetching a bucket can still take. */
  function Weight(m: Mem, b: Bucket): nat {
    if b.kind == FILE && b.length > 0 then 1 + b.length
    else if b.kind == PIPE && b.data in m && m[b.data].Pipe? then 1 + |m[b.data].rest| else 1
  }

  /**
   After a read that did not fail, position i holds a bucket in memory with the bytes that were handed
   out, and what the old bucket still has to fetch stands behind it; the rest of the ring is the same.
   */
  predicate ReadShape(w: World, i: nat, w': World, st: Status, str: seq<Byte>)
    requires i < |w.ring|
  {
    && i < |w'.ring| && w'.ring[..i] == w.ring[..i]
    && (st == Failed ==> w' == w)
    && (st != Failed ==>
          && InMemory(w'.ring[i]) && Fits(w'.mem, w'.ring[i]) && BytesOf(w'.mem, w'.ring[i]) == str
          && w'.ring[i].length == |str| && (w'.ring[i].kind == META <==> w.ring[i].kind == META)
          && (w'.ring[i + 1..] == w.ring[i + 1..]
              || (i + 1 < |w'.ring| && w'.ring[i + 2..] == w.ring[i + 1..]
                  && Weight(w'.mem, w'.ring[i + 1]) < Weight(w.mem, w.ring[i]))))
  }

  lemma PutShape(ring: seq<Bucket>, i: nat, repl: seq<Bucket>)
    requires i < |ring| && |repl| > 0
    ensures var all := Put(ring, i, repl);
            && i < |all| && all[..i] == ring[..i] && all[i] == repl[0]
            && all[i + 1..] == repl[1..] + ring[i + 1..]
  {
  }

  lemma HandOverShape(w: World, i: nat, n: nat, kind: Kind, d: Data, text: seq<Byte>, st: Status)
    requires i < |w.ring| && Fits(w.mem, w.ring[i]) && w.ring[i].kind == FILE && w.next !in w.mem && st != Failed
    requires |text| == n <= w.ring[i].length
    requires (kind == HEAP && d == Heap(1, text)) || (kind == MMAP && d == Mmap(1, text))
    ensures ReadShape(w, i, HandOver(w, i, n, kind, d), st, text)
  {
    var e, w' := w.ring[i], HandOver(w, i, n, kind, d);
    var parts := Handed(w, e, n, kind);
    PutShape(w.ring, i, parts);
    assert Clip(text, 0, n) == text;
    assert Fits(w'.mem, parts[0]) && BytesOf(w'.mem, parts[0]) == text;
    hide HandOver, Fits, BytesOf, Put, Clip;
    if |parts| == 2 {
      assert w'.ring[i + 1..] == [parts[1]] + w.ring[i + 1..];
      assert w'.ring[i + 2..] == w'.ring[i + 1..][1..];
      assert Weight(w'.mem, w'.ring[i + 1]) < Weight(w.mem, e);
    } else {
      assert w'.ring[i + 1..] == w.ring[i + 1..];
    }
  }

  lemma FileReadShape(w: World, i: nat, w': World, st: Status, str: seq<Byte>)
    requires i < |w.ring| && Fits(w.mem, w.ring[i]) && w.ring[i].kind == FILE && FileRead(w, i, w', st, str)
    requires w.next !in w.mem
    ensures ReadShape(w, i, w', st, str)
  {
    hide HandOver;
    var e, d := w.ring[i], w.mem[w.ring[i].data];
    if st != Failed {
      if Mappable(d, e) && w' == HandOver(w, i, MapLength(e), MMAP, Mmap(1, str)) &&
        str == Clip(d.file, e.start, MapLength(e)) {
        HandOverShape(w, i, MapLength(e), MMAP, Mmap(1, str), str, st);
      } else {
        PrefixClip(d.file, e.start, e.length, str);
        HandOverShape(w, i, |str|, HEAP, Heap(1, str), str, st);
      }
    }
  }

  lemma PipeReadShape(w: World, i: nat, w': World, st: Status, str: seq<Byte>)
    requires i < |w.ring| && Fits(w.mem, w.ring[i]) && w.ring[i].kind == PIPE && PipeRead(w, i, w', st, str)
    requires w.next !in w.mem
    ensures ReadShape(w, i, w', st, str)
  {
    var e := w.ring[i];
    if st != Failed {
      var n := |str|;
      var buf := if n > 0 then w'.mem[w.next].base else [];
      var parts := PipeParts(w, e, n);
      PutShape(w.ring, i, parts);
      PipeFits(w, e, n, buf);
      if n > 0 {
        assert w'.ring[i + 1..] == [e] + w.ring[i + 1..];
        assert w'.ring[i + 2..] == w'.ring[i + 1..][1..];
        assert Weight(w'.mem, w'.ring[i + 1]) < Weight(w.mem, e);
      } else {
        assert w'.ring[i + 1..] == w.ring[i + 1..];
      }
    }
  }

  lemma ReadHasShape(w: World, i: nat, w': World, st: Status, str: seq<Byte>)
    requires i < |w.ring| && Fits(w.mem, w.ring[i]) && ReadStep(w, i, w', st, str) && w.next !in w.mem
    ensures ReadShape(w, i, w', st, str)
  {
    match w.ring[i].kind
    case FILE => FileReadShape(w, i, w', st, str);
    case PIPE => PipeReadShape(w, i, w', st, str);
    case POOL =>
      PutShape(w.ring, i, [w.ring[i].(kind := HEAP)]);
    case _ =>
  }
}
