/** Writing a vector of texts into a brigade, and inserting a file. */
module BrigadeBulk {
  import opened Basics
  import opened Buckets
  import opened BucketSteps
  import opened BucketLife
  import opened Brigades
  import opened BrigadeWrites

  type Text = seq<Byte>

  function Flat(vec: seq<Text>): Text {
    if |vec| == 0 then [] else Flat(vec[..|vec| - 1]) + vec[|vec| - 1]
  }

  lemma FlatStep(vec: seq<Text>, i: nat)
    requires i < |vec|
    ensures Flat(vec[..i + 1]) == Flat(vec[..i]) + vec[i]
  {
    assert vec[..i + 1][..i] == vec[..i];
  }

  /** The first i texts fit into the room, and no more do. */
  ghost predicate LongestRow(vec: seq<Text>, i: nat, room: int) {
    && i <= |vec| && |Flat(vec[..i])| <= room
    && (i < |vec| ==> room < |Flat(vec[..i + 1])|)
  }

  /** No other bucket holds any byte that a row of whole texts would take. */
  ghost predicate RowsClear(w: World, vec: seq<Text>, room: int) {
    forall i: nat :: i <= |vec| && |Flat(vec[..i])| <= room ==> Clear(w, |Flat(vec[..i])|)
  }

  /** More than a buffer is never written in place. */
  ghost predicate ClearFor(w: World, vec: seq<Text>, room: int) {
    |Flat(vec)| <= BUFF_SIZE ==> RowsClear(w, vec, room)
  }

  lemma ClearForSmall(w: World, vec: seq<Text>, room: int)
    requires ClearFor(w, vec, room) && |Flat(vec)| <= BUFF_SIZE
    ensures RowsClear(w, vec, room)
  {
  }

  lemma RowIsClear(w: World, vec: seq<Text>, room: int, i: nat)
    requires RowsClear(w, vec, room) && i <= |vec| && |Flat(vec[..i])| <= room
    ensures Clear(w, |Flat(vec[..i])|)
  {
    hide Clear;
  }

  lemma WholeRow(w: World, vec: seq<Text>, room: int)
    requires RowsClear(w, vec, room) && |Flat(vec)| <= room
    ensures Clear(w, |Flat(vec)|) && LongestRow(vec, |vec|, room)
  {
    assert vec[..|vec|] == vec;
    RowIsClear(w, vec, room, |vec|);
  }

  lemma LongestIs(vec: seq<Text>, i: nat, room: int)
    requires i <= |vec| && |Flat(vec[..i])| <= room && (i < |vec| ==> room < |Flat(vec[..i + 1])|)
    ensures LongestRow(vec, i, room)
  {
  }

  method TotalLength(vec: seq<Text>) returns (n: nat)
    ensures n == |Flat(vec)|
  {
    n := 0;
    for i := 0 to |vec|
      invariant n == |Flat(vec[..i])|
    {
      FlatStep(vec, i);
      n := n + |vec[i]|;
    }
    assert vec[..|vec|] == vec;
  }

  /** The texts from i on are copied one behind the other. */
  method GatherRest(vec: seq<Text>, i: nat) returns (text: Text)
    requires i <= |vec|
    ensures Flat(vec[..i]) + text == Flat(vec)
  {
    text := [];
    for j := i to |vec|
      invariant Flat(vec[..i]) + text == Flat(vec[..j])
    {
      FlatStep(vec, j);
      text := text + vec[j];
    }
    assert vec[..|vec|] == vec;
  }

  /** The first texts that fit are copied; the first that does not fit ends it. */
  method GatherFitting(vec: seq<Text>, room: nat) returns (i: nat, text: Text)
    ensures i <= |vec| && text == Flat(vec[..i]) && |text| <= room
    ensures i < |vec| ==> |Flat(vec[..i + 1])| > room
  {
    i, text := 0, [];
    assert Flat(vec[..0]) == [];
    var remaining := room;
    while i < |vec|
      invariant i <= |vec| && text == Flat(vec[..i]) && |text| + remaining == room && remaining >= 0
    {
      FlatStep(vec, i);
      if |vec[i]| > remaining {
        break;
      }
      text := text + vec[i];
      remaining := remaining - |vec[i]|;
      i := i + 1;
    }
  }

  /** Every text becomes a bucket of its own: a copy on the heap, or the text itself. */
  method InsertAll(b: Brigade, vec: seq<Text>, copy: bool, ghost outside: multiset<nat>)
    requires Inv(b.Now(), outside) && |vec| > 0
    modifies b, b.storage
    ensures Inv(b.Now(), outside) && Spares(old(b.storage.mem), b.storage.mem, outside) && Unshared(b.Now())
    ensures AllFit(old(b.storage.mem), old(b.ring)) && AllFit(b.storage.mem, b.ring)
    ensures Content(b.storage.mem, b.ring) == Content(old(b.storage.mem), old(b.ring)) + Flat(vec)
  {
    InvFits(b.Now(), outside);
    SparesSelf(b.storage.mem, outside);
    ghost var content := Content(b.storage.mem, b.ring);
    assert Flat(vec[..0]) == [];
    hide *;
    for i := 0 to |vec|
      invariant Inv(b.Now(), outside) && Spares(old(b.storage.mem), b.storage.mem, outside)
      invariant i > 0 ==> Unshared(b.Now())
      invariant AllFit(b.storage.mem, b.ring) && Content(b.storage.mem, b.ring) == content + Flat(vec[..i])
    {
      ghost var m := b.storage.mem;
      if copy {
        InsertTail(b, HEAP, Heap(1, vec[i]), |vec[i]|, outside);
      } else {
        InsertTail(b, MEMORY, Memory(vec[i]), |vec[i]|, outside);
      }
      assert vec[i][..|vec[i]|] == vec[i];
      SparesTwice(old(b.storage.mem), m, b.storage.mem, outside);
      FlatStep(vec, i);
      Joined(content, Flat(vec[..i]), vec[i]);
    }
    assert vec[..|vec|] == vec;
  }

  /**
   apr_brigade_writev: what the flush has taken, followed by what is in the brigade, grows by the first k texts.
   These are all of them, unless a flush in between fails. No other bucket of the brigade may hold any of the bytes
   that are written in place, which are the longest row of whole texts that fits. The flush is called once, when not all
   texts fit: with everything when that is more than a buffer, and otherwise when the row has been written.
   */
  method Writev(b: Brigade, vec: seq<Text>, flush: Flusher?, ghost outside: multiset<nat>)
    returns (st: Status, ghost k: nat, ghost row: nat)
    requires Inv(b.Now(), outside) && ClearFor(b.Now(), vec, Remaining(b.Now()))
    modifies b, b.storage, flush
    ensures row <= |vec| && Inv(b.Now(), outside)
    ensures Leaves(old(b.Now()), |Flat(vec[..row])|, b.storage.mem, outside)
    ensures if |Flat(vec)| <= BUFF_SIZE && old(|b.ring| > 0 && b.ring[|b.ring| - 1].kind == HEAP)
            then LongestRow(vec, row, Remaining(old(b.Now()))) else row == 0
    ensures CallsOf(flush) == old(CallsOf(flush)) +
              if flush == null || |Flat(vec)| <= Min(BUFF_SIZE, Remaining(old(b.Now()))) then []
              else [Call(Content(old(b.storage.mem), old(b.ring)) +
                         (if |Flat(vec)| > BUFF_SIZE then Flat(vec) else Flat(vec[..row])), st)]
    ensures AllFit(old(b.storage.mem), old(b.ring)) && AllFit(b.storage.mem, b.ring) && k <= |vec|
    ensures SentBy(flush) + Content(b.storage.mem, b.ring)
            == old(SentBy(flush)) + Content(old(b.storage.mem), old(b.ring)) + Flat(vec[..k])
    ensures k == |vec| || (flush != null && st != Success)
    ensures k < |vec| ==> |Flat(vec[..k])| <= Remaining(old(b.Now())) < |Flat(vec[..k + 1])|
    ensures flush == null || |Flat(vec)| <= Min(BUFF_SIZE, Remaining(old(b.Now()))) ==>
              && st == Success && SentBy(flush) == old(SentBy(flush))
              && StaysClear(old(b.Now()), |Flat(vec[..row])|, b.Now())
  {
    var total := TotalLength(vec);
    assert vec[..|vec|] == vec;
    InvFits(b.Now(), outside);
    assert Flat(vec[..0]) == [];
    TailTells(b, total, outside);
    hide *;
    ghost var w := b.Now();
    NowIs(b);
    k, row := |vec|, 0;
    if total > BUFF_SIZE {
      st := WritevLarge(b, vec, flush, outside);
      LeavesSpares(w, 0, b.storage.mem, outside);
      if flush == null {
        AlwaysClear(w, 0, b.Now(), outside);
      }
      return;
    }
    if |b.ring| > 0 && b.ring[|b.ring| - 1].kind == HEAP {
      var remaining := TailRoom(b, outside);
      ClearForSmall(w, vec, remaining);
      st, k, row := WritevBehind(b, vec, total, remaining, flush, outside);
      return;
    }
    WritevNew(b, vec, flush, outside);
    LeavesSpares(w, 0, b.storage.mem, outside);
    AlwaysClear(w, 0, b.Now(), outside);
    st := Success;
  }

  /** Without a heap bucket at the tail, what a write finds is a new buffer. */
  lemma TailTells(b: Brigade, n: int, outside: multiset<nat>)
    requires Inv(b.Now(), outside)
    ensures !(|b.ring| > 0 && b.ring[|b.ring| - 1].kind == HEAP) ==> Remaining(b.Now()) == BUFF_SIZE
    ensures Min(BUFF_SIZE, Remaining(b.Now())) <= BUFF_SIZE && Min(BUFF_SIZE, Remaining(b.Now())) <= Remaining(b.Now())
    ensures n <= BUFF_SIZE && n <= Remaining(b.Now()) ==> n <= Min(BUFF_SIZE, Remaining(b.Now()))
  {
  }

  method WritevNew(b: Brigade, vec: seq<Text>, ghost flush: Flusher?, ghost outside: multiset<nat>)
    requires Inv(b.Now(), outside) && |Flat(vec)| <= BUFF_SIZE
    modifies b, b.storage
    ensures Inv(b.Now(), outside) && Spares(old(b.storage.mem), b.storage.mem, outside) && Unshared(b.Now())
    ensures AllFit(old(b.storage.mem), old(b.ring)) && AllFit(b.storage.mem, b.ring)
    ensures SentBy(flush) == old(SentBy(flush)) && CallsOf(flush) == old(CallsOf(flush))
    ensures SentBy(flush) + Content(b.storage.mem, b.ring)
            == old(SentBy(flush)) + Content(old(b.storage.mem), old(b.ring)) + Flat(vec)
  {
    InvFits(b.Now(), outside);
    assert Flat(vec[..0]) == [];
    hide *;
    ghost var sent, content := SentBy(flush), Content(b.storage.mem, b.ring);
    SentSame(flush);
    var rest := NewBuffer(b, vec, 0, outside);
    assert rest == Flat(vec[..0]) + rest;
    SentSame(flush);
    Joined(sent, content, Flat(vec));
  }

  /** The texts from i on, at most a buffer full, go into a new buffer. */
  method NewBuffer(b: Brigade, vec: seq<Text>, i: nat, ghost outside: multiset<nat>) returns (rest: Text)
    requires Inv(b.Now(), outside) && i <= |vec| && |Flat(vec)| <= BUFF_SIZE
    modifies b, b.storage
    ensures Inv(b.Now(), outside) && Spares(old(b.storage.mem), b.storage.mem, outside) && Unshared(b.Now())
    ensures AllFit(old(b.storage.mem), old(b.ring)) && AllFit(b.storage.mem, b.ring)
    ensures Flat(vec[..i]) + rest == Flat(vec)
    ensures Content(b.storage.mem, b.ring) == Content(old(b.storage.mem), old(b.ring)) + rest
  {
    hide *;
    rest := GatherRest(vec, i);
    var buf := FilledBuffer(BUFF_SIZE, rest);
    InsertTail(b, HEAP, Heap(1, buf), |rest|, outside);
    assert buf[..|rest|] == rest;
  }

  method WritevLarge(b: Brigade, vec: seq<Text>, flush: Flusher?, ghost outside: multiset<nat>) returns (st: Status)
    requires Inv(b.Now(), outside) && |Flat(vec)| > 0
    modifies b, b.storage, flush
    ensures Inv(b.Now(), outside) && Spares(old(b.storage.mem), b.storage.mem, outside)
    ensures AllFit(old(b.storage.mem), old(b.ring)) && AllFit(b.storage.mem, b.ring)
    ensures SentBy(flush) + Content(b.storage.mem, b.ring)
            == old(SentBy(flush)) + Content(old(b.storage.mem), old(b.ring)) + Flat(vec)
    ensures flush == null ==> st == Success && Unshared(b.Now())
    ensures CallsOf(flush) == old(CallsOf(flush)) +
              if flush == null then [] else [Call(Content(old(b.storage.mem), old(b.ring)) + Flat(vec), st)]
  {
    InvFits(b.Now(), outside);
    assert |vec| > 0;
    hide *;
    ghost var sent, content, m0 := SentBy(flush), Content(b.storage.mem, b.ring), b.storage.mem;
    InsertAll(b, vec, flush == null, outside);
    SentSame(flush);
    Joined(sent, content, Flat(vec));
    st := Success;
    if flush != null {
      ghost var m := b.storage.mem;
      st := flush.Flush(b, outside);
      SparesTwice(m0, m, b.storage.mem, outside);
      SentSame(flush);
    }
  }

  /** The last bucket is a heap bucket: it takes what fits, and a new buffer takes the rest after a flush. */
  method WritevBehind(b: Brigade, vec: seq<Text>, total: nat, remaining: nat, flush: Flusher?,
                      ghost outside: multiset<nat>)
    returns (st: Status, ghost k: nat, ghost row: nat)
    requires Inv(b.Now(), outside) && RowsClear(b.Now(), vec, remaining) && total == |Flat(vec)| <= BUFF_SIZE
    requires forall n: nat :: n <= remaining ==> HasRoom(b.Now(), n)
    modifies b, b.storage, flush
    ensures row <= |vec| && Inv(b.Now(), outside)
    ensures Leaves(old(b.Now()), |Flat(vec[..row])|, b.storage.mem, outside) && LongestRow(vec, row, remaining)
    ensures CallsOf(flush) == old(CallsOf(flush)) +
              if flush == null || total <= remaining then []
              else [Call(Content(old(b.storage.mem), old(b.ring)) + Flat(vec[..row]), st)]
    ensures AllFit(old(b.storage.mem), old(b.ring)) && AllFit(b.storage.mem, b.ring) && k <= |vec|
    ensures SentBy(flush) + Content(b.storage.mem, b.ring)
            == old(SentBy(flush)) + Content(old(b.storage.mem), old(b.ring)) + Flat(vec[..k])
    ensures k == |vec| || (flush != null && st != Success)
    ensures k < |vec| ==> |Flat(vec[..k])| <= remaining < |Flat(vec[..k + 1])|
    ensures flush == null || total <= remaining ==>
              && st == Success && SentBy(flush) == old(SentBy(flush))
              && StaysClear(old(b.Now()), |Flat(vec[..row])|, b.Now())
  {
    InvFits(b.Now(), outside);
    assert Flat(vec[..0]) == [];
    hide *;
    ghost var sent, content := SentBy(flush), Content(b.storage.mem, b.ring);
    k, st := |vec|, Success;
    assert vec[..|vec|] == vec;
    if remaining >= total {
      var text := GatherRest(vec, 0);
      assert text == Flat(vec);
      row := |vec|;
      WholeRow(b.Now(), vec, remaining);
      AppendText(b, text, outside);
      SentSame(flush);
      Joined(sent, content, text);
    } else {
      OutputIs(b, flush, outside);
      st, k, row := WritevOver(b, vec, remaining, flush, outside);
      OutputIs(b, flush, outside);
    }
  }

  /** What the flush has taken, and what is in the brigade. */
  ghost function Output(b: Brigade, flush: Flusher?): Text
    requires AllFit(b.storage.mem, b.ring)
    reads b, b.storage, flush
  {
    SentBy(flush) + Content(b.storage.mem, b.ring)
  }

  method WritevOver(b: Brigade, vec: seq<Text>, remaining: nat, flush: Flusher?, ghost outside: multiset<nat>)
    returns (st: Status, ghost k: nat, ghost row: nat)
    requires Inv(b.Now(), outside) && RowsClear(b.Now(), vec, remaining) && remaining < |Flat(vec)| <= BUFF_SIZE
    requires forall n: nat :: n <= remaining ==> HasRoom(b.Now(), n)
    modifies b, b.storage, flush
    ensures row <= |vec| && Inv(b.Now(), outside)
    ensures Leaves(old(b.Now()), |Flat(vec[..row])|, b.storage.mem, outside) && LongestRow(vec, row, remaining)
    ensures CallsOf(flush) == old(CallsOf(flush)) +
              if flush == null then [] else [Call(old(Content(b.storage.mem, b.ring)) + Flat(vec[..row]), st)]
    ensures old(AllFit(b.storage.mem, b.ring)) && AllFit(b.storage.mem, b.ring) && k <= |vec|
    ensures Output(b, flush) == old(Output(b, flush)) + Flat(vec[..k])
    ensures if k < |vec| then flush != null && st != Success && |Flat(vec[..k])| <= remaining < |Flat(vec[..k + 1])|
            else k == |vec|
    ensures flush == null ==> st == Success && StaysClear(old(b.Now()), |Flat(vec[..row])|, b.Now())
  {
    InvFits(b.Now(), outside);
    assert vec[..|vec|] == vec;
    hide *;
    ghost var before, w := Output(b, flush), b.Now();
    var i, text := GatherFitting(vec, remaining);
    row := i;
    LongestIs(vec, i, remaining);
    RowIsClear(w, vec, remaining, i);
    AppendOut(b, text, flush, outside);
    ghost var m1 := b.storage.mem;
    st := FlushIfAny(b, flush, outside);
    ghost var m2 := b.storage.mem;
    LeavesThenSpares(w, |text|, m1, m2, outside);
    k := i;
    if st == Success {
      k := |vec|;
      var rest := BufferOut(b, vec, i, flush, outside);
      LeavesThenSpares(w, |text|, m2, b.storage.mem, outside);
      AlwaysClear(w, |text|, b.Now(), outside);
      Joined(before, text, rest);
    }
  }

  method AppendOut(b: Brigade, text: Text, ghost flush: Flusher?, ghost outside: multiset<nat>)
    requires Inv(b.Now(), outside) && HasRoom(b.Now(), |text|) && Clear(b.Now(), |text|)
    modifies b, b.storage
    ensures Inv(b.Now(), outside) && Leaves(old(b.Now()), |text|, b.storage.mem, outside)
    ensures old(AllFit(b.storage.mem, b.ring)) && AllFit(b.storage.mem, b.ring)
    ensures Output(b, flush) == old(Output(b, flush)) + text && CallsOf(flush) == old(CallsOf(flush))
    ensures Content(b.storage.mem, b.ring) == old(Content(b.storage.mem, b.ring)) + text
  {
    hide *;
    OutputIs(b, flush, outside);
    ghost var sent, content := SentBy(flush), Content(b.storage.mem, b.ring);
    AppendText(b, text, outside);
    OutputIs(b, flush, outside);
    Joined(sent, content, text);
  }

  method BufferOut(b: Brigade, vec: seq<Text>, i: nat, ghost flush: Flusher?, ghost outside: multiset<nat>)
    returns (rest: Text)
    requires Inv(b.Now(), outside) && i <= |vec| && |Flat(vec)| <= BUFF_SIZE
    modifies b, b.storage
    ensures Inv(b.Now(), outside) && Spares(old(b.storage.mem), b.storage.mem, outside) && Unshared(b.Now())
    ensures old(AllFit(b.storage.mem, b.ring)) && AllFit(b.storage.mem, b.ring)
    ensures Flat(vec[..i]) + rest == Flat(vec) && Output(b, flush) == old(Output(b, flush)) + rest
    ensures CallsOf(flush) == old(CallsOf(flush))
  {
    hide *;
    OutputIs(b, flush, outside);
    ghost var sent, content := SentBy(flush), Content(b.storage.mem, b.ring);
    rest := NewBuffer(b, vec, i, outside);
    OutputIs(b, flush, outside);
    Joined(sent, content, rest);
  }

  lemma OutputIs(b: Brigade, flush: Flusher?, outside: multiset<nat>)
    requires Inv(b.Now(), outside)
    ensures AllFit(b.storage.mem, b.ring) && Output(b, flush) == SentBy(flush) + Content(b.storage.mem, b.ring)
    ensures SentBy(flush) == if flush == null then [] else flush.sent
    ensures CallsOf(flush) == if flush == null then [] else flush.calls
  {
  }

  method FlushIfAny(b: Brigade, flush: Flusher?, ghost outside: multiset<nat>) returns (st: Status)
    requires Inv(b.Now(), outside)
    modifies b, b.storage, flush
    ensures Inv(b.Now(), outside) && Spares(old(b.storage.mem), b.storage.mem, outside)
    ensures old(AllFit(b.storage.mem, b.ring)) && AllFit(b.storage.mem, b.ring)
    ensures Output(b, flush) == old(Output(b, flush))
    ensures flush == null ==> st == Success
    ensures CallsOf(flush) == old(CallsOf(flush)) +
              if flush == null then [] else [Call(old(Content(b.storage.mem, b.ring)), st)]
  {
    hide *;
    OutputIs(b, flush, outside);
    SparesSelf(b.storage.mem, outside);
    st := Success;
    if flush != null {
      st := flush.Flush(b, outside);
      OutputIs(b, flush, outside);
    }
  }

  // ---------- files ----------

  /** A bucket that stands in no ring yet is linked in at the tail. */
  lemma LinkKeeps(w: World, e: Bucket, outside: multiset<nat>)
    requires e.kind != META && Inv(w, outside + multiset{e.data}) && Fits(w.mem, e)
    ensures Inv(w.(ring := w.ring + [e]), outside) && AllFit(w.mem, w.ring)
    ensures Content(w.mem, w.ring + [e]) == Content(w.mem, w.ring) + BytesOf(w.mem, e)
  {
    NextIsUnused(w, outside + multiset{e.data});
    assert forall id :: id in outside ==> id in outside + multiset{e.data};
    assert forall id :: id in w.mem ==> id < w.next;
    assert Use(e) == multiset{e.data};
    hide *;
    UsesOne(e);
    UsesConcat(w.ring, [e]);
    ContentOne(w.mem, e);
    ContentConcat(w.mem, w.ring, [e]);
    Regroup(Uses(w.ring), outside, multiset{e.data});
    MakeInv(w.(ring := w.ring + [e]), outside);
  }

  lemma Regroup(a: multiset<nat>, b: multiset<nat>, c: multiset<nat>)
    ensures a + (b + c) == (a + c) + b && (a + b) + c == a + (b + c)
  {
  }

  /** One more pointer, held outside the ring. */
  lemma ShareKeeps(w: World, id: nat, outside: multiset<nat>)
    requires Inv(w, outside) && id in w.mem && Counted(w.mem[id])
    ensures Inv(w.(mem := Adjust(w.mem, id, 1)), outside + multiset{id})
    ensures Spares(w.mem, Adjust(w.mem, id, 1), outside)
    ensures AllFit(w.mem, w.ring) && Content(Adjust(w.mem, id, 1), w.ring) == Content(w.mem, w.ring)
    ensures forall b: Bucket :: Fits(w.mem, b) ==>
              Fits(Adjust(w.mem, id, 1), b) && BytesOf(Adjust(w.mem, id, 1), b) == BytesOf(w.mem, b)
  {
    var m, ids := Adjust(w.mem, id, 1), Uses(w.ring) + outside;
    NextIsUnused(w, outside);
    AdjustUp(w.mem, id, ids);
    SparesAlike(w.mem, m, ids);
    assert forall k :: k in outside + multiset{id} ==> k in m;
    assert forall k :: k in m.Keys <==> k in m;
    assert forall k :: k in m ==> k < w.next;
    forall b: Bucket | Fits(w.mem, b)
      ensures Fits(m, b) && BytesOf(m, b) == BytesOf(w.mem, b)
    {
      SparesAlike(w.mem, m, multiset{b.data});
      SparedBucket(w.mem, m, multiset{b.data}, b);
    }
    hide *;
    SparesFewer(w.mem, m, ids, outside);
    SparedRing(w.mem, m, ids, w.ring);
    Regroup(Uses(w.ring), outside, multiset{id});
    MakeInv(w.(mem := m), outside + multiset{id});
  }

  /** The ring is an earlier one and then pieces of the structure id, one behind the other and none too large. */
  predicate Pieces(before: seq<Bucket>, ring: seq<Bucket>, id: nat, start: int, single: bool) {
    && before <= ring
    && forall i :: |before| <= i < |ring| ==>
         && ring[i].kind == FILE && ring[i].data == id && ring[i].start == start + (i - |before|) * MAX_BUCKET_SIZE
         && (single || ring[i].length <= MAX_BUCKET_SIZE)
  }

  /** A loose file bucket beside the brigade, counted outside it. */
  ghost predicate FilePart(b: Brigade, e: Bucket, file: Text, outside: multiset<nat>)
    reads b, b.storage
  {
    && Inv(b.Now(), outside + multiset{e.data}) && AllFit(b.storage.mem, b.ring)
    && e.kind == FILE && e.start >= 0 && e.length >= 0
    && e.data in b.storage.mem && b.storage.mem[e.data].File? && b.storage.mem[e.data].file == file
  }

  method NewFile(b: Brigade, file: Text, start: nat, length: nat, ghost outside: multiset<nat>) returns (e: Bucket)
    requires Inv(b.Now(), outside)
    modifies b.storage
    ensures e == Bucket(FILE, old(b.storage.next), start, length) && FilePart(b, e, file, outside) &&
            b.ring == old(b.ring)
    ensures Spares(old(b.storage.mem), b.storage.mem, outside) && AllFit(old(b.storage.mem), b.ring)
    ensures Content(b.storage.mem, b.ring) == Content(old(b.storage.mem), b.ring)
  {
    ghost var w, ids := b.Now(), Uses(b.ring) + outside;
    NextIsUnused(w, outside);
    NewFileFacts(w, file, outside);
    var id := b.storage.Allocate(File(1, file, true));
    e := Bucket(FILE, id, start, length);
    assert FilePart(b, e, file, outside);
  }

  lemma FreshKeys(w: World, m: Mem, outside: multiset<nat>)
    requires Inv(w, outside) && m.Keys == w.mem.Keys + {w.next}
    ensures forall k :: k in outside + multiset{w.next} ==> k in m
    ensures forall k :: k in m ==> k < w.next + 1
  {
    hide Exact, AllFit;
    assert forall k :: k in m ==> k in m.Keys;
  }

  lemma AlikeSelf(m: Mem, ids: multiset<nat>)
    ensures forall id :: id in ids && id in m ==> id in m && Alike(m[id], m[id])
  {
  }

  lemma NewFileFacts(w: World, file: Text, outside: multiset<nat>)
    requires Inv(w, outside)
    ensures AllFit(w.mem, w.ring)
    ensures var w' := World(w.mem[w.next := File(1, file, true)], w.next + 1, w.ring);
            && Inv(w', outside + multiset{w.next}) && Spares(w.mem, w'.mem, outside) && AllFit(w'.mem, w.ring)
            && Content(w'.mem, w.ring) == Content(w.mem, w.ring)
  {
    assert Counted(File(1, file, true));
    hide *;
    var m, ids := w.mem[w.next := File(1, file, true)], Uses(w.ring) + outside;
    NextIsUnused(w, outside);
    AlikeSelf(w.mem, ids);
    AlikeFresh(w.mem, w.mem, w.next, File(1, file, true), ids);
    AddFresh(w.mem, w.next, File(1, file, true), ids);
    SparesAlike(w.mem, m, ids);
    FreshKeys(w, m, outside);
    SparesFewer(w.mem, m, ids, outside);
    SparedRing(w.mem, m, ids, w.ring);
    Regroup(Uses(w.ring), outside, multiset{w.next});
    MakeInv(World(m, w.next + 1, w.ring), outside + multiset{w.next});
  }

  /** The loose bucket goes to the tail. */
  method InsertLoose(b: Brigade, e: Bucket, ghost file: Text, ghost outside: multiset<nat>)
    requires FilePart(b, e, file, outside)
    modifies b
    ensures Inv(b.Now(), outside) && b.ring == old(b.ring) + [e] && AllFit(b.storage.mem, b.ring)
    ensures Content(b.storage.mem, b.ring) == old(Content(b.storage.mem, b.ring)) + Clip(file, e.start, e.length)
  {
    LinkKeeps(b.Now(), e, outside);
    InvFits(b.Now().(ring := b.ring + [e]), outside);
    assert BytesOf(b.storage.mem, e) == Clip(file, e.start, e.length);
    hide *;
    b.ring := b.ring + [e];
    NowIs(b);
  }

  /** A copy of the loose bucket goes to the tail, and the bucket moves on. */
  method InsertCopy(b: Brigade, e: Bucket, ghost file: Text, ghost outside: multiset<nat>) returns (on: Bucket)
    requires FilePart(b, e, file, outside)
    modifies b, b.storage
    ensures on == e.(start := e.start + MAX_BUCKET_SIZE) && FilePart(b, on, file, outside) &&
            b.ring == old(b.ring) + [e]
    ensures Spares(old(b.storage.mem), b.storage.mem, outside) && b.storage.next == old(b.storage.next)
    ensures AllFit(old(b.storage.mem), old(b.ring))
    ensures Content(b.storage.mem, b.ring) == Content(old(b.storage.mem), old(b.ring)) + Clip(file, e.start, e.length)
  {
    ghost var w, more := b.Now(), outside + multiset{e.data};
    ShareKeeps(w, e.data, more);
    OwnOutside(w, e.data, more);
    b.storage.Share(e.data);
    Regroup(outside, multiset{e.data}, multiset{e.data});
    SparesFewer(w.mem, b.storage.mem, more, outside);
    assert FilePart(b, e, file, more) by {
      InvFits(b.Now(), more + multiset{e.data});
    }
    hide Inv, Spares, Content, Fits;
    InsertLoose(b, e, file, more);
    on := e.(start := e.start + MAX_BUCKET_SIZE);
  }

  lemma OwnOutside(w: World, id: nat, outside: multiset<nat>)
    requires Inv(w, outside) && id in w.mem && Counted(w.mem[id])
    ensures w.mem[id].refs > 0
  {
    assert Balanced(w.mem[id], (Uses(w.ring) + outside)[id]);
  }

  lemma PiecesGrow(before: seq<Bucket>, ring: seq<Bucket>, e: Bucket, start: int, single: bool)
    requires Pieces(before, ring, e.data, start, single) && e.kind == FILE
    requires e.start == start + (|ring| - |before|) * MAX_BUCKET_SIZE && (single || e.length <= MAX_BUCKET_SIZE)
    ensures Pieces(before, ring + [e], e.data, start, single)
  {
  }

  /** Full pieces of `done` bytes stand behind the earlier ring, and the loose bucket comes next. */
  ghost predicate Piecewise(b: Brigade, e: Bucket, file: Text, m0: Mem, before: seq<Bucket>, start: nat, done: nat,
                            outside: multiset<nat>)
    reads b, b.storage
  {
    && FilePart(b, e, file, outside) && e.length == MAX_BUCKET_SIZE && e.start == start + done
    && Pieces(before, b.ring, e.data, start, false) && done == (|b.ring| - |before|) * MAX_BUCKET_SIZE
    && Spares(m0, b.storage.mem, outside) && AllFit(m0, before)
    && Content(b.storage.mem, b.ring) == Content(m0, before) + Clip(file, start, done)
  }

  method InsertPiece(b: Brigade, e: Bucket, ghost file: Text, ghost m0: Mem, ghost before: seq<Bucket>,
                     ghost start: nat,
                     ghost done: nat, ghost outside: multiset<nat>) returns (on: Bucket)
    requires Piecewise(b, e, file, m0, before, start, done, outside)
    modifies b, b.storage
    ensures Piecewise(b, on, file, m0, before, start, done + MAX_BUCKET_SIZE, outside) && on.data == e.data
  {
    PartFits(b, e, file, outside);
    hide FilePart, Spares, AllFit, Content, Clip, Pieces, Inv, Fits, BytesOf, Exact, Uses;
    ghost var m, content := b.storage.mem, Content(m0, before);
    PiecesGrow(before, b.ring, e, start, false);
    ClipGrows(file, start, done, content);
    on := InsertCopy(b, e, file, outside);
    SparesTwice(m0, m, b.storage.mem, outside);
    PartFits(b, on, file, outside);
  }

  /** The loop: full pieces go in as long as more than one is left. */
  method InsertPieces(b: Brigade, e0: Bucket, ghost file: Text, length: nat, ghost outside: multiset<nat>)
    returns (e: Bucket, ghost done: nat)
    requires FilePart(b, e0, file, outside) && e0.length == MAX_BUCKET_SIZE <= length
    modifies b, b.storage
    ensures FilePart(b, e, file, outside) && e.data == e0.data && done == (|b.ring| - |old(b.ring)|) * MAX_BUCKET_SIZE
    ensures e.start == e0.start + done && e.length + done == length && 0 < e.length <= MAX_BUCKET_SIZE
    ensures Pieces(old(b.ring), b.ring, e.data, e0.start, false)
    ensures Spares(old(b.storage.mem), b.storage.mem, outside) && AllFit(old(b.storage.mem), old(b.ring))
    ensures Content(b.storage.mem, b.ring) == Content(old(b.storage.mem), old(b.ring)) + Clip(file, e0.start, done)
  {
    ghost var m0, before := b.storage.mem, b.ring;
    var left := length;
    e, done := e0, 0;
    SparesSelf(m0, outside);
    assert Clip(file, e0.start, 0) == [];
    assert Piecewise(b, e, file, m0, before, e0.start, 0, outside);
    hide FilePart, Spares, AllFit, Content, Clip, Pieces, Piecewise;
    while left > MAX_BUCKET_SIZE
      invariant Piecewise(b, e, file, m0, before, e0.start, done, outside)
      invariant e.data == e0.data && left + done == length && left > 0
    {
      e := InsertPiece(b, e, file, m0, before, e0.start, done, outside);
      left, done := left - MAX_BUCKET_SIZE, done + MAX_BUCKET_SIZE;
    }
    PiecewiseParts(b, e, file, m0, before, e0.start, done, outside);
    SameData(b, e, e.(length := left), file, outside);
    e := e.(length := left);
  }

  lemma PiecewiseParts(b: Brigade, e: Bucket, file: Text, m0: Mem, before: seq<Bucket>, start: nat, done: nat,
                       outside: multiset<nat>)
    requires Piecewise(b, e, file, m0, before, start, done, outside)
    ensures FilePart(b, e, file, outside) && e.length == MAX_BUCKET_SIZE && e.start == start + done && e.kind == FILE
    ensures Pieces(before, b.ring, e.data, start, false) && done == (|b.ring| - |before|) * MAX_BUCKET_SIZE
    ensures Spares(m0, b.storage.mem, outside) && AllFit(m0, before) && AllFit(b.storage.mem, b.ring)
    ensures Content(b.storage.mem, b.ring) == Content(m0, before) + Clip(file, start, done)
  {
  }

  lemma PartFits(b: Brigade, e: Bucket, file: Text, outside: multiset<nat>)
    requires FilePart(b, e, file, outside)
    ensures AllFit(b.storage.mem, b.ring) && e.kind == FILE && e.start >= 0
  {
  }

  lemma SameData(b: Brigade, e: Bucket, e': Bucket, file: Text, outside: multiset<nat>)
    requires FilePart(b, e, file, outside) && e'.data == e.data && e'.kind == FILE && e'.start >= 0 && e'.length >= 0
    ensures FilePart(b, e', file, outside)
  {
  }

  lemma ClipGrows(file: Text, start: nat, done: nat, content: Text)
    ensures content + Clip(file, start, done) + Clip(file, start + done, MAX_BUCKET_SIZE)
            == content + Clip(file, start, done + MAX_BUCKET_SIZE)
  {
    ClipSplits(file, start, done + MAX_BUCKET_SIZE, done);
  }

  method InsertLarge(b: Brigade, file: Text, start: nat, length: nat, ghost outside: multiset<nat>)
    requires Inv(b.Now(), outside) && length >= MAX_BUCKET_SIZE
    modifies b, b.storage
    ensures Inv(b.Now(), outside) && Spares(old(b.storage.mem), b.storage.mem, outside)
    ensures AllFit(old(b.storage.mem), old(b.ring)) && AllFit(b.storage.mem, b.ring)
    ensures Content(b.storage.mem, b.ring) == Content(old(b.storage.mem), old(b.ring)) + Clip(file, start, length)
    ensures Pieces(old(b.ring), b.ring, old(b.storage.next), start, false)
    ensures (|b.ring| - |old(b.ring)| - 1) * MAX_BUCKET_SIZE < length <= (|b.ring| - |old(b.ring)|) * MAX_BUCKET_SIZE
  {
    hide *;
    ghost var m0, before, done := b.storage.mem, b.ring, 0;
    var e := NewFile(b, file, start, MAX_BUCKET_SIZE, outside);
    ghost var content, m1 := Content(m0, before), b.storage.mem;
    e, done := InsertPieces(b, e, file, length, outside);
    SparesTwice(m0, m1, b.storage.mem, outside);
    PartFits(b, e, file, outside);
    PiecesGrow(before, b.ring, e, start, false);
    InsertLoose(b, e, file, outside);
    ClipSplits(file, start, length, done);
    Joined(content, Clip(file, start, done), Clip(file, e.start, e.length));
  }

  /**
   apr_brigade_insert_file: the range of the file goes to the tail, in one bucket if its length fits the length
   field (when offsets are as wide as sizes, or it is small), and otherwise in as few as possible.
   */
  method InsertFile(b: Brigade, file: Text, start: nat, length: nat, wide: bool, ghost outside: multiset<nat>)
    requires Inv(b.Now(), outside)
    modifies b, b.storage
    ensures Inv(b.Now(), outside) && Spares(old(b.storage.mem), b.storage.mem, outside)
    ensures AllFit(old(b.storage.mem), old(b.ring)) && AllFit(b.storage.mem, b.ring)
    ensures Content(b.storage.mem, b.ring) == Content(old(b.storage.mem), old(b.ring)) + Clip(file, start, length)
    ensures |old(b.ring)| < |b.ring|
    ensures Pieces(old(b.ring), b.ring, old(b.storage.next), start, wide)
    ensures wide || length < MAX_BUCKET_SIZE ==> |b.ring| == |old(b.ring)| + 1
    ensures !wide ==>
              (|b.ring| - |old(b.ring)| - 1) * MAX_BUCKET_SIZE <= length <= (|b.ring| - |old(b.ring)|) * MAX_BUCKET_SIZE
  {
    hide *;
    ghost var before := b.ring;
    if !wide && length >= MAX_BUCKET_SIZE {
      InsertLarge(b, file, start, length, outside);
    } else {
      var e := NewFile(b, file, start, length, outside);
      PiecesNone(b.ring, e.data, start, wide);
      PiecesGrow(before, b.ring, e, start, wide);
      PartFits(b, e, file, outside);
      InsertLoose(b, e, file, outside);
    }
  }

  lemma PiecesNone(ring: seq<Bucket>, id: nat, start: int, single: bool)
    ensures Pieces(ring, ring, id, start, single)
  {
  }
}
