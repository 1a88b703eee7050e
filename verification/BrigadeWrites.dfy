/** Writing into brigades, and taking their bytes out. */
module BrigadeWrites {
  import opened Basics
  import opened Buckets
  import opened BucketSteps
  import opened BucketReads
  import opened BucketLife
  import opened BrigadeFacts
  import opened Brigades

  const MAX_BUCKET_SIZE: nat := 0x40000000

  // ---------- flattening ----------

  /** memcpy of s to c at position at */
  method CopyInto(c: array<Byte>, at: nat, s: seq<Byte>)
    requires at + |s| <= c.Length
    modifies c
    ensures c[..at + |s|] == old(c[..at]) + s
  {
    for i := 0 to |s|
      invariant c[..at] == old(c[..at]) && c[at..at + i] == s[..i]
    {
      c[at + i] := s[i];
    }
  }

  /** apr_brigade_flatten: the first len bytes, or all if there are fewer; the brigade keeps its bytes. */
  method Flatten(b: Brigade, c: array<Byte>, len: nat, ghost outside: multiset<nat>)
    returns (st: Status, n: nat, ghost at: nat)
    requires Inv(b.Now(), outside) && len <= c.Length
    modifies b, b.storage, c
    ensures Keeps(old(b.Now()), b.Now(), outside) && AllFit(old(b.storage.mem), old(b.ring))
    ensures st == Success ==> n == Min(len, |Content(old(b.storage.mem), old(b.ring))|)
    ensures st == Success ==> c[..n] == Content(old(b.storage.mem), old(b.ring))[..n]
    ensures st != Success ==> Unread(old(b.Now()), b.Now(), st, at, len)
    ensures NoSystem(old(b.ring)) ==> st == Success
  {
    hide *;
    ghost var w := b.Now();
    NothingTaken(w, outside);
    MinIs(len, |Content(w.mem, w.ring)|);
    NowIs(b);
    n, at := 0, 0;
    var i := 0;
    while i < |b.ring|
      invariant Keeps(w, b.Now(), outside) && i <= |b.ring| && n <= len && (n < len || i == 0)
      invariant Settles(w, b.Now())
      invariant AllFit(b.storage.mem, b.ring[..i]) && c[..n] == Content(b.storage.mem, b.ring[..i])
      decreases Load(b.storage.mem, b.ring[i..])
    {
      at := i;
      st, n := TakeNext(b, c, i, n, len, w, outside);
      if st != Success || n >= len {
        UnreadMeans(w, b.Now(), st, i, len);
        return;
      }
      i := i + 1;
    }
    st := Success;
    NowIs(b);
    AllTaken(w, b.Now(), c[..n], outside);
  }

  lemma MinIs(a: int, b: int)
    ensures Min(a, b) == if a < b then a else b
  {
  }

  lemma NothingTaken(w: World, outside: multiset<nat>)
    requires Inv(w, outside)
    ensures AllFit(w.mem, w.ring) && Keeps(w, w, outside) && Settles(w, w)
    ensures AllFit(w.mem, w.ring[..0]) && Content(w.mem, w.ring[..0]) == []
  {
    InvFits(w, outside);
    KeepsItself(w, outside);
    hide Keeps, Inv;
  }

  /** One bucket is read and its bytes are copied, as far as there is room. */
  method TakeNext(b: Brigade, c: array<Byte>, i: nat, n0: nat, len: nat, ghost w: World, ghost outside: multiset<nat>)
    returns (st: Status, n: nat)
    requires AllFit(w.mem, w.ring) && Keeps(w, b.Now(), outside) && i < |b.ring| && n0 <= len <= c.Length
    requires AllFit(b.storage.mem, b.ring[..i]) && c[..n0] == Content(b.storage.mem, b.ring[..i])
    requires Settles(w, b.Now()) && (n0 < len || i == 0)
    modifies b, b.storage, c
    ensures Keeps(w, b.Now(), outside) && n <= len
    ensures st == Success ==> i < |b.ring| && n <= |Content(w.mem, w.ring)| && c[..n] == Content(w.mem, w.ring)[..n]
    ensures st == Success && n < len ==>
              AllFit(b.storage.mem, b.ring[..i + 1]) && c[..n] == Content(b.storage.mem, b.ring[..i + 1])
    ensures st == Success ==> Load(b.storage.mem, b.ring[i + 1..]) < Load(old(b.storage.mem), old(b.ring)[i..])
    ensures Settles(w, b.Now()) && (st != Success ==> Unread(w, b.Now(), st, i, len))
  {
    hide *;
    n := n0;
    var str;
    ghost var taken, before := c[..n], b.Now();
    st, str := ReadNext(b, i, w, outside);
    NowIs(b);
    SettlesOn(w, before, b.Now());
    if st != Success {
      MakeUnread(w, before, b.Now(), st, i, len);
      return;
    }
    var k := if |str| + n > len then len - n else |str|;
    assert c[..n] == taken;
    CopyInto(c, n, str[..k]);
    n := n + k;
    NowIs(b);
    FrontOfWhole(w, b.Now(), i + 1, taken, str, k, outside);
    if n < len {
      assert str[..k] == str;
    }
  }

  /** One bucket is read; the bytes before it stay. */
  method ReadNext(b: Brigade, i: nat, ghost w: World, ghost outside: multiset<nat>) returns (st: Status, str: seq<Byte>)
    requires AllFit(w.mem, w.ring) && Keeps(w, b.Now(), outside) && i < |b.ring|
    modifies b, b.storage
    ensures Keeps(w, b.Now(), outside) && AllFit(old(b.storage.mem), old(b.ring)[..i])
    ensures st == Success ==> i < |b.ring| && AllFit(b.storage.mem, b.ring[..i + 1])
    ensures st == Success ==>
              Content(b.storage.mem, b.ring[..i + 1]) == Content(old(b.storage.mem), old(b.ring)[..i]) + str
    ensures st == Success ==> Load(b.storage.mem, b.ring[i + 1..]) < Load(old(b.storage.mem), old(b.ring)[i..])
    ensures Settles(old(b.Now()), b.Now()) && i <= |b.ring| && AllFit(b.storage.mem, b.ring[..i])
    ensures Content(b.storage.mem, b.ring[..i]) == Content(old(b.storage.mem), old(b.ring)[..i])
    ensures NextCause(st, old(b.Now()), b.Now(), i)
  {
    hide *;
    NowIs(b);
    ghost var before := b.Now();
    KeepsInv(w, before, outside);
    InvFits(before, outside);
    FitParts(before, i);
    st, str := b.Read(i, outside);
    NowIs(b);
    KeepsOn(w, before, b.Now(), outside);
    FrontStays(before, i, b.Now(), st, str, outside);
    if st == Success {
      FlattenStep(before, i, b.Now(), st, str, outside);
    }
  }

  /** Why the bucket at position i could not be read: the system failed, or the file was too short. */
  predicate NextCause(st: Status, w: World, w': World, i: nat) {
    match st
    case Success => true
    case Failed => i < |w'.ring| && FromSystem(w'.ring[i])
    case Eof => !AllSolid(w.mem, w.ring)
    case _ => false
  }

  /** The buckets before the one at `at` do not fill the room, and that one could not be read. */
  ghost predicate Unread(w: World, w': World, st: Status, at: nat, len: nat) {
    && NextCause(st, w, w', at) && at <= |w'.ring| && AllFit(w'.mem, w'.ring[..at])
    && (at > 0 ==> |Content(w'.mem, w'.ring[..at])| < len)
  }

  lemma MakeUnread(w: World, w1: World, w': World, st: Status, i: nat, len: nat)
    requires Settles(w, w1) && NextCause(st, w1, w', i) && i <= |w'.ring| && AllFit(w'.mem, w'.ring[..i])
    requires i > 0 ==> |Content(w'.mem, w'.ring[..i])| < len
    ensures Unread(w, w', st, i, len)
  {
    hide AllSolid, AllFit, Content, FromSystem;
  }

  lemma UnreadMeans(w: World, w': World, st: Status, at: nat, len: nat)
    requires Settles(w, w')
    ensures Unread(w, w', st, at, len) && NoSystem(w.ring) ==> st == Success
  {
    hide AllFit, Content;
  }

  lemma FrontStays(w: World, i: nat, w': World, st: Status, str: seq<Byte>, outside: multiset<nat>)
    requires i < |w.ring| && AllFit(w.mem, w.ring) && ReadShape(w, i, w', st, str) && Keeps(w, w', outside)
    requires Fits(w.mem, w.ring[i]) && ReadStep(w, i, w', st, str) && Spares(w.mem, w'.mem, Rest(w, i) + outside)
    ensures i <= |w'.ring| && AllFit(w'.mem, w'.ring[..i]) && AllFit(w.mem, w.ring[..i])
    ensures Content(w'.mem, w'.ring[..i]) == Content(w.mem, w.ring[..i])
    ensures Settles(w, w') && NextCause(st, w, w', i)
  {
    OthersKept(w, w'.mem, i, outside);
    hide Spares, Fits, BytesOf, Content, Rest, Uses, ReadStep, Keeps, FromSystem, AllSolid, Settles;
    ReadStatus(w, i, w', st, str, outside);
  }

  /** The part before the bucket is as it was, and the bucket holds what was read. */
  lemma FlattenStep(w: World, i: nat, w': World, st: Status, str: seq<Byte>, outside: multiset<nat>)
    requires i < |w.ring| && AllFit(w.mem, w.ring) && ReadShape(w, i, w', st, str) && st == Success
    requires Spares(w.mem, w'.mem, Rest(w, i) + outside)
    ensures i < |w'.ring| && AllFit(w'.mem, w'.ring[..i + 1]) && AllFit(w.mem, w.ring[..i])
    ensures Content(w'.mem, w'.ring[..i + 1]) == Content(w.mem, w.ring[..i]) + str
  {
    OthersKept(w, w'.mem, i, outside);
    assert Fits(w'.mem, w'.ring[i]) && BytesOf(w'.mem, w'.ring[i]) == str && w'.ring[..i] == w.ring[..i];
    hide Spares, Fits, BytesOf, Content, Rest, Uses, ReadShape;
    assert w'.ring[..i + 1] == w'.ring[..i] + [w'.ring[i]];
    ContentOne(w'.mem, w'.ring[i]);
    ContentConcat(w'.mem, w'.ring[..i], [w'.ring[i]]);
  }

  /** What was taken, with k bytes of the last bucket read, is where the whole begins. */
  lemma FrontOfWhole(w: World, w': World, i: nat, taken: seq<Byte>, str: seq<Byte>, k: nat, outside: multiset<nat>)
    requires AllFit(w.mem, w.ring) && Keeps(w, w', outside) && i <= |w'.ring| && AllFit(w'.mem, w'.ring[..i])
    requires k <= |str| && Content(w'.mem, w'.ring[..i]) == taken + str
    ensures |taken| + k <= |Content(w.mem, w.ring)| && taken + str[..k] == Content(w.mem, w.ring)[..|taken| + k]
  {
    RingParts(w', i);
    assert taken + str == (taken + str[..k]) + str[k..];
  }

  lemma AllTaken(w: World, w': World, got: seq<Byte>, outside: multiset<nat>)
    requires AllFit(w.mem, w.ring) && Keeps(w, w', outside) && AllFit(w'.mem, w'.ring[..|w'.ring|])
    requires got == Content(w'.mem, w'.ring[..|w'.ring|])
    ensures got == Content(w.mem, w.ring)
  {
    assert w'.ring[..|w'.ring|] == w'.ring;
  }

  // ---------- length ----------

  /** apr_brigade_length; -1 stands for unknown. */
  method Length(b: Brigade, readAll: bool, ghost outside: multiset<nat>) returns (st: Status, length: int)
    requires Inv(b.Now(), outside)
    modifies b, b.storage
    ensures Keeps(old(b.Now()), b.Now(), outside) && (st == Success || (st == Failed && readAll))
    ensures st == Success && length != -1 ==> Known(b.ring) && Total(b.ring) == length
    ensures length == -1 ==> !readAll || st == Failed
    ensures !readAll ==> b.Now() == old(b.Now()) && (length == -1 <==> !Known(b.ring))
    ensures st == Failed ==> !Known(b.ring) && !Known(old(b.ring))
  {
    ghost var w := b.Now();
    InvFits(w, outside);
    KeepsItself(w, outside);
    var total, i := 0, 0;
    assert Known(w.ring[..0]) && Total(w.ring[..0]) == 0;
    hide *;
    while i < |b.ring|
      invariant Keeps(w, b.Now(), outside) && i <= |b.ring| && (!readAll || Known(w.ring) ==> b.Now() == w)
      invariant Known(b.ring[..i]) && Total(b.ring[..i]) == total >= 0
      decreases Load(b.storage.mem, b.ring[i..])
    {
      var known;
      known, st := LengthAt(b, i, readAll, w, outside);
      if !known {
        return st, -1;
      }
      TotalStep(b.ring, i);
      total := total + b.ring[i].length;
      i := i + 1;
    }
    assert b.ring[..i] == b.ring;
    st, length := Success, total;
  }

  /** The length of one bucket is known, or is made known, or is not. */
  method LengthAt(b: Brigade, i: nat, readAll: bool, ghost w: World, ghost outside: multiset<nat>)
    returns (known: bool, st: Status)
    requires AllFit(w.mem, w.ring) && Keeps(w, b.Now(), outside) && i < |b.ring|
    modifies b, b.storage
    ensures Keeps(w, b.Now(), outside) && i < |b.ring| && b.ring[..i] == old(b.ring)[..i]
    ensures !readAll ==> b.Now() == old(b.Now()) && (!known ==> st == Success && !Known(b.ring))
    ensures readAll && !known ==> st == Failed
    ensures Known(old(b.ring)) ==> known && b.Now() == old(b.Now())
    ensures !known ==> !Known(b.ring)
    ensures known ==> b.ring[i].kind != PIPE && b.ring[i].length >= 0
    ensures known ==> Load(b.storage.mem, b.ring[i + 1..]) < Load(old(b.storage.mem), old(b.ring)[i..])
  {
    hide *;
    ghost var before := b.Now();
    NowIs(b);
    KeepsInv(w, before, outside);
    KindTells(before, i, outside);
    LoadDrops(b.storage.mem, b.ring, i);
    known, st := true, Success;
    if b.ring[i].length == -1 {
      UnknownAt(b.ring, i);
      if !readAll {
        return false, Success;
      }
      st := b.ReadLength(i, outside);
      KeepsInv(before, b.Now(), outside);
      KeepsOn(w, before, b.Now(), outside);
      NowIs(b);
      known := st == Success;
      if known {
        SplittableKnown(b.ring[i]);
      }
    }
  }

  lemma UnknownAt(ring: seq<Bucket>, i: nat)
    requires i < |ring| && ring[i].kind == PIPE
    ensures !Known(ring)
  {
  }

  lemma SplittableKnown(b: Bucket)
    requires Splittable(b)
    ensures b.kind != PIPE
  {
  }

  // ---------- appending ----------

  /** One call of a flush callback: the bytes of the brigade that it was given, and what it reported. */
  datatype Call = Call(given: seq<Byte>, result: Status)

  /** A flush callback: it takes buckets from the front of the brigade, and may report an error. */
  class Flusher {
    ghost var sent: seq<Byte>  // all bytes it has taken
    ghost var calls: seq<Call>

    method Flush(b: Brigade, ghost outside: multiset<nat>) returns (st: Status)
      requires Inv(b.Now(), outside)
      modifies this, b, b.storage
      ensures Inv(b.Now(), outside) && Spares(old(b.storage.mem), b.storage.mem, outside)
      ensures AllFit(b.storage.mem, b.ring) && AllFit(old(b.storage.mem), old(b.ring))
      ensures sent + Content(b.storage.mem, b.ring) == old(sent) + Content(old(b.storage.mem), old(b.ring))
      ensures calls == old(calls) + [Call(Content(old(b.storage.mem), old(b.ring)), st)]
    {
      var k: nat :| k <= |b.ring|;
      InvFits(b.Now(), outside);
      SparesSelf(b.storage.mem, outside);
      ghost var all := Content(b.storage.mem, b.ring);
      hide *;
      for i := 0 to k
        invariant k - i <= |b.ring| && Inv(b.Now(), outside) && Spares(old(b.storage.mem), b.storage.mem, outside)
        invariant AllFit(b.storage.mem, b.ring) && calls == old(calls)
        invariant sent + Content(b.storage.mem, b.ring) == old(sent) + Content(old(b.storage.mem), old(b.ring))
      {
        ghost var w := b.Now();
        NowIs(b);
        DeleteFirst(w, outside);
        ghost var given := BytesOf(b.storage.mem, b.ring[0]);
        Joined(sent, given, Content(Deleted(w, 0).mem, Deleted(w, 0).ring));
        sent := sent + given;
        b.Delete(0, outside);
        NowIs(b);
        InvFits(b.Now(), outside);
        SparesTwice(old(b.storage.mem), w.mem, b.storage.mem, outside);
      }
      st := *;
      calls := calls + [Call(all, st)];
    }
  }

  lemma DeleteFirst(w: World, outside: multiset<nat>)
    requires Inv(w, outside) && |w.ring| > 0
    ensures Fits(w.mem, w.ring[0]) && AllFit(w.mem, w.ring) && (w.ring[0].kind != META ==> w.ring[0].data in w.mem)
    ensures Inv(Deleted(w, 0), outside) && AllFit(Deleted(w, 0).mem, Deleted(w, 0).ring)
    ensures Content(w.mem, w.ring) ==
            BytesOf(w.mem, w.ring[0]) + Content(Deleted(w, 0).mem, Deleted(w, 0).ring)
    ensures |Deleted(w, 0).ring| == |w.ring| - 1
  {
    hide *;
    InvFits(w, outside);
    DeleteKeeps(w, 0, outside);
    InvFits(Deleted(w, 0), outside);
    FrontDeleted(w);
  }

  lemma FrontDeleted(w: World)
    requires AllFit(w.mem, w.ring) && |w.ring| > 0 && (w.ring[0].kind != META ==> w.ring[0].data in w.mem)
    ensures w.ring[..0] == [] && w.ring[0 + 1..] == w.ring[1..] && Fits(w.mem, w.ring[0])
    ensures AllFit(w.mem, w.ring[1..]) && AllFit(w.mem, []) && Content(w.mem, []) == []
    ensures Content(w.mem, w.ring) == BytesOf(w.mem, w.ring[0]) + Content(w.mem, w.ring[1..])
    ensures |Deleted(w, 0).ring| == |w.ring| - 1
  {
    hide Fits, BytesOf, Adjust;
  }

  ghost function SentBy(flush: Flusher?): seq<Byte>
    reads flush
  {
    if flush == null then [] else flush.sent
  }

  ghost function CallsOf(flush: Flusher?): seq<Call>
    reads flush
  {
    if flush == null then [] else flush.calls
  }

  /** The space that a write finds behind the last bucket, or in a new buffer if that is no heap bucket. */
  function Remaining(w: World): int {
    if |w.ring| > 0 && Last(w).kind == HEAP && Last(w).data in w.mem
    then |Text(w.mem[Last(w).data], HEAP)| - End(w) else BUFF_SIZE
  }

  /** A bucket on new storage goes to the tail. */
  method InsertTail(b: Brigade, kind: Kind, d: Data, length: nat, ghost outside: multiset<nat>)
    requires Inv(b.Now(), outside) && (d.Heap? || d.Memory?) && kind == (if d.Heap? then HEAP else MEMORY)
    requires length <= |d.base| && (d.Heap? ==> d.refs == 1)
    modifies b, b.storage
    ensures b.Now() == Inserted(old(b.Now()), |old(b.ring)|, Bucket(kind, old(b.storage.next), 0, length), d)
    ensures Inv(b.Now(), outside) && Spares(old(b.storage.mem), b.storage.mem, outside) && Unshared(b.Now())
    ensures AllFit(old(b.storage.mem), old(b.ring)) && AllFit(b.storage.mem, b.ring)
    ensures Content(b.storage.mem, b.ring) == Content(old(b.storage.mem), old(b.ring)) + d.base[..length]
  {
    ghost var w := b.Now();
    TailInserted(w, Bucket(kind, b.storage.next, 0, length), d, outside);
    var id := b.storage.Allocate(d);
    b.ring := b.ring + [Bucket(kind, id, 0, length)];
    assert b.Now() == Inserted(w, |w.ring|, Bucket(kind, w.next, 0, length), d);
  }

  lemma TailInserted(w: World, e: Bucket, d: Data, outside: multiset<nat>)
    requires Inv(w, outside) && (d.Heap? || d.Memory?) && (d.Heap? ==> d.refs == 1)
    requires e.kind == (if d.Heap? then HEAP else MEMORY) && e.data == w.next && e.start == 0 &&
             0 <= e.length <= |d.base|
    ensures var w' := Inserted(w, |w.ring|, e, d);
            && Inv(w', outside) && Spares(w.mem, w'.mem, outside) && Unshared(w') && AllFit(w'.mem, w'.ring)
            && AllFit(w.mem, w.ring) && Content(w'.mem, w'.ring) == Content(w.mem, w.ring) + d.base[..e.length]
  {
    NewText(w, e, d);
    hide *;
    InsertKeeps(w, |w.ring|, e, d, outside);
    InvFits(w, outside);
    InvFits(Inserted(w, |w.ring|, e, d), outside);
    assert w.ring[..|w.ring|] == w.ring;
  }

  lemma NewText(w: World, e: Bucket, d: Data)
    requires (d.Heap? || d.Memory?) && (d.Heap? ==> d.refs == 1)
    requires e.kind == (if d.Heap? then HEAP else MEMORY) && e.data == w.next && e.start == 0 &&
             0 <= e.length <= |d.base|
    ensures Created(w, e, d) && Unshared(Inserted(w, |w.ring|, e, d))
    ensures Fits(Inserted(w, |w.ring|, e, d).mem, e) &&
            BytesOf(Inserted(w, |w.ring|, e, d).mem, e) == d.base[..e.length]
    ensures w.ring[|w.ring|..] == [] && AllFit(w.mem, []) && Content(w.mem, []) == []
  {
  }

  /**
   A text of n bytes that fits behind the last heap bucket makes it longer, and another gets a heap bucket of its
   own.
   */
  predicate TextBehind(w: World, n: nat, ring: seq<Bucket>) {
    if |w.ring| > 0 && Last(w).kind == HEAP && n <= Remaining(w)
    then ring == w.ring[..|w.ring| - 1] + [Last(w).(length := Last(w).length + n)]
    else ring == w.ring + [Bucket(HEAP, w.next, 0, n)]
  }

  /** How many of n bytes a write puts behind the last bucket. */
  function Placed(w: World, n: nat): nat {
    if n <= Remaining(w) then n else 0
  }

  /** Writing n bytes behind the last bucket of w leaves the space behind them as clear as it was. */
  ghost predicate StaysClear(w: World, n: nat, w': World) {
    forall k: nat :: Clear(w, n + k) ==> Clear(w', k)
  }

  lemma AlwaysClear(w: World, n: nat, w': World, outside: multiset<nat>)
    requires Inv(w', outside) && Unshared(w')
    ensures StaysClear(w, n, w') && forall k: nat :: Clear(w', k)
    ensures HeapTail(w') ==> Last(w').data !in outside
  {
    UnsharedIsClear(w', outside);
    hide Clear;
  }

  lemma ClearOn(w0: World, w: World, w': World, n: nat)
    requires (forall k: nat :: Clear(w, k)) && StaysClear(w, n, w')
    ensures StaysClear(w0, n, w')
  {
    hide Clear;
  }

  /** memcpy behind the last bucket, whose length grows */
  method AppendText(b: Brigade, text: seq<Byte>, ghost outside: multiset<nat>)
    requires Inv(b.Now(), outside) && HasRoom(b.Now(), |text|) && Clear(b.Now(), |text|)
    modifies b, b.storage
    ensures b.Now() == Appended(old(b.Now()), text)
    ensures Inv(b.Now(), outside) && Leaves(old(b.Now()), |text|, b.storage.mem, outside)
    ensures StaysClear(old(b.Now()), |text|, b.Now())
    ensures AllFit(old(b.storage.mem), old(b.ring)) && AllFit(b.storage.mem, b.ring)
    ensures Content(b.storage.mem, b.ring) == Content(old(b.storage.mem), old(b.ring)) + text
  {
    ghost var w := b.Now();
    AppendKeeps(w, text, outside);
    InvFits(Appended(w, text), outside);
    AppendInPlace(b, text);
  }

  method AppendInPlace(b: Brigade, text: seq<Byte>)
    requires HasRoom(b.Now(), |text|)
    modifies b, b.storage
    ensures b.Now() == Appended(old(b.Now()), text)
  {
    ghost var w := b.Now();
    var k := |b.ring| - 1;
    var e := b.ring[k];
    var h := b.storage.mem[e.data];
    var base := Text(h, HEAP);
    var at := e.start + e.length;
    b.storage.mem := b.storage.mem[e.data := WithBase(h, base[..at] + text + base[at + |text|..])];
    b.ring := b.ring[k := e.(length := e.length + |text|)];
    assert b.ring == w.ring[..k] + [Grown(e, |text|)];
  }

  /**
   apr_brigade_write: what the flush has taken, followed by what is in the brigade, grows by exactly the text.
   A text that fits is written behind the last bucket in place, so no other bucket of the brigade may hold any of the
   bytes written, and a bucket of another brigade that does is not kept.
   */
  method Write(b: Brigade, text: seq<Byte>, flush: Flusher?, ghost outside: multiset<nat>) returns (st: Status)
    requires Inv(b.Now(), outside) && Clear(b.Now(), Placed(b.Now(), |text|))
    modifies b, b.storage, flush
    ensures Inv(b.Now(), outside) && Leaves(old(b.Now()), Placed(old(b.Now()), |text|), b.storage.mem, outside)
    ensures AllFit(old(b.storage.mem), old(b.ring)) && AllFit(b.storage.mem, b.ring)
    ensures SentBy(flush) + Content(b.storage.mem, b.ring)
            == old(SentBy(flush)) + Content(old(b.storage.mem), old(b.ring)) + text
    ensures flush == null || |text| <= Remaining(old(b.Now())) ==>
              && st == Success && SentBy(flush) == old(SentBy(flush))
              && StaysClear(old(b.Now()), Placed(old(b.Now()), |text|), b.Now())
              && TextBehind(old(b.Now()), |text|, b.ring)
    ensures CallsOf(flush) == old(CallsOf(flush)) +
              if flush == null || |text| <= Remaining(old(b.Now())) then []
              else [Call(Content(old(b.storage.mem), old(b.ring)) + text, st)]
  {
    var remaining, found := BUFF_SIZE, false;
    if |b.ring| > 0 && b.ring[|b.ring| - 1].kind == HEAP {
      remaining := TailRoom(b, outside);
      found := true;
    }
    assert !found ==> Remaining(b.Now()) == BUFF_SIZE;
    assert remaining == Remaining(b.Now()) && Placed(b.Now(), |text|) == if |text| <= remaining then |text| else 0;
    InvFits(b.Now(), outside);
    hide *;
    ghost var sent, content, w := SentBy(flush), Content(b.storage.mem, b.ring), b.Now();
    NowIs(b);
    if |text| > remaining && flush != null {
      st := WriteThrough(b, text, flush, outside);
      LeavesSpares(w, 0, b.storage.mem, outside);
      return;
    }
    Put(b, text, remaining, found, outside);
    SentSame(flush);
    Joined(sent, content, text);
    st := Success;
  }

  lemma Joined(sent: seq<Byte>, content: seq<Byte>, text: seq<Byte>)
    ensures sent + (content + text) == sent + content + text
  {
  }

  /** The text goes into a buffer with room for it, or into one of its own. */
  method Put(b: Brigade, text: seq<Byte>, remaining: nat, found: bool, ghost outside: multiset<nat>)
    requires Inv(b.Now(), outside) && Clear(b.Now(), Placed(b.Now(), |text|)) && remaining == Remaining(b.Now())
    requires if found then HasRoom(b.Now(), remaining) else remaining == BUFF_SIZE
    requires found <==> |b.ring| > 0 && Last(b.Now()).kind == HEAP
    modifies b, b.storage
    ensures Inv(b.Now(), outside) && Leaves(old(b.Now()), Placed(old(b.Now()), |text|), b.storage.mem, outside)
    ensures StaysClear(old(b.Now()), Placed(old(b.Now()), |text|), b.Now())
    ensures AllFit(old(b.storage.mem), old(b.ring)) && AllFit(b.storage.mem, b.ring)
    ensures Content(b.storage.mem, b.ring) == Content(old(b.storage.mem), old(b.ring)) + text
    ensures TextBehind(old(b.Now()), |text|, b.ring)
  {
    ghost var w := b.Now();
    PlacedIs(w, |text|, found);
    NowIs(b);
    hide *;
    if |text| > remaining {
      InsertTail(b, HEAP, Heap(1, text), |text|, outside);
      AlwaysClear(w, 0, b.Now(), outside);
      LeavesSpares(w, 0, b.storage.mem, outside);
      assert text[..|text|] == text;
      InsertedLast(w, Bucket(HEAP, w.next, 0, |text|), Heap(1, text));
    } else {
      WriteBehind(b, text, found, outside);
    }
    NowIs(b);
  }

  lemma PlacedIs(w: World, n: nat, found: bool)
    requires found <==> |w.ring| > 0 && Last(w).kind == HEAP
    ensures Placed(w, n) == if n <= Remaining(w) then n else 0
    ensures found && 0 <= Remaining(w) && HasRoom(w, Remaining(w)) && n <= Remaining(w) ==> HasRoom(w, n)
    ensures forall ring :: TextBehind(w, n, ring) <==>
              ring == if found && n <= Remaining(w) then w.ring[..|w.ring| - 1] + [Grown(Last(w), n)]
                      else w.ring + [Bucket(HEAP, w.next, 0, n)]
  {
  }

  lemma InsertedLast(w: World, e: Bucket, d: Data)
    ensures Inserted(w, |w.ring|, e, d).ring == w.ring + [e]
  {
    assert w.ring[..|w.ring|] == w.ring && w.ring[|w.ring|..] == [];
  }

  lemma AppendedRing(w: World, text: seq<Byte>)
    requires HasRoom(w, |text|)
    ensures |w.ring| > 0 && Appended(w, text).ring == w.ring[..|w.ring| - 1] + [Grown(Last(w), |text|)]
  {
  }

  /** The text goes behind the last bucket, or into a new buffer. */
  method WriteBehind(b: Brigade, text: seq<Byte>, found: bool, ghost outside: multiset<nat>)
    requires Inv(b.Now(), outside) && Clear(b.Now(), |text|)
    requires if found then HasRoom(b.Now(), |text|) else |text| <= BUFF_SIZE
    modifies b, b.storage
    ensures Inv(b.Now(), outside) && Leaves(old(b.Now()), |text|, b.storage.mem, outside)
    ensures StaysClear(old(b.Now()), |text|, b.Now())
    ensures AllFit(old(b.storage.mem), old(b.ring)) && AllFit(b.storage.mem, b.ring)
    ensures Content(b.storage.mem, b.ring) == Content(old(b.storage.mem), old(b.ring)) + text
    ensures found ==>
              |old(b.ring)| > 0 && b.ring == old(b.ring)[..|old(b.ring)| - 1] + [Grown(Last(old(b.Now())), |text|)]
    ensures !found ==> b.ring == old(b.ring) + [Bucket(HEAP, old(b.storage.next), 0, |text|)]
  {
    hide *;
    ghost var w0 := b.Now();
    NowIs(b);
    if !found {
      InsertEmpty(b, outside);
      AlwaysClear(w0, |text|, b.Now(), outside);
    }
    ghost var w := b.Now();
    NowIs(b);
    AppendedRing(w, text);
    AppendText(b, text, outside);
    NowIs(b);
    if !found {
      LeavesSpares(w, |text|, b.storage.mem, outside);
      SparesTwice(w0.mem, w.mem, b.storage.mem, outside);
      LeavesSpares(w0, |text|, b.storage.mem, outside);
      ClearOn(w0, w, b.Now(), |text|);
      GrownLast(w, w0.ring, Bucket(HEAP, w0.next, 0, 0), |text|);
    }
  }

  lemma GrownLast(w: World, ring: seq<Bucket>, e: Bucket, n: nat)
    requires w.ring == ring + [e]
    ensures w.ring[..|w.ring| - 1] + [Grown(Last(w), n)] == ring + [e.(length := e.length + n)]
  {
  }

  lemma SentSame(flush: Flusher?)
    ensures SentBy(flush) == if flush == null then [] else flush.sent
    ensures CallsOf(flush) == if flush == null then [] else flush.calls
  {
  }

  /** The text goes out with everything before it, without a copy. */
  method WriteThrough(b: Brigade, text: seq<Byte>, flush: Flusher, ghost outside: multiset<nat>) returns (st: Status)
    requires Inv(b.Now(), outside)
    modifies b, b.storage, flush
    ensures Inv(b.Now(), outside) && Spares(old(b.storage.mem), b.storage.mem, outside)
    ensures AllFit(old(b.storage.mem), old(b.ring)) && AllFit(b.storage.mem, b.ring)
    ensures SentBy(flush) + Content(b.storage.mem, b.ring)
            == old(SentBy(flush)) + Content(old(b.storage.mem), old(b.ring)) + text
    ensures CallsOf(flush) == old(CallsOf(flush)) + [Call(Content(old(b.storage.mem), old(b.ring)) + text, st)]
  {
    InvFits(b.Now(), outside);
    hide *;
    SentSame(flush);
    ghost var m0, sent, content := b.storage.mem, flush.sent, Content(b.storage.mem, b.ring);
    InsertTail(b, MEMORY, Memory(text), |text|, outside);
    assert text[..|text|] == text;
    assert sent + (content + text) == sent + content + text;
    ghost var m := b.storage.mem;
    st := flush.Flush(b, outside);
    SparesTwice(m0, m, b.storage.mem, outside);
    SentSame(flush);
  }

  method TailRoom(b: Brigade, ghost outside: multiset<nat>) returns (n: nat)
    requires Inv(b.Now(), outside) && |b.ring| > 0 && b.ring[|b.ring| - 1].kind == HEAP
    ensures n == Remaining(b.Now()) && HasRoom(b.Now(), n)
    ensures forall k: nat :: k <= n ==> HasRoom(b.Now(), k)
  {
    var e := b.ring[|b.ring| - 1];
    assert Fits(b.storage.mem, e);
    n := |Text(b.storage.mem[e.data], HEAP)| - (e.length + e.start);
  }

  /** A new buffer of the usual size that nothing is in yet. */
  method InsertEmpty(b: Brigade, ghost outside: multiset<nat>)
    requires Inv(b.Now(), outside)
    modifies b, b.storage
    ensures Inv(b.Now(), outside) && Spares(old(b.storage.mem), b.storage.mem, outside) && Unshared(b.Now())
    ensures AllFit(old(b.storage.mem), old(b.ring)) && AllFit(b.storage.mem, b.ring)
    ensures Content(b.storage.mem, b.ring) == Content(old(b.storage.mem), old(b.ring))
    ensures forall k: nat :: k <= BUFF_SIZE ==> HasRoom(b.Now(), k)
    ensures b.ring == old(b.ring) + [Bucket(HEAP, old(b.storage.next), 0, 0)]
  {
    ghost var w := b.Now();
    var buf := FilledBuffer(BUFF_SIZE, []);
    InsertTail(b, HEAP, Heap(1, buf), 0, outside);
    InsertedLast(w, Bucket(HEAP, w.next, 0, 0), Heap(1, buf));
  }
}
