/** Bucket brigades: a ring of buckets whose storage may be shared with other rings. */
module Brigades {
  import opened Basics
  import opened Buckets
  import opened BucketSteps
  import opened BucketReads
  import opened BucketLife
  import opened BrigadeFacts

  const LF: Byte := 10

  /** The bucket allocator: what data pointers lead to. */
  class Storage {
    var mem: Mem
    var next: nat

    constructor ()
      ensures mem == map[] && next == 0
    {
      mem, next := map[], 0;
    }

    /** The next allocation holds d. */
    method Allocate(d: Data) returns (id: nat)
      modifies this
      ensures id == old(next) && mem == old(mem)[id := d] && next == id + 1
    {
      id := next;
      mem := mem[id := d];
      next := next + 1;
    }

    /** apr_bucket_shared_destroy, and the release of the structure when it says so */
    method Drop(id: nat)
      requires id in mem
      modifies this`mem
      ensures mem == Adjust(old(mem), id, -1)
    {
      if Counted(mem[id]) {
        mem := mem[id := mem[id].(refs := mem[id].refs - 1)];
        if mem[id].refs <= 0 {
          mem := mem - {id};
        }
      }
    }

    method Share(id: nat)
      requires id in mem && (Counted(mem[id]) ==> mem[id].refs > 0)
      modifies this`mem
      ensures mem == Adjust(old(mem), id, 1)
    {
      if Counted(mem[id]) {
        mem := mem[id := mem[id].(refs := mem[id].refs + 1)];
      }
    }
  }

  /** A read of a file or a pipe as the system does it: it may stop short, or fail. */
  method SystemReadFrom(avail: seq<Byte>, want: nat) returns (st: Status, got: seq<Byte>)
    ensures SystemRead(avail, want, st, got)
  {
    var fails: bool := *;
    if fails {
      return Failed, [];
    }
    var most := Min(want, |avail|);
    var n: int :| 0 <= n <= most && (n == 0 ==> most == 0);
    got := avail[..n];
    st := if n == 0 && want > 0 then Eof else Success;
  }

  /** A buffer of n bytes of which the first are text and the others anything. */
  method FilledBuffer(n: nat, text: seq<Byte>) returns (buf: seq<Byte>)
    requires |text| <= n
    ensures |buf| == n && text <= buf
  {
    var junk: Byte := *;
    buf := text + seq<Byte>(n - |text|, _ => junk);
  }

  class Brigade {
    const storage: Storage
    var ring: seq<Bucket>

    function Now(): World
      reads this, storage
    {
      World(storage.mem, storage.next, ring)
    }

    /** apr_brigade_create */
    constructor (storage: Storage)
      ensures this.storage == storage && ring == []
    {
      this.storage := storage;
      ring := [];
    }

    // ---------- one bucket ----------

    /** apr_bucket_split */
    method Split(i: nat, point: nat, ghost outside: multiset<nat>) returns (st: Status)
      requires Inv(Now(), outside) && i < |ring|
      modifies this, storage
      ensures st == if !Splittable(old(ring)[i]) then NotImpl
                    else if point > old(ring)[i].length then Einval else Success
      ensures old(ring)[i].kind != META ==> old(ring)[i].data in old(storage.mem)
      ensures Now() == if st == Success then SplitAt(old(Now()), i, point) else old(Now())
      ensures Keeps(old(Now()), Now(), outside)
    {
      var e := ring[i];
      assert Fits(storage.mem, e);
      ghost var before := Now();
      KeepsItself(before, outside);
      if e.kind == PIPE || e.kind == META {
        return NotImpl;
      }
      if point > e.length {
        return Einval;
      }
      SplitKeeps(before, i, point, outside);
      OwnUse(before, i, outside);
      SplitPart(i, point);
      st := Success;
    }

    /** The bucket is copied, both lengths are set, and the structure gets one more reference. */
    method SplitPart(i: nat, point: nat)
      requires i < |ring| && point <= ring[i].length && ring[i].data in storage.mem
      requires Counted(storage.mem[ring[i].data]) ==> storage.mem[ring[i].data].refs > 0
      modifies this, storage
      ensures Now() == SplitAt(old(Now()), i, point)
    {
      var a := ring[i];
      var b := a;
      a := a.(length := point);
      b := b.(length := b.length - point, start := b.start + point);
      ring := ring[..i] + [a, b] + ring[i + 1..];
      storage.Share(b.data);
    }

    /** apr_bucket_read, by type */
    method Read(i: nat, ghost outside: multiset<nat>) returns (st: Status, str: seq<Byte>)
      requires Inv(Now(), outside) && i < |ring|
      modifies this, storage
      ensures Fits(old(storage.mem), old(ring)[i]) && ReadStep(old(Now()), i, Now(), st, str)
      ensures ReadShape(old(Now()), i, Now(), st, str) && Keeps(old(Now()), Now(), outside)
      ensures Spares(old(storage.mem), storage.mem, Rest(old(Now()), i) + outside)
      ensures Load(storage.mem, ring[i + 1..]) < Load(old(storage.mem), old(ring)[i..])
    {
      ghost var before := Now();
      var e := ring[i];
      NextIsUnused(before, outside);
      assert Fits(storage.mem, e) && (e.kind != META ==> e.data < storage.next);
      hide Inv, Keeps, Spares, Load, ReadShape, FileRead, PipeRead, PoolRead;
      if e.kind == FILE {
        st, str := ReadFile(i);
      } else if e.kind == PIPE {
        st, str := ReadPipe(i);
      } else if e.kind == POOL {
        str := ReadPool(i);
        st := Success;
      } else {
        st, str := Success, BytesOf(storage.mem, e);
      }
      ReadKeeps(before, i, Now(), st, str, outside);
      ReadHasShape(before, i, Now(), st, str);
      ReadDrops(before, i, Now(), st, str, outside);
    }

    /** pool_bucket_read */
    method ReadPool(i: nat) returns (str: seq<Byte>)
      requires i < |ring| && Fits(storage.mem, ring[i]) && ring[i].kind == POOL
      modifies this`ring
      ensures old(ring[i].data in storage.mem && storage.mem[ring[i].data].Pool?) && Now() == PoolRead(old(Now()), i)
      ensures Fits(old(storage.mem), old(ring[i])) && str == old(BytesOf(storage.mem, ring[i]))
    {
      var e := ring[i];
      str := BytesOf(storage.mem, e);
      if !storage.mem[e.data].inPool {
        ghost var before := ring;
        ring := ring[i := e.(kind := HEAP)];
        assert ring == Put(before, i, [e.(kind := HEAP)]);
      }
    }

    /** apr_bucket_heap_make on a buffer that is handed over; length is what of it is in use */
    method HeapMake(i: nat, buf: seq<Byte>, length: nat)
      requires i < |ring|
      modifies this, storage
      ensures storage.mem == old(storage.mem)[old(storage.next) := Heap(1, buf)] &&
              storage.next == old(storage.next) + 1
      ensures ring == old(ring)[i := Bucket(HEAP, old(storage.next), 0, length)]
    {
      var h := storage.Allocate(Heap(1, buf));
      ring := ring[i := Bucket(HEAP, h, 0, length)];
    }

    method InsertAfter(i: nat, b: Bucket)
      requires i < |ring|
      modifies this`ring
      ensures ring == old(ring)[..i + 1] + [b] + old(ring)[i + 1..]
    {
      ring := ring[..i + 1] + [b] + ring[i + 1..];
    }

    /** file_make_mmap: the file reference goes from the bucket to the rest that is split off, or is dropped. */
    method MakeMmap(i: nat) returns (made: bool)
      requires i < |ring| && Fits(storage.mem, ring[i]) && ring[i].kind == FILE && storage.next !in storage.mem
      requires storage.mem[ring[i].data].refs > 0
      modifies this, storage
      ensures made ==> Mappable(old(storage.mem[ring[i].data]), old(ring[i]))
      ensures old(ring[i].data in storage.mem)
      ensures var e := old(ring[i]);
              var text := Clip(Text(old(storage.mem)[e.data], FILE), e.start, MapLength(e));
              Now() == if made then HandOver(old(Now()), i, MapLength(e), MMAP, Mmap(1, text)) else old(Now())
    {
      var e := ring[i];
      var a := storage.mem[e.data];
      var length := e.length;
      var works: bool := *;
      works := works && e.start + Min(length, MMAP_LIMIT) <= |a.file|;
      if !a.canMmap || !works || (length <= MMAP_LIMIT && length < MMAP_THRESHOLD) {
        return false;
      }
      ghost var before := Now();
      if length > MMAP_LIMIT {
        SplitPart(i, MMAP_LIMIT);
        length := MMAP_LIMIT;
      }
      ghost var split := ring;
      var m := storage.Allocate(Mmap(1, Clip(a.file, e.start, length)));
      ring := ring[i := Bucket(MMAP, m, 0, length)];
      storage.Drop(e.data);
      made := true;
      MappedRing(before, i, split, ring);
    }

    lemma MappedRing(w: World, i: nat, split: seq<Bucket>, ring: seq<Bucket>)
      requires i < |w.ring| && w.ring[i].length >= 0
      requires split == if w.ring[i].length > MMAP_LIMIT
                        then Put(w.ring, i, [Front(w.ring[i], MMAP_LIMIT), Back(w.ring[i], MMAP_LIMIT)]) else w.ring
      requires i < |split| && ring == split[i := Bucket(MMAP, w.next, 0, MapLength(w.ring[i]))]
      ensures ring == Put(w.ring, i, Handed(w, w.ring[i], MapLength(w.ring[i]), MMAP))
    {
    }

    /** file_bucket_read */
    method ReadFile(i: nat) returns (st: Status, str: seq<Byte>)
      requires i < |ring| && Fits(storage.mem, ring[i]) && ring[i].kind == FILE && storage.next !in storage.mem
      requires storage.mem[ring[i].data].refs > 0
      modifies this, storage
      ensures Fits(old(storage.mem), old(ring)[i]) && FileRead(old(Now()), i, Now(), st, str)
    {
      var e := ring[i];
      var file := storage.mem[e.data].file;
      var mapped := MakeMmap(i);
      if mapped {
        return Success, Clip(file, e.start, MapLength(e));
      }
      var want := Min(e.length, BUFF_SIZE);
      st, str := SystemReadFrom(Clip(file, e.start, e.length), want);
      if st == Failed {
        return;
      }
      assert SystemRead(BytesOf(storage.mem, e), Min(e.length, BUFF_SIZE), st, str);
      TakeRead(i, st, str);
    }

    /**
     A file bucket becomes a heap bucket of what has been read; the rest of the file is a new bucket or is dropped.
     */
    method TakeRead(i: nat, st: Status, str: seq<Byte>)
      requires i < |ring| && ring[i].kind == FILE && ring[i].data in storage.mem && storage.next !in storage.mem
      requires |str| <= ring[i].length && (if st == Eof then str == [] else |str| == 0 ==> ring[i].length == 0)
      modifies this, storage
      ensures Now() == HandOver(old(Now()), i, |str|, HEAP, Heap(1, str))
    {
      var e := ring[i];
      ghost var before := Now();
      var left := e.length - |str|;
      HeapMake(i, str, |str|);
      if left > 0 && st != Eof {
        InsertAfter(i, Bucket(FILE, e.data, e.start + |str|, left));
      } else {
        storage.Drop(e.data);
      }
      assert ring == Put(before.ring, i, Handed(before, e, |str|, HEAP));
    }

    /** pipe_bucket_read */
    method ReadPipe(i: nat) returns (st: Status, str: seq<Byte>)
      requires i < |ring| && Fits(storage.mem, ring[i]) && ring[i].kind == PIPE && storage.next !in storage.mem
      modifies this, storage
      ensures Fits(old(storage.mem), old(ring)[i]) && PipeRead(old(Now()), i, Now(), st, str)
    {
      var e := ring[i];
      var rest := storage.mem[e.data].rest;
      ghost var before := Now();
      st, str := SystemReadFrom(rest, BUFF_SIZE);
      if st == Failed {
        return;
      }
      if |str| > 0 {
        storage.mem := storage.mem[e.data := Pipe(rest[|str|..])];
        var buf := FilledBuffer(BUFF_SIZE, str);
        HeapMake(i, buf, |str|);
        InsertAfter(i, e);
        assert ring == Put(before.ring, i, PipeParts(before, e, |str|));
      } else {
        var empty := storage.Allocate(Memory([]));
        ring := ring[i := Bucket(MEMORY, empty, 0, 0)];
        assert ring == Put(before.ring, i, PipeParts(before, e, 0));
      }
      st := Success;
    }

    /** apr_bucket_delete */
    method Delete(i: nat, ghost outside: multiset<nat>)
      requires Inv(Now(), outside) && i < |ring|
      modifies this, storage
      ensures old(ring)[i].kind != META ==> old(ring)[i].data in old(storage.mem)
      ensures Now() == Deleted(old(Now()), i)
      ensures Inv(Now(), outside) && Spares(old(storage.mem), storage.mem, outside)
    {
      var e := ring[i];
      DeleteKeeps(Now(), i, outside);
      ring := ring[..i] + ring[i + 1..];
      if e.kind != META {
        storage.Drop(e.data);
      }
    }

    /** apr_brigade_cleanup: afterwards only what other rings point at is left of the counted structures. */
    method Cleanup(ghost outside: multiset<nat>)
      requires Inv(Now(), outside)
      modifies this, storage
      ensures ring == [] && Inv(Now(), outside) && Spares(old(storage.mem), storage.mem, outside)
      ensures forall id :: id in storage.mem && Counted(storage.mem[id]) ==> outside[id] > 0
    {
      SparesSelf(storage.mem, outside);
      while |ring| > 0
        invariant Inv(Now(), outside) && Spares(old(storage.mem), storage.mem, outside)
        decreases |ring|
      {
        ghost var m := storage.mem;
        Delete(0, outside);
        SparesTwice(old(storage.mem), m, storage.mem, outside);
      }
      OnlyOutside(Now(), outside);
    }

    /** apr_brigade_split: the buckets from position i on go to a new brigade. */
    method SplitBrigade(i: nat) returns (a: Brigade)
      requires i <= |ring|
      modifies this`ring
      ensures fresh(a) && a.storage == storage && ring == old(ring)[..i] && a.ring == old(ring)[i..]
    {
      a := new Brigade(storage);
      a.ring := ring[i..];
      ring := ring[..i];
    }

    // ---------- whole brigades ----------

    /** A pipe bucket is read to learn its length. */
    method ReadLength(i: nat, ghost outside: multiset<nat>) returns (st: Status)
      requires Inv(Now(), outside) && i < |ring| && ring[i].kind == PIPE
      modifies this, storage
      ensures Keeps(old(Now()), Now(), outside) && i < |ring| && ring[..i] == old(ring)[..i]
      ensures if st == Failed then Now() == old(Now()) else st == Success && Splittable(ring[i]) && ring[i].length >= 0
      ensures st == Success ==> Load(storage.mem, ring[i + 1..]) < Load(old(storage.mem), old(ring)[i..])
    {
      var str;
      st, str := Read(i, outside);
    }

    /** A bucket is split where that is possible. */
    method SplitFront(i: nat, point: int, ghost outside: multiset<nat>) returns (st: Status)
      requires Inv(Now(), outside) && i < |ring| && ring[i].kind != META && 0 < point &&
               (point < ring[i].length || ring[i].kind == PIPE)
      modifies this, storage
      ensures Keeps(old(Now()), Now(), outside) && i < |ring| && ring[..i] == old(ring)[..i]
      ensures if old(ring)[i].kind == PIPE then st == NotImpl && Now() == old(Now())
              else st == Success && ring[i].length == point && ring[i].kind != PIPE
    {
      ghost var e := ring[i];
      st := Split(i, point, outside);
      if st == Success {
        PutShape(old(ring), i, [Front(e, point), Back(e, point)]);
      }
    }

    /** One bucket of the partition: the point is at its end or inside it, or comes later. */
    method PartitionAt(i: nat, left: int, sizeMax: nat, ghost outside: multiset<nat>) returns (done: bool, st: Status)
      requires Inv(Now(), outside) && i < |ring| && left > 0
      modifies this, storage
      ensures Keeps(old(Now()), Now(), outside) && i < |ring| && ring[..i] == old(ring)[..i]
      ensures done && st == Success ==> ring[i].kind != PIPE && ring[i].length == left
      ensures done && st != Success ==> st == Failed && ring[i].kind == PIPE
      ensures !done ==> ring[i].kind != PIPE && 0 <= ring[i].length < left
      ensures !done ==> Load(storage.mem, ring[i + 1..]) < Load(old(storage.mem), old(ring)[i..])
    {
      KindTells(Now(), i, outside);
      KeepsItself(Now(), outside);
      LoadDrops(storage.mem, ring, i);
      hide *;
      if ring[i].length == -1 && left > sizeMax {
        st := ReadLength(i, outside);
        KeepsInv(old(Now()), Now(), outside);
        KindTells(Now(), i, outside);
        if st != Success {
          return true, st;
        }
      }
      if left < ring[i].length || ring[i].length == -1 {
        ghost var m0 := Now();
        KeepsInv(old(Now()), Now(), outside);
        st := SplitFront(i, left, outside);
        KeepsOn(old(Now()), m0, Now(), outside);
        if st != NotImpl {
          return true, st;
        }
        st := ReadLength(i, outside);
        KeepsOn(old(Now()), m0, Now(), outside);
        KindTells(Now(), i, outside);
        if st != Success {
          return true, st;
        }
        if left < ring[i].length {
          ghost var m1 := Now();
          st := SplitFront(i, left, outside);
          KeepsOn(old(Now()), m1, Now(), outside);
          return true, st;
        }
      }
      done, st := left == ring[i].length, Success;
    }

    /**
     apr_brigade_partition: no byte changes or moves, and the buckets before `after` have exactly the
     requested length; or there is not so much, or a pipe could not be read. The largest size that fits
     the length field is sizeMax.
     */
    method Partition(point: int, sizeMax: nat, ghost outside: multiset<nat>) returns (st: Status, after: nat)
      requires Inv(Now(), outside)
      modifies this, storage
      ensures Keeps(old(Now()), Now(), outside) && after <= |ring|
      ensures Partitioned(point, st, ring, after)
      ensures AllFit(storage.mem, ring[..after]) && AllFit(old(storage.mem), old(ring))
      ensures st == Success && AllSolid(old(storage.mem), old(ring)) ==>
                IsPrefix(Content(storage.mem, ring[..after]), point, Content(old(storage.mem), old(ring)))
      ensures st == Incomplete ==> |Content(old(storage.mem), old(ring))| < point
    {
      InvFits(Now(), outside);
      hide *;
      st, after := PartitionLoop(point, sizeMax, outside);
      PartitionDone(old(Now()), Now(), after, st, point, outside);
    }

    method PartitionLoop(point: int, sizeMax: nat, ghost outside: multiset<nat>) returns (st: Status, after: nat)
      requires Inv(Now(), outside)
      modifies this, storage
      ensures Keeps(old(Now()), Now(), outside) && after <= |ring| && Partitioned(point, st, ring, after)
    {
      InvFits(Now(), outside);
      KeepsItself(Now(), outside);
      PartitionStarts(ring, point);
      hide *;
      after := 0;
      if point <= 0 {
        return if point < 0 then Einval else Success, 0;
      }
      var left := point;
      while after < |ring|
        invariant Keeps(old(Now()), Now(), outside) && after <= |ring|
        invariant Passed(ring, after, point, left) && left > 0
        decreases Load(storage.mem, ring[after..])
      {
        ghost var before := Now();
        var done: bool;
        KeepsInv(old(Now()), before, outside);
        done, st := PartitionAt(after, left, sizeMax, outside);
        KeepsOn(old(Now()), before, Now(), outside);
        PassOne(before.ring, ring, after, point, left, done, st);
        if done {
          if st == Success {
            after := after + 1;
          }
          return;
        }
        left := left - ring[after].length;
        after := after + 1;
      }
      PassedAll(ring, point, left);
      st := Incomplete;
    }

    /** The first bucket goes to the end of another brigade. */
    method MoveFirst(out: Brigade, ghost others: multiset<nat>)
      requires out != this && out.storage == storage && |ring| > 0
      requires Inv(Now(), others + Uses(out.ring)) && AllFit(storage.mem, out.ring)
      modifies this`ring, out`ring
      ensures ring == old(ring)[1..] && out.ring == old(out.ring) + [old(ring)[0]]
      ensures Inv(Now(), others + Uses(out.ring)) && AllFit(storage.mem, out.ring)
      ensures Fits(storage.mem, old(ring)[0]) && AllFit(storage.mem, old(ring)) && AllFit(storage.mem, ring)
      ensures Content(storage.mem, out.ring) == old(Content(storage.mem, out.ring)) + BytesOf(storage.mem, old(ring)[0])
      ensures Content(storage.mem, old(ring)) == BytesOf(storage.mem, old(ring)[0]) + Content(storage.mem, ring)
    {
      MoveOver(Now(), out.ring, others);
      var e := ring[0];
      ring := ring[1..];
      out.ring := out.ring + [e];
    }

    /**
     apr_brigade_split_line: buckets move over up to the first line feed, which is then the last byte moved;
     or until the length is reached or nothing is left. The buckets before the last one that moved hold
     `shorter` bytes. `others` counts the pointers from other rings.
     */
    method SplitLine(out: Brigade, maxbytes: int, ghost others: multiset<nat>)
      returns (st: Status, ghost line: seq<Byte>, ghost shorter: nat)
      requires out != this && out.storage == storage
      requires Inv(Now(), others + Uses(out.ring)) && AllFit(storage.mem, out.ring)
      modifies this, storage, out`ring
      ensures Inv(Now(), others + Uses(out.ring)) && AllFit(storage.mem, out.ring)
      ensures Spares(old(storage.mem), storage.mem, others)
      ensures AllFit(old(storage.mem), old(ring)) && AllFit(old(storage.mem), old(out.ring))
      ensures Content(storage.mem, out.ring) == Content(old(storage.mem), old(out.ring)) + line
      ensures line + Content(storage.mem, ring) == Content(old(storage.mem), old(ring))
      ensures LF in line ==> st == Success && line[|line| - 1] == LF && LF !in line[..|line| - 1]
      ensures st == Success && LF !in line ==> ring == [] || |line| >= maxbytes
      ensures st != Success ==> LF !in line && (|line| < maxbytes || line == [])
      ensures InTime(old(out.ring), out.ring, |line|, shorter, maxbytes)
      ensures st == Success || (st == Failed && ring != [] && FromSystem(ring[0]))
              || (st == Eof && !AllSolid(old(storage.mem), old(ring)))
      ensures NoSystem(old(ring)) ==> st == Success
    {
      line, shorter := [], 0;
      st := Success;
      var readbytes := 0;
      InvFits(Now(), others + Uses(out.ring));
      SparesSelf(storage.mem, others);
      assert InTime(out.ring, out.ring, 0, 0, maxbytes);
      ghost var w0, out0 := Now(), out.ring;
      assert LineSoFar(w0, out0, Now(), out.ring, [], 0, maxbytes, others);
      hide *;
      while |ring| > 0
        invariant Inv(Now(), others + Uses(out.ring)) && AllFit(storage.mem, out.ring) && AllFit(storage.mem, ring)
        invariant LineSoFar(w0, out0, Now(), out.ring, line, shorter, maxbytes, others)
        invariant LF !in line && readbytes == |line| && (readbytes < maxbytes || line == []) && st == Success
        decreases Load(storage.mem, ring)
      {
        ghost var w, out1 := Now(), out.ring;
        ghost var moved;
        var done, len;
        done, st, len, moved := SplitLineAt(out, others);
        LineOn(w0, out0, w, out1, Now(), out.ring, line, moved, shorter, st, maxbytes, others);
        LineGrows(line, moved);
        shorter := if st == Success then |line| else shorter;
        line := line + moved;
        if done {
          NowIs(this);
          LineEnds(w0, out0, w, Now(), out.ring, line, shorter, st, maxbytes, others);
          return;
        }
        readbytes := readbytes + len;
        if readbytes >= maxbytes {
          break;
        }
      }
      SuccessHasNoCause(Now(), Now());
      NowIs(this);
      LineEnds(w0, out0, Now(), Now(), out.ring, line, shorter, st, maxbytes, others);
    }

    /** One bucket of the line. */
    method SplitLineAt(out: Brigade, ghost others: multiset<nat>)
      returns (done: bool, st: Status, len: nat, ghost moved: seq<Byte>)
      requires out != this && out.storage == storage && |ring| > 0
      requires Inv(Now(), others + Uses(out.ring)) && AllFit(storage.mem, out.ring) && AllFit(storage.mem, ring)
      modifies this, storage, out`ring
      ensures Inv(Now(), others + Uses(out.ring)) && AllFit(storage.mem, out.ring) && AllFit(storage.mem, ring)
      ensures Carried(old(Now()), old(out.ring), Now(), out.ring, moved, others)
      ensures !done ==>
                st == Success && LF !in moved && |moved| == len &&
                Load(storage.mem, ring) < old(Load(storage.mem, ring))
      ensures done && st == Success ==> moved != [] && LF !in moved[..|moved| - 1] && moved[|moved| - 1] == LF
      ensures st != Success ==> done && moved == [] && out.ring == old(out.ring)
      ensures st == Success ==> LastIs(out.ring, |moved|)
      ensures Settles(old(Now()), Now()) && Cause(st, old(Now()), Now())
    {
      hide *;
      ghost var w, out0 := Now(), out.ring;
      NowIs(this);
      var str;
      st, str := ReadFirst(out, others);
      NowIs(this);
      if st != Success {
        MakeCarried(w, out0, Now(), out.ring, [], others);
        return true, st, 0, [];
      }
      ghost var w1 := Now();
      var pos := Memchr(str, LF);
      done, len, moved := pos < |str|, |str|, str;
      if done {
        ghost var m := storage.mem;
        moved := str[..pos + 1];
        SplitFirst(out, pos + 1, moved, others);
        SparesTwice(old(storage.mem), m, storage.mem, others);
        SettlesOn(w, w1, Now());
      }
      ghost var w2 := Now();
      NowIs(this);
      LastOne(out.ring, ring[0]);
      MoveFirst(out, others);
      NowIs(this);
      RestSettles(w2, Now());
      SettlesOn(w, w2, Now());
      SuccessHasNoCause(w, Now());
      MakeCarried(w, out0, Now(), out.ring, moved, others);
    }

    /** The first bucket is read, with the other brigade looking on. */
    method ReadFirst(out: Brigade, ghost others: multiset<nat>) returns (st: Status, str: seq<Byte>)
      requires out != this && out.storage == storage && |ring| > 0
      requires Inv(Now(), others + Uses(out.ring)) && AllFit(storage.mem, out.ring) && AllFit(storage.mem, ring)
      modifies this, storage
      ensures Inv(Now(), others + Uses(out.ring)) && AllFit(storage.mem, out.ring) && AllFit(storage.mem, ring)
      ensures Spares(old(storage.mem), storage.mem, others)
      ensures Content(storage.mem, out.ring) == old(Content(storage.mem, out.ring))
      ensures Content(storage.mem, ring) == old(Content(storage.mem, ring))
      ensures st == Success ==> |ring| > 0 && Fits(storage.mem, ring[0]) && BytesOf(storage.mem, ring[0]) == str
      ensures st == Success ==> |str| == ring[0].length && (str != [] ==> Splittable(ring[0]))
      ensures st == Success ==> Load(storage.mem, ring[1..]) < Load(old(storage.mem), old(ring))
      ensures Settles(old(Now()), Now()) && Cause(st, old(Now()), Now())
    {
      ghost var w, outside := Now(), others + Uses(out.ring);
      assert w.ring[0..] == w.ring;
      hide *;
      NowIs(this);
      st, str := Read(0, outside);
      NowIs(this);
      Undisturbed(w, Now(), others, out.ring);
      ReadCause(w, Now(), st, str, outside);
      if st == Success {
        AfterRead(w, Now(), st, str, outside);
      }
    }

    /** The front of the first bucket becomes a bucket of its own. */
    method SplitFirst(out: Brigade, point: nat, ghost front: seq<Byte>, ghost others: multiset<nat>)
      requires out != this && out.storage == storage && |ring| > 0
      requires Inv(Now(), others + Uses(out.ring)) && AllFit(storage.mem, out.ring) && AllFit(storage.mem, ring)
      requires Fits(storage.mem, ring[0]) && Splittable(ring[0])
      requires point == |front| <= ring[0].length && front <= BytesOf(storage.mem, ring[0])
      modifies this, storage
      ensures Inv(Now(), others + Uses(out.ring)) && AllFit(storage.mem, out.ring) && AllFit(storage.mem, ring)
      ensures Spares(old(storage.mem), storage.mem, others)
      ensures Content(storage.mem, out.ring) == old(Content(storage.mem, out.ring))
      ensures Content(storage.mem, ring) == old(Content(storage.mem, ring))
      ensures |ring| > 0 && Fits(storage.mem, ring[0]) && BytesOf(storage.mem, ring[0]) == front &&
              ring[0].length == point
      ensures Settles(old(Now()), Now())
    {
      ghost var w, outside := Now(), others + Uses(out.ring);
      SplitParts(w, point, outside);
      hide *;
      var st := Split(0, point, outside);
      Undisturbed(w, Now(), others, out.ring);
      SplitSettles(w, Now(), point, outside);
    }
  }

  /**
   Why a walk over buckets has ended with this status: the first bucket that is left cannot be read, or a file was
   too short.
   */
  predicate Cause(st: Status, w: World, w': World) {
    match st
    case Success => true
    case Failed => |w'.ring| > 0 && FromSystem(w'.ring[0])
    case Eof => !AllSolid(w.mem, w.ring)
    case _ => false
  }

  lemma ReadCause(w: World, w': World, st: Status, str: seq<Byte>, outside: multiset<nat>)
    requires |w.ring| > 0 && Fits(w.mem, w.ring[0]) && ReadStep(w, 0, w', st, str) && Keeps(w, w', outside)
    ensures Settles(w, w') && Cause(st, w, w')
  {
    hide Settles, ReadStep, Keeps, Fits, AllSolid, FromSystem;
    ReadStatus(w, 0, w', st, str, outside);
  }

  lemma SplitSettles(w: World, w': World, point: nat, outside: multiset<nat>)
    requires |w.ring| > 0 && w.ring[0].data in w.mem && w' == SplitAt(w, 0, point) && Keeps(w, w', outside)
    ensures Settles(w, w')
  {
    var e := w.ring[0];
    PutShape(w.ring, 0, [Front(e, point), Back(e, point)]);
    assert forall j :: 2 <= j < |w'.ring| ==> w'.ring[j] == w.ring[j - 1];
    hide SameContent, Spares, Inv, Adjust;
  }

  lemma SettlesOn(w: World, w': World, w'': World)
    requires Settles(w, w') && Settles(w', w'')
    ensures Settles(w, w'')
  {
    hide NoSystem, AllSolid;
  }

  lemma RestSettles(w: World, w': World)
    requires |w.ring| > 0 && w' == w.(ring := w.ring[1..])
    ensures Settles(w, w')
  {
    hide FromSystem, Solid;
    assert forall j :: 0 <= j < |w'.ring| ==> w'.ring[j] == w.ring[j + 1];
  }

  lemma SuccessHasNoCause(w: World, w': World)
    ensures Cause(Success, w, w')
  {
  }

  /** What has moved so far, and what is left. */
  ghost predicate LineSoFar(w0: World, out0: seq<Bucket>, w: World, out: seq<Bucket>, line: seq<Byte>, shorter: nat,
                            maxbytes: int, others: multiset<nat>)
  {
    Carried(w0, out0, w, out, line, others) && InTime(out0, out, |line|, shorter, maxbytes) && Settles(w0, w)
  }

  lemma LineOn(w0: World, out0: seq<Bucket>, w: World, out: seq<Bucket>, w': World, out': seq<Bucket>,
               line: seq<Byte>, moved: seq<Byte>, shorter: nat, st: Status, maxbytes: int, others: multiset<nat>)
    requires LineSoFar(w0, out0, w, out, line, shorter, maxbytes, others) && (|line| < maxbytes || line == [])
    requires Carried(w, out, w', out', moved, others) && Settles(w, w')
    requires if st == Success then LastIs(out', |moved|) else moved == [] && out' == out
    ensures LineSoFar(w0, out0, w', out', line + moved, if st == Success then |line| else shorter, maxbytes, others)
  {
    hide Carried, Settles, LastIs;
    CarriedOn(w0, out0, w, out, w', out', line, moved, others);
    SettlesOn(w0, w, w');
    if st == Success {
      MovedInTime(out0, out', |line|, |moved|, maxbytes);
    } else {
      assert line + moved == line;
    }
  }

  lemma LineEnds(w0: World, out0: seq<Bucket>, w: World, w': World, out: seq<Bucket>, line: seq<Byte>, shorter: nat,
                 st: Status, maxbytes: int, others: multiset<nat>)
    requires LineSoFar(w0, out0, w', out, line, shorter, maxbytes, others) && Settles(w0, w) && Cause(st, w, w')
    ensures AllFit(w0.mem, w0.ring) && AllFit(w0.mem, out0) && AllFit(w'.mem, w'.ring) && AllFit(w'.mem, out)
    ensures Spares(w0.mem, w'.mem, others) && Content(w'.mem, out) == Content(w0.mem, out0) + line
    ensures line + Content(w'.mem, w'.ring) == Content(w0.mem, w0.ring)
    ensures InTime(out0, out, |line|, shorter, maxbytes)
    ensures st == Success || (st == Failed && w'.ring != [] && FromSystem(w'.ring[0]))
            || (st == Eof && !AllSolid(w0.mem, w0.ring))
    ensures NoSystem(w0.ring) ==> st == Success
  {
    hide Spares, AllFit, Content, InTime;
  }

  predicate LastIs(ring: seq<Bucket>, length: int) {
    |ring| > 0 && ring[|ring| - 1].length == length
  }

  /** The last bucket was moved only because the ones before it were too short. */
  predicate InTime(before: seq<Bucket>, ring: seq<Bucket>, n: nat, shorter: nat, maxbytes: int) {
    && (shorter < maxbytes || shorter == 0)
    && ((ring == before && n == 0) || LastIs(ring, n - shorter))
  }

  lemma MovedInTime(before: seq<Bucket>, ring: seq<Bucket>, n: nat, k: nat, maxbytes: int)
    requires (n < maxbytes || n == 0) && LastIs(ring, k)
    ensures InTime(before, ring, n + k, n, maxbytes)
  {
  }

  lemma LastOne(ring: seq<Bucket>, b: Bucket)
    ensures LastIs(ring + [b], b.length)
  {
  }

  /** Out of the ring of w0 to the end of out0, the bytes of line have moved; other rings keep theirs. */
  ghost predicate Carried(w0: World, out0: seq<Bucket>, w: World, out: seq<Bucket>, line: seq<Byte>,
                          others: multiset<nat>) {
    && AllFit(w0.mem, w0.ring) && AllFit(w0.mem, out0) && AllFit(w.mem, w.ring) && AllFit(w.mem, out)
    && Spares(w0.mem, w.mem, others)
    && Content(w.mem, out) == Content(w0.mem, out0) + line && line + Content(w.mem, w.ring) == Content(w0.mem, w0.ring)
  }

  lemma MakeCarried(w0: World, out0: seq<Bucket>, w: World, out: seq<Bucket>, line: seq<Byte>, others: multiset<nat>)
    requires AllFit(w0.mem, w0.ring) && AllFit(w0.mem, out0) && AllFit(w.mem, w.ring) && AllFit(w.mem, out)
    requires Spares(w0.mem, w.mem, others)
    requires Content(w.mem, out) == Content(w0.mem, out0) + line &&
             line + Content(w.mem, w.ring) == Content(w0.mem, w0.ring)
    ensures Carried(w0, out0, w, out, line, others)
  {
  }

  lemma CarriedOn(w0: World, out0: seq<Bucket>, w: World, out: seq<Bucket>, w': World, out': seq<Bucket>,
                  line: seq<Byte>, moved: seq<Byte>, others: multiset<nat>)
    requires Carried(w0, out0, w, out, line, others) && Carried(w, out, w', out', moved, others)
    ensures Carried(w0, out0, w', out', line + moved, others)
  {
    hide AllFit, Content, Spares;
    SparesTwice(w0.mem, w.mem, w'.mem, others);
  }

  /** A line grows by bytes of which only the last can be a line feed. */
  lemma LineGrows(line: seq<Byte>, moved: seq<Byte>)
    requires LF !in line
    ensures LF !in moved ==> LF !in line + moved
    ensures moved != [] && LF !in moved[..|moved| - 1] ==> LF !in (line + moved)[..|line + moved| - 1]
    ensures moved == [] ==> line + moved == line
    ensures moved != [] ==> (line + moved)[|line + moved| - 1] == moved[|moved| - 1]
  {
    if moved != [] {
      assert (line + moved)[..|line + moved| - 1] == line + moved[..|moved| - 1];
    }
  }

  lemma AfterRead(w: World, w': World, st: Status, str: seq<Byte>, outside: multiset<nat>)
    requires |w.ring| > 0 && Fits(w.mem, w.ring[0]) && ReadShape(w, 0, w', st, str) && st == Success
    requires Load(w'.mem, w'.ring[1..]) < Load(w.mem, w.ring[0..]) && w.ring[0..] == w.ring
    ensures |w'.ring| > 0 && Fits(w'.mem, w'.ring[0]) && BytesOf(w'.mem, w'.ring[0]) == str &&
            w'.ring[0].length == |str|
    ensures str != [] ==> Splittable(w'.ring[0])
    ensures Load(w'.mem, w'.ring[1..]) < Load(w.mem, w.ring)
  {
  }

  /**
   The outcome: the buckets before `after` have exactly the length asked for, or all are too short, or a pipe fails.
   */
  predicate Partitioned(point: int, st: Status, ring: seq<Bucket>, after: nat)
    requires after <= |ring|
  {
    match st
    case Einval => point < 0
    case Success => point >= 0 && Known(ring[..after]) && Total(ring[..after]) == point
    case Incomplete => after == |ring| && Known(ring) && 0 <= Total(ring) < point
    case Failed => after < |ring| && ring[after].kind == PIPE && Known(ring[..after]) &&
      0 <= Total(ring[..after]) < point
    case _ => false
  }

  /** The buckets before i leave so much of the point. */
  predicate Passed(ring: seq<Bucket>, i: nat, point: int, left: int)
    requires i <= |ring|
  {
    Known(ring[..i]) && Total(ring[..i]) == point - left >= 0 && left > 0
  }

  lemma PartitionStarts(ring: seq<Bucket>, point: int)
    ensures point < 0 ==> Partitioned(point, Einval, ring, 0)
    ensures point == 0 ==> Partitioned(point, Success, ring, 0)
    ensures point > 0 ==> Passed(ring, 0, point, point)
  {
  }

  lemma PassOne(before: seq<Bucket>, ring: seq<Bucket>, i: nat, point: int, left: int, done: bool, st: Status)
    requires i < |before| && i < |ring| && ring[..i] == before[..i] && Passed(before, i, point, left) && left > 0
    requires done && st == Success ==> ring[i].kind != PIPE && ring[i].length == left
    requires done && st != Success ==> st == Failed && ring[i].kind == PIPE
    requires !done ==> ring[i].kind != PIPE && 0 <= ring[i].length < left
    ensures if !done then Passed(ring, i + 1, point, left - ring[i].length)
            else if st == Success then Partitioned(point, st, ring, i + 1) else Partitioned(point, st, ring, i)
  {
    TotalStep(ring, i);
  }

  lemma PassedAll(ring: seq<Bucket>, point: int, left: int)
    requires Passed(ring, |ring|, point, left)
    ensures Partitioned(point, Incomplete, ring, |ring|)
  {
    assert ring[..|ring|] == ring;
  }

  predicate IsPrefix(s: seq<Byte>, n: int, t: seq<Byte>) {
    0 <= n <= |t| && s == t[..n]
  }

  /** What the lengths before the cut say about the bytes. */
  lemma PartitionDone(w: World, w': World, after: nat, st: Status, point: int, outside: multiset<nat>)
    requires AllFit(w.mem, w.ring) && Keeps(w, w', outside) && after <= |w'.ring| &&
             Partitioned(point, st, w'.ring, after)
    ensures AllFit(w'.mem, w'.ring[..after])
    ensures st == Success && AllSolid(w.mem, w.ring) ==>
              IsPrefix(Content(w'.mem, w'.ring[..after]), point, Content(w.mem, w.ring))
    ensures st == Incomplete ==> |Content(w.mem, w.ring)| < point
  {
    if st == Success && AllSolid(w.mem, w.ring) {
      CutAt(w'.mem, w'.ring, after);
    }
    if st == Incomplete {
      TotalIsSize(w'.mem, w'.ring);
    }
  }

  /** Another ring on the memory is not disturbed. */
  lemma Undisturbed(w: World, w': World, others: multiset<nat>, ring: seq<Bucket>)
    requires Keeps(w, w', others + Uses(ring)) && AllFit(w.mem, ring)
    ensures Inv(w', others + Uses(ring)) && AllFit(w'.mem, w'.ring) && AllFit(w'.mem, ring)
    ensures Content(w'.mem, ring) == Content(w.mem, ring) && Spares(w.mem, w'.mem, others)
    ensures AllFit(w.mem, w.ring) ==> Content(w'.mem, w'.ring) == Content(w.mem, w.ring)
  {
    hide Fits, Spares, Exact, Content, Uses;
    SparesFewer(w.mem, w'.mem, others + Uses(ring), others);
    SparedRing(w.mem, w'.mem, others + Uses(ring), ring);
  }

  /** The first bucket after a split at the front. */
  lemma SplitParts(w: World, point: nat, outside: multiset<nat>)
    requires Inv(w, outside) && |w.ring| > 0 && Fits(w.mem, w.ring[0])
    requires Splittable(w.ring[0]) && point <= w.ring[0].length && point <= |BytesOf(w.mem, w.ring[0])|
    ensures w.ring[0].data in w.mem
    ensures |SplitAt(w, 0, point).ring| > 0 && SplitAt(w, 0, point).ring[0].length == point
    ensures Fits(SplitAt(w, 0, point).mem, SplitAt(w, 0, point).ring[0])
    ensures BytesOf(SplitAt(w, 0, point).mem, SplitAt(w, 0, point).ring[0]) == BytesOf(w.mem, w.ring[0])[..point]
  {
    var e := w.ring[0];
    HalvesFit(w.mem, e, point);
    PutShape(w.ring, 0, [Front(e, point), Back(e, point)]);
    OwnUse(w, 0, outside);
    var ids := multiset{e.data};
    AdjustUp(w.mem, e.data, Rest(w, 0) + outside + ids);
    SparesAlike(w.mem, SplitAt(w, 0, point).mem, ids);
    SparedBucket(w.mem, SplitAt(w, 0, point).mem, ids, Front(e, point));
  }

  lemma KindTells(w: World, i: nat, outside: multiset<nat>)
    requires Inv(w, outside) && i < |w.ring|
    ensures if w.ring[i].kind == PIPE then w.ring[i].length == -1 else w.ring[i].length >= 0
    ensures w.ring[i].kind == META ==> w.ring[i].length == 0
  {
    assert Fits(w.mem, w.ring[i]);
  }

  lemma KeepsOn(w: World, w': World, w'': World, outside: multiset<nat>)
    requires AllFit(w.mem, w.ring) && Keeps(w, w', outside) && Keeps(w', w'', outside)
    ensures Keeps(w, w'', outside) && Inv(w'', outside)
  {
    KeepsTwice(w, w', w'', outside);
    KeepsInv(w, w'', outside);
  }

  lemma KeepsInv(w: World, w': World, outside: multiset<nat>)
    requires Keeps(w, w', outside)
    ensures Inv(w', outside)
  {
  }

  /** The first position of c in s, or the length. */
  method Memchr(s: seq<Byte>, c: Byte) returns (k: nat)
    ensures k <= |s| && c !in s[..k] && (k < |s| ==> s[k] == c)
  {
    k := 0;
    while k < |s| && s[k] != c
      invariant k <= |s| && c !in s[..k]
    {
      k := k + 1;
    }
  }

  /** What is counted is pointed at; with an empty ring, from outside. */
  lemma OnlyOutside(w: World, outside: multiset<nat>)
    requires Inv(w, outside) && w.ring == []
    ensures forall id :: id in w.mem && Counted(w.mem[id]) ==> outside[id] > 0
  {
    assert Uses(w.ring) == multiset{};
    forall id | id in w.mem && Counted(w.mem[id])
      ensures outside[id] > 0
    {
      assert Balanced(w.mem[id], (multiset{} + outside)[id]);
    }
  }

  lemma NowIs(b: Brigade)
    ensures b.Now() == World(b.storage.mem, b.storage.next, b.ring)
  {
  }
}
