/**
 The bounded queue's shared state and its critical sections: what one thread does
 between taking the mutex and releasing it or waiting on a condition variable.
 */
module QueueBuffer {
  import opened Basics

  /** The state under the mutex; the waiter counts are the queue's own. */
  datatype Core<T> = Core(contents: seq<T>, bounds: nat, fullWaiters: nat, emptyWaiters: nat, terminated: bool)

  /** How a critical section ends: the waiters of the other side are signalled or not, or the thread waits. */
  datatype Outcome<T> = Pushed(signal: bool) | Popped(x: T, signal: bool) | Wait | Interrupted | Eof | Again

  function Full<T>(c: Core<T>): bool {
    |c.contents| == c.bounds
  }

  /** A push that has room stores its element and signals if consumers wait. */
  function Store<T>(c: Core<T>, x: T): Core<T> {
    c.(contents := c.contents + [x])
  }

  // The flag is also read without the mutex, on entry and after a section that found the queue full or empty. What is
  // read there is `seen`: on entry true only if the queue is terminated, and afterwards true if it was in the section.

  /** What is reported when the queue is still full or empty */
  function Ended<T>(seen: bool): Outcome<T> {
    if seen then Eof else Interrupted
  }

  /** apr_queue_push up to the unlock or the wait. */
  function PushBegin<T>(c: Core<T>, x: T, seen: bool): (r: (Core<T>, Outcome<T>)) {
    if seen then (c, Eof)
    else if Full(c) then
      if c.terminated then (c, Eof) else (c.(fullWaiters := c.fullWaiters + 1), Wait)
    else (Store(c, x), Pushed(c.emptyWaiters > 0))
  }

  /** apr_queue_push after the wait. */
  function PushResume<T>(c: Core<T>, x: T, seen: bool): (r: (Core<T>, Outcome<T>))
    requires c.fullWaiters > 0
  {
    var c' := c.(fullWaiters := c.fullWaiters - 1);
    if Full(c') then (c', Ended(seen)) else (Store(c', x), Pushed(c'.emptyWaiters > 0))
  }

  function TryPush<T>(c: Core<T>, x: T, seen: bool): (r: (Core<T>, Outcome<T>)) {
    if seen then (c, Eof) else if Full(c) then (c, Again) else (Store(c, x), Pushed(c.emptyWaiters > 0))
  }

  function PopBegin<T>(c: Core<T>, seen: bool): (r: (Core<T>, Outcome<T>)) {
    if seen then (c, Eof)
    else if |c.contents| == 0 then
      if c.terminated then (c, Eof) else (c.(emptyWaiters := c.emptyWaiters + 1), Wait)
    else (c.(contents := c.contents[1..]), Popped(c.contents[0], c.fullWaiters > 0))
  }

  function PopResume<T>(c: Core<T>, seen: bool): (r: (Core<T>, Outcome<T>))
    requires c.emptyWaiters > 0
  {
    var c' := c.(emptyWaiters := c.emptyWaiters - 1);
    if |c'.contents| == 0 then (c', Ended(seen))
    else (c'.(contents := c'.contents[1..]), Popped(c'.contents[0], c'.fullWaiters > 0))
  }

  function TryPop<T>(c: Core<T>, seen: bool): (r: (Core<T>, Outcome<T>)) {
    if seen then (c, Eof)
    else if |c.contents| == 0 then (c, Again)
    else (c.(contents := c.contents[1..]), Popped(c.contents[0], c.fullWaiters > 0))
  }

  /** The queue itself: a circular buffer and the counters. */
  class Queue<T(0)> {
    const data: array<T>
    var nelts: nat
    var in_: nat
    var out_: nat
    const bounds: nat
    var fullWaiters: nat
    var emptyWaiters: nat
    var terminated: bool

    /** The elements stand at out, out + 1, ... around the buffer, and in is the slot after the last. */
    ghost predicate Valid()
      reads this, data
    {
      && data.Length == bounds && nelts <= bounds
      && (bounds > 0 ==> in_ < bounds && out_ < bounds && in_ == Slot(nelts))
    }

    /** The slot of the i-th element. */
    function Slot(i: nat): nat
      requires bounds > 0
      reads this
    {
      Around(out_, i, bounds)
    }

    ghost function Contents(): seq<T>
      requires Valid()
      reads this, data
    {
      seq(nelts, i requires 0 <= i < nelts reads this, data requires Valid() => data[Slot(i)])
    }

    ghost function Abs(): Core<T>
      requires Valid()
      reads this, data
    {
      Core(Contents(), bounds, fullWaiters, emptyWaiters, terminated)
    }

    /** apr_queue_create */
    constructor (capacity: nat)
      ensures Valid() && fresh(data) && Abs() == Core([], capacity, 0, 0, false)
    {
      data := new T[capacity];
      bounds := capacity;
      nelts, in_, out_, fullWaiters, emptyWaiters, terminated := 0, 0, 0, 0, 0, false;
    }

    method Put(x: T)
      requires Valid() && nelts < bounds
      modifies this`nelts, this`in_, data
      ensures Valid() && Abs() == Store(old(Abs()), x)
    {
      ghost var before := Contents();
      forall i | 0 <= i < nelts ensures Slot(i) != in_ {
        SlotsDistinct(out_, bounds, nelts, i);
      }
      NextSlot(out_, nelts, bounds);
      hide Around;
      data[in_] := x;
      in_ := (in_ + 1) % bounds;
      nelts := nelts + 1;
      assert forall i :: 0 <= i < |before| ==> Contents()[i] == before[i];
      assert Contents() == before + [x];
    }

    method Take() returns (x: T)
      requires Valid() && nelts > 0
      modifies this`nelts, this`out_
      ensures Valid() && old(Contents()) == [x] + Contents()
      ensures nelts == old(nelts) - 1
    {
      ghost var before := Contents();
      FirstSlot(out_, bounds);
      x := data[out_];
      nelts := nelts - 1;
      ghost var o := out_;
      out_ := (out_ + 1) % bounds;
      forall i | 0 <= i <= nelts ensures Slot(i) == (o + (i + 1)) % bounds {
        ShiftSlot(o, i, bounds);
      }
      assert before[1..] == Contents();
      assert before == [before[0]] + before[1..];
    }

    /** apr_queue_push up to the unlock, or to the wait on not_full */
    method BeginPush(x: T, seen: bool) returns (r: Outcome<T>)
      requires Valid() && (seen ==> terminated)
      modifies this, data
      ensures Valid() && Abs() == PushBegin(old(Abs()), x, seen).0 && r == PushBegin(old(Abs()), x, seen).1
      ensures (r == Eof ==> terminated) && (r == Wait ==> !terminated && old(nelts) == bounds)
    {
      if seen {
        return Eof;
      }
      if nelts == bounds {
        if !terminated {
          fullWaiters := fullWaiters + 1;
          assert Contents() == old(Contents());
          return Wait;
        }
        return Eof;
      }
      Put(x);
      return Pushed(emptyWaiters > 0);
    }

    /** apr_queue_push from the end of the wait */
    method ResumePush(x: T, seen: bool) returns (r: Outcome<T>)
      requires Valid() && fullWaiters > 0 && (terminated ==> seen)
      modifies this, data
      ensures Valid() && Abs() == PushResume(old(Abs()), x, seen).0 && r == PushResume(old(Abs()), x, seen).1
      ensures (r == Eof <==> seen && old(nelts) == bounds) && (r == Interrupted <==> !seen && old(nelts) == bounds)
      ensures r == Interrupted ==> !terminated
    {
      fullWaiters := fullWaiters - 1;
      assert Contents() == old(Contents());
      if nelts == bounds {
        return if seen then Eof else Interrupted;
      }
      Put(x);
      return Pushed(emptyWaiters > 0);
    }

    /** apr_queue_trypush */
    method NoWaitPush(x: T, seen: bool) returns (r: Outcome<T>)
      requires Valid() && (seen ==> terminated)
      modifies this, data
      ensures Valid() && Abs() == TryPush(old(Abs()), x, seen).0 && r == TryPush(old(Abs()), x, seen).1
    {
      if seen {
        return Eof;
      }
      if nelts == bounds {
        return Again;
      }
      Put(x);
      return Pushed(emptyWaiters > 0);
    }

    /** apr_queue_pop up to the unlock, or to the wait on not_empty */
    method BeginPop(seen: bool) returns (r: Outcome<T>)
      requires Valid() && (seen ==> terminated)
      modifies this
      ensures Valid() && Abs() == PopBegin(old(Abs()), seen).0 && r == PopBegin(old(Abs()), seen).1
      ensures (r == Eof ==> terminated) && (r == Wait ==> !terminated && old(nelts) == 0)
    {
      if seen {
        return Eof;
      }
      if nelts == 0 {
        if !terminated {
          emptyWaiters := emptyWaiters + 1;
          assert Contents() == old(Contents());
          return Wait;
        }
        return Eof;
      }
      var x := Take();
      return Popped(x, fullWaiters > 0);
    }

    /** apr_queue_pop from the end of the wait */
    method ResumePop(seen: bool) returns (r: Outcome<T>)
      requires Valid() && emptyWaiters > 0 && (terminated ==> seen)
      modifies this
      ensures Valid() && Abs() == PopResume(old(Abs()), seen).0 && r == PopResume(old(Abs()), seen).1
      ensures (r == Eof <==> seen && old(nelts) == 0) && (r == Interrupted <==> !seen && old(nelts) == 0)
      ensures r == Interrupted ==> !terminated
    {
      emptyWaiters := emptyWaiters - 1;
      assert Contents() == old(Contents());
      if nelts == 0 {
        return if seen then Eof else Interrupted;
      }
      var x := Take();
      return Popped(x, fullWaiters > 0);
    }

    /** apr_queue_trypop */
    method NoWaitPop(seen: bool) returns (r: Outcome<T>)
      requires Valid() && (seen ==> terminated)
      modifies this
      ensures Valid() && Abs() == TryPop(old(Abs()), seen).0 && r == TryPop(old(Abs()), seen).1
    {
      if seen {
        return Eof;
      }
      if nelts == 0 {
        return Again;
      }
      var x := Take();
      return Popped(x, fullWaiters > 0);
    }

    /** the first section of apr_queue_term */
    method Terminate()
      requires Valid()
      modifies this`terminated
      ensures Valid() && Abs() == old(Abs()).(terminated := true)
    {
      terminated := true;
    }
  }

  /** The slot that is i slots behind `out` */
  function Around(out: nat, i: nat, bounds: nat): (k: nat)
    requires bounds > 0
    ensures k < bounds
  {
    (out + i) % bounds
  }

  lemma FirstSlot(out: nat, bounds: nat)
    requires out < bounds
    ensures (out + 0) % bounds == out
  {
  }

  lemma NextSlot(out: nat, n: nat, bounds: nat)
    requires bounds > 0
    ensures (Around(out, n, bounds) + 1) % bounds == Around(out, n + 1, bounds)
  {
    ModSum(out + n, 1, bounds);
  }

  lemma ShiftSlot(out: nat, i: nat, bounds: nat)
    requires bounds > 0
    ensures ((out + 1) % bounds + i) % bounds == (out + (i + 1)) % bounds
  {
    ModSum(out + 1, i, bounds);
  }

  /** An element's slot is not the slot after the last element. */
  lemma SlotsDistinct(out: nat, bounds: nat, n: nat, i: nat)
    requires out < bounds && i < n < bounds
    ensures (out + i) % bounds != (out + n) % bounds
  {
    if out + n < bounds {
      DivModUnique(out + n, bounds, 0, out + n);
      DivModUnique(out + i, bounds, 0, out + i);
    } else {
      DivModUnique(out + n, bounds, 1, out + n - bounds);
      if out + i < bounds {
        DivModUnique(out + i, bounds, 0, out + i);
      } else {
        DivModUnique(out + i, bounds, 1, out + i - bounds);
      }
    }
  }
}
