/**
 The resource pool: the critical sections of acquire, release, invalidate, the maintenance pass and the cleanup. Each
 runs under the list's mutex, so an interleaving of threads is a sequence of these methods, each a step of the pool.
 */
module Reslist {
  import opened ReslistSteps

  datatype Option<T> = None | Some(value: T)
  datatype Acquired<R> = Got(r: R) | MustWait | TimedOut | Failed
  datatype Status = Success | Error

  ghost predicate Monotone(clock: nat -> int) {
    forall i: nat, j: nat :: i <= j ==> clock(i) <= clock(j)
  }

  /** The newest of the entries holds what the last of these calls of the constructor has given. */
  ghost predicate MadeBy<R>(entries: seq<Entry<R>>, from: nat, make: nat -> Option<R>) {
    forall i :: 0 <= i < |entries| ==> make(from + |entries| - 1 - i) == Some(entries[i].opaque_)
  }

  /** The destructor was called n times, and each time but the last it succeeded. */
  ghost predicate DestroyedBy(from: nat, n: nat, to: nat, destroy: nat -> bool) {
    to == from + n && forall i :: from <= i && i + 1 < to ==> destroy(i)
  }

  lemma MadeOneMore<R>(entries: seq<Entry<R>>, e: Entry<R>, from: nat, make: nat -> Option<R>)
    requires MadeBy(entries, from, make) && make(from + |entries|) == Some(e.opaque_)
    ensures MadeBy([e] + entries, from, make)
  {
    var all := [e] + entries;
    assert forall i :: 0 < i < |all| ==> all[i] == entries[i - 1];
  }

  lemma LastMade<R>(entries: seq<Entry<R>>, from: nat, make: nat -> Option<R>)
    requires MadeBy(entries, from, make) && |entries| > 0
    ensures make(from + |entries| - 1).Some?
  {
    assert make(from + |entries| - 1 - 0) == Some(entries[0].opaque_);
  }

  class ResList<R> {
    const limits: Limits
    const clock: nat -> int         // the i-th reading of apr_time_now
    const make: nat -> Option<R>    // what the i-th call of the constructor gives
    const destroy: nat -> bool      // whether the i-th call of the destructor succeeds
    var ticks: nat
    var made: nat
    var destroyed: nat
    var avail: seq<Entry<R>>
    var nidle: int
    var ntotal: int
    var signals: nat                // how often a waiter has been signalled
    ghost var out: multiset<R>      // the resources in the hands of callers

    ghost function Now(): Pool<R>
      reads this
    {
      Pool(avail, out, ntotal, clock(ticks))
    }

    ghost predicate Valid()
      reads this
    {
      && limits.min <= limits.smax <= limits.hmax && limits.ttl >= 0 && Monotone(clock)
      && nidle == |avail| && Inv(limits, Now())
    }

    constructor (limits: Limits, clock: nat -> int, make: nat -> Option<R>, destroy: nat -> bool)
      requires limits.min <= limits.smax && limits.min <= limits.hmax && limits.smax <= limits.hmax && limits.ttl >= 0
      requires Monotone(clock)
      ensures Valid() && avail == [] && out == multiset{} && signals == 0
    {
      this.limits, this.clock, this.make, this.destroy := limits, clock, make, destroy;
      ticks, made, destroyed, avail, nidle, ntotal, signals, out := 0, 0, 0, [], 0, 0, 0, multiset{};
    }

    /** pop_resource */
    method PopResource() returns (r: R)
      requires nidle > 0 && |avail| > 0
      modifies this`avail, this`nidle
      ensures r == old(avail)[0].opaque_ && avail == old(avail)[1..] && nidle == old(nidle) - 1
    {
      r := avail[0].opaque_;
      avail := avail[1..];
      nidle := nidle - 1;
    }

    /** push_resource */
    method PushResource(r: R)
      requires Monotone(clock)
      modifies this`avail, this`nidle, this`ticks
      ensures avail == [Entry(r, clock(old(ticks)))] + old(avail) && nidle == old(nidle) + 1 && ticks == old(ticks) + 1
    {
      avail := [Entry(r, clock(ticks))] + avail;
      ticks := ticks + 1;
      nidle := nidle + 1;
    }

    /** apr_reslist_acquire from the lock, or from a wakeup that may be a timeout, to the unlock or the wait */
    method Acquire(timedOut: bool) returns (r: Acquired<R>)
      requires Valid()
      modifies this
      ensures Valid() && signals == old(signals) && destroyed == old(destroyed)
      ensures made == old(made) + if timedOut || old(nidle) > 0 || old(ntotal) >= limits.hmax then 0 else 1
      ensures timedOut ==> r == TimedOut
      ensures !timedOut && old(nidle) > 0 ==> r == Got(old(avail)[0].opaque_)
      ensures !timedOut && old(nidle) == 0 && old(ntotal) >= limits.hmax ==> r == MustWait
      ensures !timedOut && old(nidle) == 0 && old(ntotal) < limits.hmax ==>
                r == match make(old(made)) case Some(x) => Got(x) case None => Failed
      ensures Next(limits, old(Now()),
                   match r
                   case Got(x) => if old(nidle) > 0 then TakesIdle(x) else Makes(x)
                   case _ => TakesNothing,
                   Now())
    {
      ghost var before := Now();
      if timedOut {
        return TimedOut;
      }
      if nidle > 0 {
        var x := PopResource();
        out := out + multiset{x};
        StepKeepsInv(limits, before, TakesIdle(x), Now());
        return Got(x);
      }
      if ntotal >= limits.hmax {
        return MustWait;
      }
      var c := make(made);
      made := made + 1;
      match c {
        case None => return Failed;
        case Some(x) =>
          ntotal := ntotal + 1;
          out := out + multiset{x};
          StepKeepsInv(limits, before, Makes(x), Now());
          return Got(x);
      }
    }

    /** apr_reslist_release up to the unlock; a waiter is signalled, and a maintenance pass follows */
    method Release(r: R)
      requires Valid() && r in out
      modifies this
      ensures Valid() && Next(limits, old(Now()), Releases(r, clock(old(ticks))), Now()) && signals == old(signals) + 1
      ensures made == old(made) && destroyed == old(destroyed)
    {
      ghost var before := Now();
      PushResource(r);
      out := out - multiset{r};
      signals := signals + 1;
      StepKeepsInv(limits, before, Releases(r, clock(old(ticks))), Now());
    }

    /** apr_reslist_invalidate: the caller's resource is destroyed, and nobody is signalled */
    method Invalidate(r: R) returns (s: Status)
      requires Valid() && r in out
      modifies this
      ensures Valid() && Next(limits, old(Now()), Invalidates(r), Now()) && signals == old(signals)
      ensures made == old(made) && destroyed == old(destroyed) + 1 && (s == Success <==> destroy(old(destroyed)))
    {
      ghost var before := Now();
      s := if destroy(destroyed) then Success else Error;
      destroyed := destroyed + 1;
      ntotal := ntotal - 1;
      out := out - multiset{r};
      StepKeepsInv(limits, before, Invalidates(r), Now());
    }

    /**
     reslist_maint. It either creates resources up to min, as far as hmax allows, or expires idle ones, the longest
     idle first; each creation signals a waiter. It goes on until a constructor or a destructor fails, and reports that.
     */
    method Maint() returns (s: Status, created: nat, ghost gone: seq<Entry<R>>)
      requires Valid()
      modifies this
      ensures Valid() && created <= |avail| && signals == old(signals) + created
      ensures Next(limits, old(Now()),
                   if created > 0 then Creates(avail[..created]) else Expires(gone, clock(old(ticks))), Now())
      ensures MadeBy(avail[..created], old(made), make) && DestroyedBy(old(destroyed), |gone|, destroyed, destroy)
      ensures made == old(made) + created + if made > old(made) && make(made - 1).None? then 1 else 0
      ensures s == Error <==> || (made > old(made) && make(made - 1).None?)
                              || (gone != [] && !destroy(destroyed - 1))
      ensures s == Success ==> nidle >= limits.min || ntotal >= limits.hmax || created == 0
      ensures old(nidle) < limits.min && old(ntotal) < limits.hmax ==> gone == [] && (s == Success ==> created > 0)
      ensures created == 0 && s == Success ==>
                || nidle <= limits.smax
                || forall i :: 0 <= i < |avail| ==> clock(old(ticks)) - avail[i].freed < limits.ttl
    {
      hide NewestFirst, Between, AllOld, Ordered, Next, Inv;
      gone := [];
      NothingGone(limits, Now(), Now());
      s, created := Create();
      if created == 0 && s == Success {
        s, gone := Expire();
      }
    }

    /** the first loop of reslist_maint */
    method Create() returns (s: Status, created: nat)
      requires Valid()
      modifies this
      ensures Valid() && created <= |avail| && signals == old(signals) + created && destroyed == old(destroyed)
      ensures Next(limits, old(Now()), Creates(avail[..created]), Now()) && MadeBy(avail[..created], old(made), make)
      ensures made == old(made) + created + if s == Error then 1 else 0
      ensures if s == Error then make(made - 1).None? else nidle >= limits.min || ntotal >= limits.hmax
      ensures s == Success && created > 0 ==> make(made - 1).Some?
      ensures created == 0 ==> Now() == old(Now()) && ticks == old(ticks)
      ensures created == 0 && s == Success ==> old(nidle) >= limits.min || old(ntotal) >= limits.hmax
    {
      ghost var before := Now();
      created := 0;
      assert avail[..created] == [];
      NothingMade(limits, before);
      assert MadeBy(avail[..created], made, make);
      hide NewestFirst, Between, AllOld, Ordered, Next, Inv, MadeBy;
      while nidle < limits.min && ntotal < limits.hmax
        invariant Valid() && created <= |avail| && Next(limits, before, Creates(avail[..created]), Now())
        invariant created == 0 ==> Now() == before && ticks == old(ticks) && nidle == old(nidle)
        invariant signals == old(signals) + created && made == old(made) + created && destroyed == old(destroyed)
        invariant MadeBy(avail[..created], old(made), make)
        decreases limits.hmax - ntotal
      {
        var c := make(made);
        made := made + 1;
        if c.None? {
          return Error, created;
        }
        CreateIdle(c.value, before, created, old(made));
        created := created + 1;
      }
      if created > 0 {
        LastMade(avail[..created], old(made), make);
      }
      s := Success;
    }

    method CreateIdle(r: R, ghost before: Pool<R>, ghost created: nat, ghost from: nat)
      requires Valid() && nidle < limits.min && ntotal < limits.hmax
      requires created <= |avail| && Next(limits, before, Creates(avail[..created]), Now())
      requires MadeBy(avail[..created], from, make) && make(from + created) == Some(r)
      modifies this`avail, this`nidle, this`ntotal, this`ticks, this`signals
      ensures Valid() && |avail| == old(|avail|) + 1 && ntotal == old(ntotal) + 1 && signals == old(signals) + 1
      ensures Next(limits, before, Creates(avail[..created + 1]), Now())
      ensures MadeBy(avail[..created + 1], from, make) && nidle == old(nidle) + 1
    {
      ghost var some, now := avail[..created], Now();
      PushResource(r);
      ntotal := ntotal + 1;
      signals := signals + 1;
      assert avail[..created + 1] == [avail[0]] + some;
      MadeOneMore(some, avail[0], from, make);
      OneMore(limits, before, some, now, avail[0], Now());
    }

    /** the second loop of reslist_maint */
    method Expire() returns (s: Status, ghost gone: seq<Entry<R>>)
      requires Valid()
      modifies this
      ensures Valid() && Next(limits, old(Now()), Expires(gone, clock(old(ticks))), Now()) && signals == old(signals)
      ensures made == old(made) && DestroyedBy(old(destroyed), |gone|, destroyed, destroy)
      ensures s == Error <==> gone != [] && !destroy(destroyed - 1)
      ensures s == Success ==>
                || nidle <= limits.smax
                || forall i :: 0 <= i < |avail| ==> clock(old(ticks)) - avail[i].freed < limits.ttl
    {
      var now := clock(ticks);
      ghost var before := Now();
      ticks := ticks + 1;
      gone := [];
      hide Next, Inv;
      NothingGone(limits, before, Now());
      while nidle > limits.smax && nidle > 0
        invariant Valid() && Next(limits, before, Expires(gone, now), Now()) && signals == old(signals)
        invariant made == old(made) && destroyed == old(destroyed) + |gone|
        invariant forall i :: old(destroyed) <= i < destroyed ==> destroy(i)
        decreases nidle
      {
        var last := avail[|avail| - 1];
        if now - last.freed < limits.ttl {
          AllYoung(limits, Now(), now);
          return Success, gone;
        }
        gone := RemoveLast(now, before, gone);
        var ok := destroy(destroyed);
        destroyed := destroyed + 1;
        if !ok {
          return Error, gone;
        }
      }
      s := Success;
    }

    /** The last entry, which is old enough, leaves the list. */
    method RemoveLast(now: int, ghost before: Pool<R>, ghost gone: seq<Entry<R>>) returns (ghost more: seq<Entry<R>>)
      requires Valid() && nidle > limits.smax && nidle > 0 && now - avail[|avail| - 1].freed >= limits.ttl
      requires Next(limits, before, Expires(gone, now), Now())
      modifies this`avail, this`nidle, this`ntotal
      ensures Valid() && nidle == old(nidle) - 1 && Next(limits, before, Expires(more, now), Now())
      ensures |more| == |gone| + 1
    {
      hide Next, Inv;
      ghost var p, last := Now(), avail[|avail| - 1];
      avail := avail[..|avail| - 1];
      nidle := nidle - 1;
      ntotal := ntotal - 1;
      assert p.avail == avail + [last];
      OneGone(limits, before, gone, now, p, last, Now());
      more := [last] + gone;
    }

    /** reslist_cleanup: everything idle is destroyed, so nothing is left exactly when nothing is checked out */
    method Cleanup() returns (s: Status, ghost gone: seq<Entry<R>>)
      requires Valid()
      modifies this
      ensures Valid() && Next(limits, old(Now()), Destroys(gone), Now()) && signals == old(signals)
      ensures made == old(made) && DestroyedBy(old(destroyed), |gone|, destroyed, destroy)
      ensures s == Error <==> gone != [] && !destroy(destroyed - 1)
      ensures s == Success ==> nidle == 0 && gone == old(avail) && (ntotal == 0 <==> out == multiset{})
    {
      ghost var before := Now();
      gone := [];
      hide Next, Inv;
      NothingDestroyed(limits, before);
      while nidle > 0
        invariant Valid() && Next(limits, before, Destroys(gone), Now()) && signals == old(signals)
        invariant made == old(made) && destroyed == old(destroyed) + |gone|
        invariant forall i :: old(destroyed) <= i < destroyed ==> destroy(i)
        decreases nidle
      {
        ghost var first, p := avail[0], Now();
        var r := PopResource();
        ntotal := ntotal - 1;
        OneDestroyed(limits, before, gone, p, first, Now());
        gone := gone + [first];
        var ok := destroy(destroyed);
        destroyed := destroyed + 1;
        if !ok {
          return Error, gone;
        }
      }
      AllDestroyed(limits, before, gone, Now());
      s := Success;
    }
  }

  lemma NothingMade<R>(limits: Limits, p: Pool<R>)
    ensures Next(limits, p, Creates([]), p)
  {
    assert [] + p.avail == p.avail;
  }

  lemma NothingGone<R>(limits: Limits, p: Pool<R>, q: Pool<R>)
    requires q == p.(now := q.now) && p.now <= q.now && Inv(limits, p)
    ensures Next(limits, p, Expires([], p.now), q) && Inv(limits, q)
  {
    assert p.avail + [] == p.avail;
  }

  lemma NothingDestroyed<R>(limits: Limits, p: Pool<R>)
    ensures Next(limits, p, Destroys([]), p)
  {
    assert [] + p.avail == p.avail;
  }

  /** Nothing in the list is older than its last entry. */
  lemma AllYoung<R>(limits: Limits, p: Pool<R>, now: int)
    requires Inv(limits, p) && |p.avail| > 0 && now - p.avail[|p.avail| - 1].freed < limits.ttl
    ensures forall i :: 0 <= i < |p.avail| ==> now - p.avail[i].freed < limits.ttl
  {
  }

  /** One more resource is created in the same pass. */
  lemma OneMore<R>(limits: Limits, p: Pool<R>, some: seq<Entry<R>>, now: Pool<R>, e: Entry<R>, q: Pool<R>)
    requires Next(limits, p, Creates(some), now) && Inv(limits, now)
    requires |now.avail| < limits.min && now.total < limits.hmax && now.now == e.freed <= q.now
    requires q == Pool([e] + now.avail, now.out, now.total + 1, q.now)
    ensures Next(limits, p, Creates([e] + some), q) && Inv(limits, q)
  {
    assert [e] + (some + p.avail) == [e] + some + p.avail;
    assert forall i :: 0 <= i < |some| ==> some[i] == now.avail[i];
    StepKeepsInv(limits, now, Creates([e]), q);
  }

  /** One more resource expires, the last of the list. */
  lemma OneGone<R>(limits: Limits, p: Pool<R>, gone: seq<Entry<R>>, t: int, now: Pool<R>, e: Entry<R>, q: Pool<R>)
    requires Next(limits, p, Expires(gone, t), now) && Inv(limits, now) && |now.avail| > limits.smax
    requires now.avail == q.avail + [e] && q == Pool(q.avail, now.out, now.total - 1, now.now) &&
             t - e.freed >= limits.ttl
    ensures Next(limits, p, Expires([e] + gone, t), q) && Inv(limits, q)
  {
    assert q.avail + [e] + gone == q.avail + ([e] + gone);
    OrderedPart(q.avail, [e], now.now, q.now);
  }

  /** One more resource is destroyed, the first of the list. */
  lemma OneDestroyed<R>(limits: Limits, p: Pool<R>, gone: seq<Entry<R>>, now: Pool<R>, e: Entry<R>, q: Pool<R>)
    requires Next(limits, p, Destroys(gone), now) && Inv(limits, now)
    requires now.avail == [e] + q.avail && q == Pool(q.avail, now.out, now.total - 1, now.now)
    ensures Next(limits, p, Destroys(gone + [e]), q) && Inv(limits, q)
  {
    assert gone + ([e] + q.avail) == gone + [e] + q.avail;
    OrderedPart([e], q.avail, now.now, q.now);
  }

  lemma AllDestroyed<R>(limits: Limits, p: Pool<R>, gone: seq<Entry<R>>, q: Pool<R>)
    requires Next(limits, p, Destroys(gone), q) && Inv(limits, q) && q.avail == []
    ensures gone == p.avail && (q.total == 0 <==> q.out == multiset{})
  {
  }
}
