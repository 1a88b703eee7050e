/**
 Threads over one bounded queue: every interleaving of the critical sections, with
 condition variables whose signal wakes at least one waiter and whose waiters may
 also wake for no reason.
 */
module QueueProtocol {
  import opened Basics
  import opened QueueBuffer

  type Tid = nat

  /** The threads inside cond_wait on one condition variable: asleep, signalled, or awake for no reason. */
  datatype Waiters = Waiters(parked: set<Tid>, signalled: set<Tid>, spurious: set<Tid>) {
    function All(): set<Tid> { parked + signalled + spurious }
    function Awake(): set<Tid> { signalled + spurious }
  }

  /** args holds the element of every producer that waits; pushed and popped are the history. */
  datatype State<T> = State(core: Core<T>, producers: Waiters, consumers: Waiters, args: map<Tid, T>,
                            drained: bool, pushed: seq<T>, popped: seq<T>)

  datatype Step<T> =
    | PushBegins(t: Tid, x: T, seen: bool, wake: set<Tid>)
    | PushResumes(t: Tid, seen: bool, wake: set<Tid>)
    | TryPushes(x: T, seen: bool, wake: set<Tid>)
    | PopBegins(t: Tid, seen: bool, wake: set<Tid>)
    | PopResumes(t: Tid, seen: bool, wake: set<Tid>)
    | TryPops(seen: bool, wake: set<Tid>)
    | Spurious(t: Tid)
    | SetsTerminated
    | InterruptsAll

  ghost predicate Init<T>(s: State<T>) {
    && s.core.contents == [] && s.core.fullWaiters == s.core.emptyWaiters == 0 && !s.core.terminated
    && s.producers == s.consumers == Waiters({}, {}, {}) && s.args == map[]
    && !s.drained && s.pushed == s.popped == []
  }

  /** A signal wakes at least one of the threads that are parked, if there are any. */
  predicate Wakes(w: Waiters, signal: bool, wake: set<Tid>) {
    wake <= w.parked && (if signal then w.parked != {} ==> wake != {} else wake == {})
  }

  function Woken(w: Waiters, wake: set<Tid>): Waiters {
    w.(parked := w.parked - wake, signalled := w.signalled + wake)
  }

  function Left(w: Waiters, t: Tid): Waiters {
    Waiters(w.parked - {t}, w.signalled - {t}, w.spurious - {t})
  }

  /** Everybody on the condition variable is signalled. */
  function Broadcast(w: Waiters): Waiters {
    Woken(w, w.parked)
  }

  /** A push section ended with outcome r: its element is in the history and a consumer may be woken. */
  ghost predicate AfterPush<T>(s: State<T>, c: Core<T>, r: Outcome<T>, x: T, wake: set<Tid>, s': State<T>) {
    if r.Pushed? then
      Wakes(s.consumers, r.signal, wake)
      && s' == s.(core := c, pushed := s.pushed + [x], consumers := Woken(s.consumers, wake))
    else s' == s.(core := c)
  }

  ghost predicate AfterPop<T>(s: State<T>, c: Core<T>, r: Outcome<T>, wake: set<Tid>, s': State<T>) {
    if r.Popped? then
      Wakes(s.producers, r.signal, wake)
      && s' == s.(core := c, popped := s.popped + [r.x], producers := Woken(s.producers, wake))
    else s' == s.(core := c)
  }

  ghost predicate PushBeginsTo<T>(s: State<T>, t: Tid, x: T, seen: bool, wake: set<Tid>, s': State<T>) {
    && t !in s.producers.All() && t !in s.consumers.All() && (seen ==> s.core.terminated)
    && var (c, r) := PushBegin(s.core, x, seen);
       if r.Wait? then
         s' == s.(core := c, producers := s.producers.(parked := s.producers.parked + {t}), args := s.args[t := x])
       else AfterPush(s, c, r, x, wake, s')
  }

  ghost predicate PushResumesTo<T>(s: State<T>, t: Tid, seen: bool, wake: set<Tid>, s': State<T>) {
    && t in s.producers.Awake() && t in s.args && s.core.fullWaiters > 0 && (s.core.terminated ==> seen)
    && var (c, r) := PushResume(s.core, s.args[t], seen);
       AfterPush(s.(producers := Left(s.producers, t), args := s.args - {t}), c, r, s.args[t], wake, s')
  }

  ghost predicate PopBeginsTo<T>(s: State<T>, t: Tid, seen: bool, wake: set<Tid>, s': State<T>) {
    && t !in s.producers.All() && t !in s.consumers.All() && (seen ==> s.core.terminated)
    && var (c, r) := PopBegin(s.core, seen);
       if r.Wait? then s' == s.(core := c, consumers := s.consumers.(parked := s.consumers.parked + {t}))
       else AfterPop(s, c, r, wake, s')
  }

  ghost predicate PopResumesTo<T>(s: State<T>, t: Tid, seen: bool, wake: set<Tid>, s': State<T>) {
    && t in s.consumers.Awake() && s.core.emptyWaiters > 0 && (s.core.terminated ==> seen)
    && var (c, r) := PopResume(s.core, seen);
       AfterPop(s.(consumers := Left(s.consumers, t)), c, r, wake, s')
  }

  ghost predicate TryPushesTo<T>(s: State<T>, x: T, seen: bool, wake: set<Tid>, s': State<T>) {
    && (seen ==> s.core.terminated)
    && var (c, r) := TryPush(s.core, x, seen);
       AfterPush(s, c, r, x, wake, s')
  }

  ghost predicate TryPopsTo<T>(s: State<T>, seen: bool, wake: set<Tid>, s': State<T>) {
    && (seen ==> s.core.terminated)
    && var (c, r) := TryPop(s.core, seen);
       AfterPop(s, c, r, wake, s')
  }

  function Roused(w: Waiters, t: Tid): Waiters {
    w.(parked := w.parked - {t}, spurious := w.spurious + {t})
  }

  ghost predicate SpuriousTo<T>(s: State<T>, t: Tid, s': State<T>) {
    || (t in s.producers.parked && s' == s.(producers := Roused(s.producers, t)))
    || (t in s.consumers.parked && s' == s.(consumers := Roused(s.consumers, t)))
  }

  ghost predicate Next<T>(s: State<T>, a: Step<T>, s': State<T>) {
    match a
    case PushBegins(t, x, seen, wake) => PushBeginsTo(s, t, x, seen, wake, s')
    case PushResumes(t, seen, wake) => PushResumesTo(s, t, seen, wake, s')
    case TryPushes(x, seen, wake) => TryPushesTo(s, x, seen, wake, s')
    case PopBegins(t, seen, wake) => PopBeginsTo(s, t, seen, wake, s')
    case PopResumes(t, seen, wake) => PopResumesTo(s, t, seen, wake, s')
    case TryPops(seen, wake) => TryPopsTo(s, seen, wake, s')
    case Spurious(t) => SpuriousTo(s, t, s')
    case SetsTerminated => s' == s.(core := s.core.(terminated := true))
    case InterruptsAll =>
      s' == s.(producers := Broadcast(s.producers), consumers := Broadcast(s.consumers),
               drained := s.drained || s.core.terminated)
  }

  // ---------- the invariant ----------

  ghost predicate Apart(w: Waiters) {
    w.parked !! w.signalled !! w.spurious
  }

  /** No wakeup is lost: while a consumer sleeps unsignalled, every element is spoken for by a signalled one. */
  ghost predicate NoLostWakeup<T>(s: State<T>) {
    && (s.consumers.parked != {} ==> |s.core.contents| <= |s.consumers.signalled|)
    && (s.producers.parked != {} ==> s.core.bounds - |s.core.contents| <= |s.producers.signalled|)
  }

  ghost predicate Counted<T>(s: State<T>) {
    && Apart(s.producers) && Apart(s.consumers)
    && s.core.fullWaiters == |s.producers.All()| && s.core.emptyWaiters == |s.consumers.All()|
    && s.args.Keys == s.producers.All()
  }

  ghost predicate Fifo<T>(s: State<T>) {
    s.popped + s.core.contents == s.pushed && |s.core.contents| <= s.core.bounds
  }

  /** After apr_queue_term's broadcast nobody sleeps. */
  ghost predicate Drained<T>(s: State<T>) {
    s.drained ==> s.core.terminated && s.producers.parked == {} && s.consumers.parked == {}
  }

  ghost predicate Inv<T>(s: State<T>) {
    Counted(s) && NoLostWakeup(s) && Fifo(s) && Drained(s)
  }

  lemma InitInv<T>(s: State<T>)
    requires Init(s)
    ensures Inv(s)
  {
  }

  // ---------- sets of waiters ----------

  lemma WokenCounts(w: Waiters, wake: set<Tid>)
    requires Apart(w) && wake <= w.parked
    ensures var r := Woken(w, wake);
            Apart(r) && r.All() == w.All() && |r.signalled| == |w.signalled| + |wake| && r.parked <= w.parked
    ensures wake != {} ==> |wake| >= 1
  {
    var r := Woken(w, wake);
    assert r.All() == w.All();
    assert w.signalled !! wake;
    if wake != {} {
      var t :| t in wake;
      assert wake == {t} + (wake - {t});
    }
  }

  lemma LeftCounts(w: Waiters, t: Tid)
    requires Apart(w) && t in w.Awake()
    ensures var r := Left(w, t);
            Apart(r) && r.All() == w.All() - {t} && |r.All()| == |w.All()| - 1 && r.parked == w.parked
            && |w.signalled| <= |r.signalled| + 1
  {
    var r := Left(w, t);
    assert r.parked == w.parked;
    assert r.All() == w.All() - {t};
    assert w.signalled <= r.signalled + {t};
    SubsetSize(w.signalled, r.signalled + {t});
  }

  lemma ParkCounts(w: Waiters, t: Tid)
    requires Apart(w) && t !in w.All()
    ensures var r := w.(parked := w.parked + {t});
            Apart(r) && r.All() == w.All() + {t} && |r.All()| == |w.All()| + 1 && r.signalled == w.signalled
  {
    assert w.(parked := w.parked + {t}).All() == w.All() + {t};
  }

  lemma RousedCounts(w: Waiters, t: Tid)
    requires Apart(w) && t in w.parked
    ensures var r := Roused(w, t);
            Apart(r) && r.All() == w.All() && r.signalled == w.signalled && r.parked <= w.parked
  {
    assert Roused(w, t).All() == w.All();
  }

  // ---------- every step keeps the invariant ----------

  /**
   The invariant once a thread has left its condition variable and decremented the count: one slot or element may be
   unspoken for.
   */
  ghost predicate Loose<T>(s: State<T>, room: nat, stock: nat) {
    && Apart(s.producers) && Apart(s.consumers) && s.args.Keys == s.producers.All() && Fifo(s) && Drained(s)
    && (s.consumers.parked != {} ==> |s.core.contents| <= |s.consumers.signalled| + stock)
    && (s.producers.parked != {} ==> s.core.bounds - |s.core.contents| <= |s.producers.signalled| + room)
  }

  lemma SomeIn(a: set<Tid>, b: set<Tid>)
    requires a <= b && a != {}
    ensures |b| > 0
  {
    var t :| t in a;
    assert b == {t} + (b - {t});
  }

  lemma PushEnds<T>(s: State<T>, c: Core<T>, r: Outcome<T>, x: T, wake: set<Tid>, s': State<T>)
    requires Loose(s, 1, 0) && AfterPush(s, c, r, x, wake, s')
    requires c.fullWaiters == |s.producers.All()| && c.emptyWaiters == |s.consumers.All()|
    requires c.bounds == s.core.bounds && c.terminated == s.core.terminated
    requires if r.Pushed? then c.contents == s.core.contents + [x] && |c.contents| <= c.bounds &&
             r.signal == (c.emptyWaiters > 0)
             else c.contents == s.core.contents && |c.contents| == c.bounds
    ensures Inv(s')
  {
    if r.Pushed? {
      WokenCounts(s.consumers, wake);
      assert s.popped + (s.core.contents + [x]) == (s.popped + s.core.contents) + [x];
      if s.consumers.parked != {} {
        SomeIn(s.consumers.parked, s.consumers.All());
      }
    }
  }

  lemma PopEnds<T>(s: State<T>, c: Core<T>, r: Outcome<T>, wake: set<Tid>, s': State<T>)
    requires Loose(s, 0, 1) && AfterPop(s, c, r, wake, s')
    requires c.fullWaiters == |s.producers.All()| && c.emptyWaiters == |s.consumers.All()|
    requires c.bounds == s.core.bounds && c.terminated == s.core.terminated
    requires if r.Popped? then s.core.contents == [r.x] + c.contents && r.signal == (c.fullWaiters > 0)
             else c.contents == s.core.contents == []
    ensures Inv(s')
  {
    hide Apart;
    if r.Popped? {
      WokenCounts(s.producers, wake);
      assert s.popped + ([r.x] + c.contents) == (s.popped + [r.x]) + c.contents;
      if s.producers.parked != {} {
        SomeIn(s.producers.parked, s.producers.All());
      }
    }
  }

  lemma PushParks<T>(s: State<T>, t: Tid, x: T, s': State<T>)
    requires Inv(s) && t !in s.producers.All() && Full(s.core) && !s.core.terminated
    requires s' == s.(core := PushBegin(s.core, x, false).0, args := s.args[t := x],
                      producers := s.producers.(parked := s.producers.parked + {t}))
    ensures Inv(s')
  {
    ParkCounts(s.producers, t);
  }

  lemma PopParks<T>(s: State<T>, t: Tid, s': State<T>)
    requires Inv(s) && t !in s.consumers.All() && s.core.contents == [] && !s.core.terminated
    requires s' == s.(core := PopBegin(s.core, false).0, consumers := s.consumers.(parked := s.consumers.parked + {t}))
    ensures Inv(s')
  {
    ParkCounts(s.consumers, t);
  }

  lemma PushBeginsKeeps<T>(s: State<T>, t: Tid, x: T, seen: bool, wake: set<Tid>, s': State<T>)
    requires Inv(s) && PushBeginsTo(s, t, x, seen, wake, s')
    ensures Inv(s')
  {
    var (c, r) := PushBegin(s.core, x, seen);
    if seen {
      assert s' == s;
      return;
    }
    hide AfterPush, Apart, Drained;
    if r.Wait? {
      PushParks(s, t, x, s');
    } else {
      PushEnds(s, c, r, x, wake, s');
    }
  }

  /** A woken producer leaves the condition variable and decrements full_waiters. */
  lemma ProducerLeaves<T>(s: State<T>, t: Tid)
    requires Inv(s) && t in s.producers.Awake()
    ensures var w := Left(s.producers, t);
            Loose(s.(producers := w, args := s.args - {t}), 1, 0) && |w.All()| == |s.producers.All()| - 1
  {
    LeftCounts(s.producers, t);
    assert (s.args - {t}).Keys == Left(s.producers, t).All();
  }

  lemma ConsumerLeaves<T>(s: State<T>, t: Tid)
    requires Inv(s) && t in s.consumers.Awake()
    ensures var w := Left(s.consumers, t);
            Loose(s.(consumers := w), 0, 1) && |w.All()| == |s.consumers.All()| - 1
  {
    LeftCounts(s.consumers, t);
  }

  lemma PushResumesKeeps<T>(s: State<T>, t: Tid, seen: bool, wake: set<Tid>, s': State<T>)
    requires Inv(s) && PushResumesTo(s, t, seen, wake, s')
    ensures Inv(s')
  {
    hide AfterPush, Left, Loose, Drained, Apart, NoLostWakeup;
    var (c, r) := PushResume(s.core, s.args[t], seen);
    ProducerLeaves(s, t);
    PushEnds(s.(producers := Left(s.producers, t), args := s.args - {t}), c, r, s.args[t], wake, s');
  }

  lemma PopBeginsKeeps<T>(s: State<T>, t: Tid, seen: bool, wake: set<Tid>, s': State<T>)
    requires Inv(s) && PopBeginsTo(s, t, seen, wake, s')
    ensures Inv(s')
  {
    var (c, r) := PopBegin(s.core, seen);
    if seen {
      Refused(s, c, r, wake, s');
      return;
    }
    PopShape(s.core);
    hide AfterPop, Apart, Fifo, Drained, PopBegin;
    if r.Wait? {
      PopParks(s, t, s');
    } else {
      PopEnds(s, c, r, wake, s');
    }
  }

  lemma PopResumesKeeps<T>(s: State<T>, t: Tid, seen: bool, wake: set<Tid>, s': State<T>)
    requires Inv(s) && PopResumesTo(s, t, seen, wake, s')
    ensures Inv(s')
  {
    hide AfterPop, Left, Loose, Fifo, Drained, Apart, NoLostWakeup;
    var (c, r) := PopResume(s.core, seen);
    ConsumerLeaves(s, t);
    PopEnds(s.(consumers := Left(s.consumers, t)), c, r, wake, s');
  }

  lemma TryPushKeeps<T>(s: State<T>, x: T, seen: bool, wake: set<Tid>, s': State<T>)
    requires Inv(s) && TryPushesTo(s, x, seen, wake, s')
    ensures Inv(s')
  {
    var (c, r) := TryPush(s.core, x, seen);
    if seen {
      assert s' == s;
      return;
    }
    hide AfterPush, Apart, Drained;
    PushEnds(s, c, r, x, wake, s');
  }

  /** Whoever sees on entry that the queue is terminated leaves it as it is. */
  lemma Refused<T>(s: State<T>, c: Core<T>, r: Outcome<T>, wake: set<Tid>, s': State<T>)
    requires c == s.core && r.Eof? && AfterPop(s, c, r, wake, s')
    ensures s' == s
  {
  }

  /** What a pop that finds the queue open takes, or that it is empty. */
  lemma PopShape<T>(c: Core<T>)
    ensures forall p <- [PopBegin(c, false), TryPop(c, false)] ::
              && p.0.bounds == c.bounds && p.0.terminated == c.terminated && p.0.fullWaiters == c.fullWaiters
              && (if p.1.Popped? then c.contents == [p.1.x] + p.0.contents && p.1.signal == (c.fullWaiters > 0)
                  else p.0.contents == c.contents == [])
              && (!p.1.Wait? ==> p.0.emptyWaiters == c.emptyWaiters)
  {
  }

  lemma TryPopKeeps<T>(s: State<T>, seen: bool, wake: set<Tid>, s': State<T>)
    requires Inv(s) && TryPopsTo(s, seen, wake, s')
    ensures Inv(s')
  {
    var (c, r) := TryPop(s.core, seen);
    if seen {
      Refused(s, c, r, wake, s');
      return;
    }
    PopShape(s.core);
    hide AfterPop, Apart, Drained, TryPop;
    PopEnds(s, c, r, wake, s');
  }

  lemma SpuriousKeeps<T>(s: State<T>, t: Tid, s': State<T>)
    requires Inv(s) && SpuriousTo(s, t, s')
    ensures Inv(s')
  {
    hide Roused, Fifo;
    if t in s.producers.parked { RousedCounts(s.producers, t); }
    if t in s.consumers.parked { RousedCounts(s.consumers, t); }
    assert Fifo(s') by { FifoKept(s, s'); }
  }

  lemma FifoKept<T>(s: State<T>, s': State<T>)
    requires Fifo(s) && s'.popped == s.popped && s'.pushed == s.pushed
    requires s'.core.contents == s.core.contents && s'.core.bounds == s.core.bounds
    ensures Fifo(s')
  {
  }

  lemma TermKeeps<T>(s: State<T>, a: Step<T>, s': State<T>)
    requires Inv(s) && Next(s, a, s') && (a.SetsTerminated? || a.InterruptsAll?)
    ensures Inv(s')
  {
    WokenCounts(s.producers, s.producers.parked);
    WokenCounts(s.consumers, s.consumers.parked);
  }

  /** Every step of every thread keeps the invariant. */
  lemma StepKeepsInv<T>(s: State<T>, a: Step<T>, s': State<T>)
    requires Inv(s) && Next(s, a, s')
    ensures Inv(s')
  {
    hide Inv, PushBeginsTo, PushResumesTo, PopBeginsTo, PopResumesTo, TryPushesTo, TryPopsTo, AfterPush, AfterPop,
      SpuriousTo;
    match a {
      case PushBegins(t, x, seen, wake) => PushBeginsKeeps(s, t, x, seen, wake, s');
      case PushResumes(t, seen, wake) => PushResumesKeeps(s, t, seen, wake, s');
      case PopBegins(t, seen, wake) => PopBeginsKeeps(s, t, seen, wake, s');
      case PopResumes(t, seen, wake) => PopResumesKeeps(s, t, seen, wake, s');
      case TryPushes(x, seen, wake) => TryPushKeeps(s, x, seen, wake, s');
      case TryPops(seen, wake) => TryPopKeeps(s, seen, wake, s');
      case Spurious(t) => SpuriousKeeps(s, t, s');
      case SetsTerminated => TermKeeps(s, a, s');
      case InterruptsAll => TermKeeps(s, a, s');
    }
  }

  /** The end of terminate's broadcast is never undone. */
  lemma StepKeepsDrained<T>(s: State<T>, a: Step<T>, s': State<T>)
    requires Next(s, a, s') && s.drained
    ensures s'.drained
  {
  }

  // ---------- runs ----------

  ghost predicate IsRun<T>(states: seq<State<T>>, steps: seq<Step<T>>) {
    && |states| == |steps| + 1 && Init(states[0])
    && forall i, j :: 0 <= i && j == i + 1 && j < |states| ==> Next(states[i], steps[i], states[j])
  }

  lemma {:induction false} RunInv<T>(states: seq<State<T>>, steps: seq<Step<T>>, i: nat)
    requires IsRun(states, steps) && i < |states|
    ensures Inv(states[i])
    decreases i
  {
    hide Next, Inv;
    if i == 0 {
      InitInv(states[0]);
    } else {
      RunInv(states, steps, i - 1);
      StepKeepsInv(states[i - 1], steps[i - 1], states[i]);
    }
  }

  /**
   In every run: elements come out in the order they went in, and a waiting consumer with work to do has been
   signalled.
   */
  lemma QueueIsFifoWithoutLostWakeups<T>(states: seq<State<T>>, steps: seq<Step<T>>, i: nat)
    requires IsRun(states, steps) && i < |states|
    ensures var s := states[i];
            && s.popped <= s.pushed
            && (s.consumers.parked != {} && s.core.contents != [] ==> s.consumers.signalled != {})
            && (s.producers.parked != {} && |s.core.contents| < s.core.bounds ==> s.producers.signalled != {})
  {
    RunInv(states, steps, i);
  }

  /** Once apr_queue_term has returned, nobody is parked and nobody ever parks again. */
  lemma {:induction false} NobodyParksAfterTerm<T>(states: seq<State<T>>, steps: seq<Step<T>>, i: nat, j: nat)
    requires IsRun(states, steps) && i <= j < |states| && states[i].drained
    ensures states[j].drained && states[j].producers.parked == {} && states[j].consumers.parked == {}
    decreases j
  {
    hide Next, Counted, NoLostWakeup, Fifo;
    RunInv(states, steps, j);
    if i < j {
      NobodyParksAfterTerm(states, steps, i, j - 1);
      StepKeepsDrained(states[j - 1], steps[j - 1], states[j]);
    }
  }
}
