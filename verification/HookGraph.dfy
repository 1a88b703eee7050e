/** The predecessor graph of a set of hooks, and the order in which the topological sort emits it. */
module HookGraph {
  import opened Basics

  /**
   g[n] lists the predecessors of item n in slot order. The restart-and-descend walk produces the depth-first
   post-order over them.
   */
  type Graph = seq<seq<nat>>

  ghost predicate Distinct(s: seq<nat>) {
    forall i, j :: 0 <= i < j < |s| ==> s[i] != s[j]
  }

  ghost predicate WellFormed(g: Graph) {
    forall n :: 0 <= n < |g| ==> Distinct(g[n]) && forall k :: 0 <= k < |g[n]| ==> g[n][k] < |g|
  }

  /** Every predecessor has a smaller rank, so no walk along predecessors goes round. */
  ghost predicate Ranked(g: Graph, rank: seq<nat>) {
    && WellFormed(g) && |rank| == |g|
    && forall n :: 0 <= n < |g| ==> forall k :: 0 <= k < |g[n]| ==> rank[g[n][k]] < rank[n]
  }

  ghost predicate Acyclic(g: Graph) {
    exists rank :: Ranked(g, rank)
  }

  // ---------- the recursive depth-first walk ----------

  ghost function Visit(g: Graph, rank: seq<nat>, n: nat, done: seq<nat>): seq<nat>
    requires Ranked(g, rank) && n < |g|
    decreases rank[n], |g[n]| + 1
  {
    if n in done then done else VisitSlots(g, rank, n, 0, done) + [n]
  }

  ghost function VisitSlots(g: Graph, rank: seq<nat>, n: nat, k: nat, done: seq<nat>): seq<nat>
    requires Ranked(g, rank) && n < |g| && k <= |g[n]|
    decreases rank[n], |g[n]| - k
  {
    if k == |g[n]| then done
    else VisitSlots(g, rank, n, k + 1, Visit(g, rank, g[n][k], done))
  }

  ghost function VisitFrom(g: Graph, rank: seq<nat>, n: nat, done: seq<nat>): seq<nat>
    requires Ranked(g, rank) && n <= |g|
    decreases |g| - n
  {
    if n == |g| then done else VisitFrom(g, rank, n + 1, Visit(g, rank, n, done))
  }

  ghost function PostOrder(g: Graph, rank: seq<nat>): seq<nat>
    requires Ranked(g, rank)
  {
    VisitFrom(g, rank, 0, [])
  }

  // ---------- one step of the restart-and-descend walk ----------

  /** The first slot from k on whose predecessor is not done. */
  function FirstUndone(ps: seq<nat>, done: seq<nat>, k: nat): (r: nat)
    requires k <= |ps|
    ensures k <= r <= |ps| && (r < |ps| ==> ps[r] !in done) && forall i :: k <= i < r ==> ps[i] in done
    decreases |ps| - k
  {
    if k == |ps| || ps[k] !in done then k else FirstUndone(ps, done, k + 1)
  }

  /** From n, descend through first undone predecessors to an item that has none. */
  ghost function Descend(g: Graph, rank: seq<nat>, n: nat, done: seq<nat>): (r: nat)
    requires Ranked(g, rank) && n < |g| && n !in done
    ensures r < |g| && r !in done && forall k :: 0 <= k < |g[r]| ==> g[r][k] in done
    decreases rank[n]
  {
    var k := FirstUndone(g[n], done, 0);
    if k == |g[n]| then n else Descend(g, rank, g[n][k], done)
  }

  /** The first item from n on that is not done. */
  ghost function FirstOpen(g: Graph, done: seq<nat>, n: nat): (r: nat)
    requires n <= |g|
    ensures n <= r <= |g| && (r < |g| ==> r !in done) && forall i :: n <= i < r ==> i in done
    decreases |g| - n
  {
    if n == |g| || n !in done then n else FirstOpen(g, done, n + 1)
  }

  /** Emitting the item that the descent from n reaches first does not change where the visit of n ends. */
  lemma {:induction false} VisitTakesDescent(g: Graph, rank: seq<nat>, n: nat, done: seq<nat>)
    requires Ranked(g, rank) && n < |g| && n !in done
    ensures Visit(g, rank, n, done) == Visit(g, rank, n, done + [Descend(g, rank, n, done)])
    decreases rank[n], |g[n]| + 1
  {
    var k := FirstUndone(g[n], done, 0);
    var m := Descend(g, rank, n, done);
    SkipDone(g, rank, n, 0, done);
    if k == |g[n]| {
      assert n in done + [n];
    } else {
      DescentBelow(g, rank, g[n][k], done);
      SlotsTakeDescent(g, rank, n, k, done);
      SkipDone(g, rank, n, 0, done + [m]);
      SlotsTail(g, rank, n, k, done, m);
    }
  }

  /** The descent from a predecessor ends at an item of rank at most that predecessor's. */
  lemma {:induction false} DescentBelow(g: Graph, rank: seq<nat>, n: nat, done: seq<nat>)
    requires Ranked(g, rank) && n < |g| && n !in done
    ensures rank[Descend(g, rank, n, done)] <= rank[n]
    decreases rank[n]
  {
    var k := FirstUndone(g[n], done, 0);
    if k < |g[n]| {
      DescentBelow(g, rank, g[n][k], done);
    }
  }

  /** Visiting done predecessors does nothing. */
  lemma {:induction false} SkipDone(g: Graph, rank: seq<nat>, n: nat, k: nat, done: seq<nat>)
    requires Ranked(g, rank) && n < |g| && k <= |g[n]|
    ensures VisitSlots(g, rank, n, k, done) == VisitSlots(g, rank, n, FirstUndone(g[n], done, k), done)
    decreases |g[n]| - k
  {
    if k < |g[n]| && g[n][k] in done {
      SkipDone(g, rank, n, k + 1, done);
    }
  }

  lemma SlotsTakeDescent(g: Graph, rank: seq<nat>, n: nat, k: nat, done: seq<nat>)
    requires Ranked(g, rank) && n < |g| && k < |g[n]| && g[n][k] !in done
    ensures var m := Descend(g, rank, g[n][k], done);
            VisitSlots(g, rank, n, k, done) == VisitSlots(g, rank, n, k, done + [m])
    decreases rank[n], 0
  {
    VisitTakesDescent(g, rank, g[n][k], done);
  }

  /** After the emission of m the walk over the slots of n still starts at or behind slot k. */
  lemma SlotsTail(g: Graph, rank: seq<nat>, n: nat, k: nat, done: seq<nat>, m: nat)
    requires Ranked(g, rank) && n < |g| && k == FirstUndone(g[n], done, 0) < |g[n]|
    ensures VisitSlots(g, rank, n, FirstUndone(g[n], done + [m], 0), done + [m]) ==
            VisitSlots(g, rank, n, k, done + [m])
  {
    FirstUndoneLater(g[n], done, m, 0);
    SkipDone(g, rank, n, k, done + [m]);
  }

  lemma {:induction false} FirstUndoneLater(ps: seq<nat>, done: seq<nat>, m: nat, k: nat)
    requires k <= |ps|
    ensures FirstUndone(ps, done + [m], k) == FirstUndone(ps, done + [m], FirstUndone(ps, done, k))
    decreases |ps| - k
  {
    if k < |ps| && ps[k] in done {
      FirstUndoneLater(ps, done, m, k + 1);
    }
  }

  // ---------- iterating the step ----------

  lemma {:induction false} SkipToOpen(g: Graph, rank: seq<nat>, n: nat, done: seq<nat>)
    requires Ranked(g, rank) && n <= |g|
    ensures VisitFrom(g, rank, n, done) == VisitFrom(g, rank, FirstOpen(g, done, n), done)
    decreases |g| - n
  {
    if n < |g| && n in done {
      SkipToOpen(g, rank, n + 1, done);
    }
  }

  lemma {:induction false} FirstOpenLater(g: Graph, done: seq<nat>, m: nat, n: nat)
    requires n <= |g|
    ensures FirstOpen(g, done + [m], n) == FirstOpen(g, done + [m], FirstOpen(g, done, n))
    decreases |g| - n
  {
    if n < |g| && n in done {
      FirstOpenLater(g, done, m, n + 1);
    }
  }

  /** Emitting the item found by one restart of the walk leaves the depth-first post-order unchanged. */
  lemma StepKeepsPostOrder(g: Graph, rank: seq<nat>, done: seq<nat>)
    requires Ranked(g, rank) && FirstOpen(g, done, 0) < |g|
    ensures var m := Descend(g, rank, FirstOpen(g, done, 0), done);
            VisitFrom(g, rank, 0, done) == VisitFrom(g, rank, 0, done + [m])
  {
    var n := FirstOpen(g, done, 0);
    var m := Descend(g, rank, n, done);
    SkipToOpen(g, rank, 0, done);
    SkipToOpen(g, rank, 0, done + [m]);
    FirstOpenLater(g, done, m, 0);
    SkipToOpen(g, rank, n, done + [m]);
    VisitTakesDescent(g, rank, n, done);
  }

  lemma {:induction false} NothingOpen(g: Graph, rank: seq<nat>, done: seq<nat>)
    requires Ranked(g, rank) && FirstOpen(g, done, 0) == |g|
    ensures VisitFrom(g, rank, 0, done) == done
  {
    SkipToOpen(g, rank, 0, done);
  }

  /** done lists items once, each after all of its predecessors. */
  ghost predicate Partial(g: Graph, done: seq<nat>) {
    && Distinct(done)
    && (forall i :: 0 <= i < |done| ==> done[i] < |g|)
    && forall i :: 0 <= i < |done| ==> PredsIn(g, done, i)
  }

  ghost predicate PredsIn(g: Graph, done: seq<nat>, i: nat)
    requires i < |done|
  {
    done[i] < |g| ==> forall k :: 0 <= k < |g[done[i]]| ==> g[done[i]][k] in done[..i]
  }

  /** An order of all items that meets every constraint. */
  ghost predicate ValidOrder(g: Graph, s: seq<nat>) {
    Partial(g, s) && |s| == |g|
  }

  lemma PartialExtends(g: Graph, done: seq<nat>, m: nat)
    requires Partial(g, done) && m < |g| && m !in done
    requires forall k :: 0 <= k < |g[m]| ==> g[m][k] in done
    ensures Partial(g, done + [m])
  {
    var d := done + [m];
    forall i | 0 <= i < |d| ensures PredsIn(g, d, i) {
      if i < |done| {
        assert PredsIn(g, done, i);
        assert d[..i] == done[..i] && d[i] == done[i];
      } else {
        assert d[..i] == done;
      }
    }
  }

  ghost function Below(n: nat): (r: set<nat>)
    ensures |r| == n && forall x: nat :: x in r <==> x < n
  {
    if n == 0 then {} else Below(n - 1) + {n - 1}
  }

  ghost function Elements(s: seq<nat>): (r: set<nat>)
    ensures |r| <= |s| && forall x :: x in r <==> x in s
    ensures Distinct(s) ==> |r| == |s|
  {
    if |s| == 0 then {}
    else
      var init, last := s[..|s| - 1], s[|s| - 1];
      assert s == init + [last];
      assert Distinct(s) ==> last !in init;
      Elements(init) + {last}
  }

  /** Something is open exactly while fewer items are done than there are. */
  lemma OpenIffFewer(g: Graph, done: seq<nat>)
    requires Partial(g, done)
    ensures |done| <= |g| && (FirstOpen(g, done, 0) < |g| <==> |done| < |g|)
  {
    var all, got := Below(|g|), Elements(done);
    assert got <= all;
    SubsetSize(got, all);
    if FirstOpen(g, done, 0) == |g| {
      assert all <= got;
      SubsetSize(all, got);
    } else {
      assert got <= all - {FirstOpen(g, done, 0)};
      SubsetSize(got, all - {FirstOpen(g, done, 0)});
    }
  }

  /** Whatever a partial emission is, its completion is a valid order that extends it. */
  lemma {:induction false} CompletesToValid(g: Graph, rank: seq<nat>, done: seq<nat>)
    requires Ranked(g, rank) && Partial(g, done)
    ensures ValidOrder(g, VisitFrom(g, rank, 0, done)) && done <= VisitFrom(g, rank, 0, done)
    decreases |g| - |done|
  {
    OpenIffFewer(g, done);
    if |done| < |g| {
      var m := Descend(g, rank, FirstOpen(g, done, 0), done);
      StepKeepsPostOrder(g, rank, done);
      PartialExtends(g, done, m);
      OpenIffFewer(g, done + [m]);
      CompletesToValid(g, rank, done + [m]);
    } else {
      NothingOpen(g, rank, done);
    }
  }

  /** The depth-first post-order is a permutation of the items in which every predecessor comes first. */
  lemma PostOrderIsValid(g: Graph, rank: seq<nat>)
    requires Ranked(g, rank)
    ensures ValidOrder(g, PostOrder(g, rank))
  {
    CompletesToValid(g, rank, []);
  }

  // ---------- when the given order already meets all constraints ----------

  ghost predicate InOrder(g: Graph) {
    forall n :: 0 <= n < |g| ==> forall k :: 0 <= k < |g[n]| ==> g[n][k] < n
  }

  function Upto(n: nat): (r: seq<nat>)
    ensures |r| == n && forall i :: 0 <= i < n ==> r[i] == i
  {
    if n == 0 then [] else Upto(n - 1) + [n - 1]
  }

  lemma {:induction false} InOrderFrom(g: Graph, rank: seq<nat>, n: nat)
    requires Ranked(g, rank) && InOrder(g) && n <= |g|
    ensures VisitFrom(g, rank, n, Upto(n)) == Upto(|g|)
    decreases |g| - n
  {
    if n < |g| {
      assert forall i :: 0 <= i < n ==> Upto(n)[i] == i;
      assert forall x :: x in Upto(n) ==> x < n;
      forall k | 0 <= k < |g[n]| ensures g[n][k] in Upto(n) {
        assert Upto(n)[g[n][k]] == g[n][k];
      }
      SkipDone(g, rank, n, 0, Upto(n));
      InOrderFrom(g, rank, n + 1);
    }
  }

  /** Items that already stand in a valid order keep their order. */
  lemma InOrderStays(g: Graph, rank: seq<nat>)
    requires Ranked(g, rank) && InOrder(g)
    ensures PostOrder(g, rank) == Upto(|g|)
  {
    InOrderFrom(g, rank, 0);
  }

  // ---------- acyclic graphs are those that can be ordered ----------

  ghost function Position(s: seq<nat>, x: nat): (r: nat)
    ensures r <= |s| && (r < |s| ==> s[r] == x) && (x in s ==> r < |s|)
  {
    if |s| == 0 || s[0] == x then 0 else 1 + Position(s[1..], x)
  }

  lemma AcyclicIffOrderable(g: Graph)
    requires WellFormed(g)
    ensures Acyclic(g) <==> exists s :: ValidOrder(g, s)
  {
    if Acyclic(g) {
      var rank :| Ranked(g, rank);
      PostOrderIsValid(g, rank);
    }
    if s :| ValidOrder(g, s) {
      var rank := seq(|g|, n requires 0 <= n < |g| => Position(s, n));
      forall n | 0 <= n < |g| ensures forall k :: 0 <= k < |g[n]| ==> rank[g[n][k]] < rank[n] {
        OpenIffFewer(g, s);
        assert n in s;
        var i := Position(s, n);
        assert PredsIn(g, s, i);
        forall k | 0 <= k < |g[n]| ensures rank[g[n][k]] < rank[n] {
          assert g[n][k] in s[..i];
          PositionBefore(s, g[n][k], i);
        }
      }
      assert Ranked(g, rank);
    }
  }

  lemma {:induction false} PositionBefore(s: seq<nat>, x: nat, i: nat)
    requires i <= |s| && x in s[..i]
    ensures Position(s, x) < i
    decreases |s|
  {
    if s[0] != x {
      assert s[..i][1..] == s[1..][..i - 1];
      PositionBefore(s[1..], x, i - 1);
    }
  }

  /** The post-order does not depend on the ranks that witness acyclicity. */
  lemma {:induction false} RankIrrelevant(g: Graph, r1: seq<nat>, r2: seq<nat>, done: seq<nat>)
    requires Ranked(g, r1) && Ranked(g, r2) && Partial(g, done)
    ensures VisitFrom(g, r1, 0, done) == VisitFrom(g, r2, 0, done)
    decreases |g| - |done|
  {
    OpenIffFewer(g, done);
    if |done| < |g| {
      var n := FirstOpen(g, done, 0);
      DescendSame(g, r1, r2, n, done);
      StepKeepsPostOrder(g, r1, done);
      StepKeepsPostOrder(g, r2, done);
      PartialExtends(g, done, Descend(g, r1, n, done));
      RankIrrelevant(g, r1, r2, done + [Descend(g, r1, n, done)]);
    } else {
      NothingOpen(g, r1, done);
      NothingOpen(g, r2, done);
    }
  }

  lemma {:induction false} DescendSame(g: Graph, r1: seq<nat>, r2: seq<nat>, n: nat, done: seq<nat>)
    requires Ranked(g, r1) && Ranked(g, r2) && n < |g| && n !in done
    ensures Descend(g, r1, n, done) == Descend(g, r2, n, done)
    decreases r1[n]
  {
    var k := FirstUndone(g[n], done, 0);
    if k < |g[n]| {
      DescendSame(g, r1, r2, g[n][k], done);
    }
  }

  // ---------- graphs with a cycle ----------

  /** All predecessors of n are done, so the descent ends there. */
  predicate Stops(g: Graph, done: seq<nat>, n: nat)
    requires n < |g|
  {
    forall k :: 0 <= k < |g[n]| ==> g[n][k] in done
  }

  /** Where the descent from n is after so many steps to a first open predecessor. */
  function Walked(g: Graph, done: seq<nat>, n: nat, steps: nat): (r: nat)
    requires WellFormed(g) && n < |g|
    ensures r < |g| && (n !in done ==> r !in done)
  {
    if steps == 0 then n
    else
      var m := Walked(g, done, n, steps - 1);
      var k := FirstUndone(g[m], done, 0);
      if k == |g[m]| then m else g[m][k]
  }

  /** The descent never ends. */
  ghost predicate Endless(g: Graph, done: seq<nat>, n: nat)
    requires WellFormed(g) && n < |g|
  {
    forall i: nat :: !Stops(g, done, Walked(g, done, n, i))
  }

  /** The loop emits m after done: the descent from the first open item ends there. */
  ghost predicate EmitsNext(g: Graph, done: seq<nat>, m: nat)
    requires WellFormed(g)
  {
    var n := FirstOpen(g, done, 0);
    n < |g| && exists i: nat :: Walked(g, done, n, i) == m && Stops(g, done, m)
  }

  /** The loop can have emitted these items. */
  ghost predicate Emitted(g: Graph, done: seq<nat>)
    requires WellFormed(g)
    decreases |done|
  {
    |done| > 0 ==>
      var init, m := done[..|done| - 1], done[|done| - 1];
      m < |g| && Emitted(g, init) && EmitsNext(g, init, m)
  }

  /** The loop has come to a descent that never ends. */
  ghost predicate Stuck(g: Graph, done: seq<nat>)
    requires WellFormed(g)
  {
    var n := FirstOpen(g, done, 0);
    Emitted(g, done) && n < |g| && Endless(g, done, n)
  }

  /** In a ranked graph the descent ends where the recursive one does. */
  lemma {:induction false} DescendIsWalked(g: Graph, rank: seq<nat>, n: nat, done: seq<nat>) returns (i: nat)
    requires Ranked(g, rank) && n < |g| && n !in done
    ensures Walked(g, done, n, i) == Descend(g, rank, n, done) && Stops(g, done, Walked(g, done, n, i))
    decreases rank[n]
  {
    var k := FirstUndone(g[n], done, 0);
    if k == |g[n]| {
      i := 0;
    } else {
      var j := DescendIsWalked(g, rank, g[n][k], done);
      i := j + 1;
      WalkedFromNext(g, done, n, j);
    }
  }

  lemma {:induction false} WalkedFromNext(g: Graph, done: seq<nat>, n: nat, steps: nat)
    requires WellFormed(g) && n < |g| && FirstUndone(g[n], done, 0) < |g[n]|
    ensures Walked(g, done, n, steps + 1) == Walked(g, done, g[n][FirstUndone(g[n], done, 0)], steps)
  {
    if steps > 0 {
      WalkedFromNext(g, done, n, steps - 1);
    }
  }

  lemma EmitKeepsPartial(g: Graph, done: seq<nat>, m: nat)
    requires WellFormed(g) && Partial(g, done) && EmitsNext(g, done, m)
    ensures m < |g| && Partial(g, done + [m])
  {
    var n := FirstOpen(g, done, 0);
    var i: nat :| Walked(g, done, n, i) == m && Stops(g, done, m);
    PartialExtends(g, done, m);
  }

  /** Whatever the loop has emitted, it goes on to a full order or gets stuck. */
  lemma {:induction false} EndsOrSticks(g: Graph, done: seq<nat>) returns (last: seq<nat>)
    requires WellFormed(g) && Emitted(g, done) && Partial(g, done)
    ensures Emitted(g, last) && (ValidOrder(g, last) || Stuck(g, last))
    decreases |g| - |done|
  {
    OpenIffFewer(g, done);
    var n := FirstOpen(g, done, 0);
    if n == |g| || Endless(g, done, n) {
      last := done;
    } else {
      var i: nat :| Stops(g, done, Walked(g, done, n, i));
      var m := Walked(g, done, n, i);
      assert EmitsNext(g, done, m);
      EmitKeepsPartial(g, done, m);
      assert (done + [m])[..|done|] == done;
      OpenIffFewer(g, done + [m]);
      last := EndsOrSticks(g, done + [m]);
    }
  }

  /** The loop comes to a descent that never ends exactly when the graph has a cycle. */
  lemma StuckIffCyclic(g: Graph)
    requires WellFormed(g)
    ensures (exists done :: Stuck(g, done)) <==> !Acyclic(g)
  {
    if Acyclic(g) {
      var rank :| Ranked(g, rank);
      forall done ensures !Stuck(g, done) {
        var n := FirstOpen(g, done, 0);
        if n < |g| {
          var i := DescendIsWalked(g, rank, n, done);
        }
      }
    } else {
      var last := EndsOrSticks(g, []);
      AcyclicIffOrderable(g);
    }
  }
}
