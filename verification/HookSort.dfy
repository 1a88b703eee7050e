/**
 Sorting hooks: building the predecessor slots from the names, the topological
 sort that restarts and descends for every item, and the sorted list. A pointer
 to an item is its index; NULL is -1.
 */
module HookSort {
  import opened Basics
  import opened HookGraph

  datatype Hook = Hook(name: string, predecessors: seq<string>, successors: seq<string>, order: int, func: int)

  /** k is the first hook of that name. */
  ghost predicate NamedBy(hs: seq<Hook>, s: string, k: nat) {
    k < |hs| && hs[k].name == s && forall j :: 0 <= j < k ==> hs[j].name != s
  }

  /** Hook k must come before hook m: m names k as a predecessor, or k names m as a successor. */
  ghost predicate MustPrecede(hs: seq<Hook>, k: nat, m: nat)
    requires k < |hs| && m < |hs|
  {
    || (exists i :: 0 <= i < |hs[m].predecessors| && NamedBy(hs, hs[m].predecessors[i], k))
    || (exists i :: 0 <= i < |hs[k].successors| && NamedBy(hs, hs[k].successors[i], m))
  }

  /** g holds exactly the constraints of hs. */
  ghost predicate IsGraphOf(hs: seq<Hook>, g: Graph) {
    && WellFormed(g) && |g| == |hs|
    && forall k, m :: 0 <= k < |hs| && 0 <= m < |hs| ==> (k in g[m] <==> MustPrecede(hs, k, m))
  }

  /** nPred and pred store g, with the slots of the items in done emptied. */
  ghost predicate Stores(nPred: array<nat>, pred: array2<int>, g: Graph, done: seq<nat>)
    reads nPred, pred
  {
    && nPred.Length == pred.Length0 == pred.Length1 == |g| && WellFormed(g)
    && forall i :: 0 <= i < |g| ==> Row(nPred, pred, g, i, done)
  }

  ghost predicate Row(nPred: array<nat>, pred: array2<int>, g: Graph, i: nat, done: seq<nat>)
    requires nPred.Length == pred.Length0 == pred.Length1 == |g| && i < |g|
    reads nPred, pred
  {
    && |g[i]| <= |g| && nPred[i] == Undone(g[i], done)
    && forall k :: 0 <= k < |g| ==> pred[i, k] == if k < |g[i]| && g[i][k] !in done then g[i][k] else -1
  }

  /** How many of ps are not done. */
  function Undone(ps: seq<nat>, done: seq<nat>): (r: nat)
    ensures r <= |ps| && (r == 0 <==> forall i :: 0 <= i < |ps| ==> ps[i] in done)
  {
    if |ps| == 0 then 0
    else Undone(ps[..|ps| - 1], done) + if ps[|ps| - 1] in done then 0 else 1
  }

  lemma {:induction false} UndoneNone(ps: seq<nat>)
    ensures Undone(ps, []) == |ps|
    decreases |ps|
  {
    if |ps| > 0 {
      UndoneNone(ps[..|ps| - 1]);
    }
  }

  lemma {:induction false} UndoneDrops(ps: seq<nat>, done: seq<nat>, m: nat)
    requires Distinct(ps) && m !in done
    ensures Undone(ps, done + [m]) == Undone(ps, done) - if m in ps then 1 else 0
    decreases |ps|
  {
    if |ps| > 0 {
      var init, x := ps[..|ps| - 1], ps[|ps| - 1];
      assert ps == init + [x];
      UndoneDrops(init, done, m);
    }
  }

  // ---------- tsort ----------

  /** The first slot of item n that is not NULL. */
  method FirstSlot(pred: array2<int>, nPred: array<nat>, n: nat, ghost g: Graph, ghost done: seq<nat>) returns (k: nat)
    requires nPred.Length == pred.Length0 == pred.Length1 == |g| && n < |g|
    requires Row(nPred, pred, g, n, done) && nPred[n] > 0
    ensures k < |g[n]| && k == FirstUndone(g[n], done, 0) && pred[n, k] == g[n][k]
  {
    k := 0;
    while pred[n, k] == -1
      invariant 0 <= k < |g[n]|
      invariant forall i :: 0 <= i < k ==> g[n][i] in done
      decreases |g[n]| - k
    {
      ghost var i :| 0 <= i < |g[n]| && g[n][i] !in done;
      k := k + 1;
    }
    FirstUndoneIs(g[n], done, 0, k);
  }

  lemma {:induction false} FirstUndoneIs(ps: seq<nat>, done: seq<nat>, k: nat, r: nat)
    requires k <= r < |ps| && ps[r] !in done && forall i :: k <= i < r ==> ps[i] in done
    ensures FirstUndone(ps, done, k) == r
    decreases r - k
  {
    if k < r {
      FirstUndoneIs(ps, done, k + 1, r);
    }
  }

  /** Marks of the items: an item is linked exactly when it is done. */
  ghost predicate Links(next: array<int>, done: seq<nat>, tail: int)
    reads next
  {
    && (forall i :: 0 <= i < next.Length ==> (next[i] != -1 <==> i in done))
    && (forall i :: 0 <= i < |done| ==> done[i] < next.Length)
    && (forall i, j :: 0 <= i && j == i + 1 && j < |done| ==> next[done[i]] == done[j])
    && (if |done| == 0 then tail == -1 else tail == done[|done| - 1] && next[tail] == tail)
  }

  /** One walk: from the first item not yet linked, down through predecessors to an item without any. */
  method Walk(nPred: array<nat>, pred: array2<int>, next: array<int>,
              ghost g: Graph, ghost rank: seq<nat>, ghost done: seq<nat>, ghost tail: int) returns (n: nat)
    requires Stores(nPred, pred, g, done) && Ranked(g, rank) && next.Length == |g| && Links(next, done, tail)
    requires Partial(g, done) && |done| < |g|
    ensures FirstOpen(g, done, 0) < |g| && n == Descend(g, rank, FirstOpen(g, done, 0), done)
  {
    OpenIffFewer(g, done);
    ghost var open := FirstOpen(g, done, 0);
    ghost var down := false;
    n := 0;
    while true
      invariant n < |g|
      invariant down ==> n !in done && Descend(g, rank, n, done) == Descend(g, rank, open, done)
      invariant !down ==> n <= open
      decreases if down then 0 else 1, if down then rank[n] else open - n
    {
      if next[n] == -1 {
        assert n == open || down;
        assert Row(nPred, pred, g, n, done);
        if nPred[n] == 0 {
          return;
        }
        var k := FirstSlot(pred, nPred, n, g, done);
        n, down := pred[n, k], true;
      } else {
        n := n + 1;
      }
    }
  }

  /** Item m leaves the slots of every item that it precedes. */
  method Unslot(nPred: array<nat>, pred: array2<int>, m: nat, ghost g: Graph, ghost done: seq<nat>)
    requires Stores(nPred, pred, g, done) && m < |g| && m !in done
    modifies nPred, pred
    ensures Stores(nPred, pred, g, done + [m])
  {
    for i := 0 to nPred.Length
      invariant forall x :: 0 <= x < i ==> Row(nPred, pred, g, x, done + [m])
      invariant forall x :: i <= x < |g| ==> Row(nPred, pred, g, x, done)
    {
      label before:
      UnslotRow(nPred, pred, m, i, g, done);
      forall x | 0 <= x < i ensures Row(nPred, pred, g, x, done + [m]) {
        assert old@before(Row(nPred, pred, g, x, done + [m]));
        assert forall k :: 0 <= k < |g| ==> pred[x, k] == old@before(pred[x, k]);
      }
      forall x | i < x < |g| ensures Row(nPred, pred, g, x, done) {
        assert old@before(Row(nPred, pred, g, x, done));
        assert forall k :: 0 <= k < |g| ==> pred[x, k] == old@before(pred[x, k]);
      }
    }
  }

  method UnslotRow(nPred: array<nat>, pred: array2<int>, m: nat, i: nat, ghost g: Graph, ghost done: seq<nat>)
    requires nPred.Length == pred.Length0 == pred.Length1 == |g| && WellFormed(g) && i < |g|
    requires Row(nPred, pred, g, i, done) && m !in done
    modifies nPred, pred
    ensures Row(nPred, pred, g, i, done + [m])
    ensures forall x :: 0 <= x < |g| && x != i ==> nPred[x] == old(nPred[x])
    ensures forall x, k :: 0 <= x < |g| && 0 <= k < |g| && x != i ==> pred[x, k] == old(pred[x, k])
  {
    var n := nPred.Length;
    UndoneDrops(g[i], done, m);
    var k := 0;
    while k < n && pred[i, k] != m
      invariant 0 <= k <= n
      invariant forall l :: 0 <= l < k ==> pred[i, l] != m
    {
      k := k + 1;
    }
    if k < n {
      nPred[i] := nPred[i] - 1;
      pred[i, k] := -1;
    } else {
      assert forall l :: 0 <= l < |g[i]| ==> pred[i, l] != m;
    }
  }

  /** Following next from head lists the items of s. */
  ghost predicate IsList(next: array<int>, head: int, s: seq<nat>)
    reads next
  {
    && |s| > 0 && head == s[0]
    && (forall i :: 0 <= i < |s| ==> s[i] < next.Length)
    && (forall i, j :: 0 <= i && j == i + 1 && j < |s| ==> next[s[i]] == s[j])
    && next[s[|s| - 1]] == -1
  }

  /** Item n goes behind the tail and links to itself, which marks it as linked. */
  method LinkTail(next: array<int>, tail: int, n: nat, ghost done: seq<nat>)
    requires Links(next, done, tail) && Distinct(done) && n < next.Length && n !in done
    modifies next
    ensures Links(next, done + [n], n)
  {
    if tail != -1 {
      next[tail] := n;
    }
    next[n] := n;
  }

  method EndList(next: array<int>, tail: int, ghost done: seq<nat>)
    requires Links(next, done, tail) && Distinct(done) && |done| > 0
    modifies next
    ensures IsList(next, done[0], done)
  {
    next[tail] := -1;
  }

  /** The sort links the items in exactly the depth-first post-order of the constraint graph. */
  method Tsort(nPred: array<nat>, pred: array2<int>, next: array<int>, ghost g: Graph, ghost rank: seq<nat>)
    returns (head: int)
    requires |g| > 0 && next.Length == |g| && Ranked(g, rank) && Stores(nPred, pred, g, [])
    requires Unlinked(next)
    requires next as object != nPred as object
    modifies nPred, pred, next
    ensures IsList(next, head, PostOrder(g, rank))
  {
    hide Ranked, VisitFrom, Row, PredsIn, WellFormed;
    head := -1;
    var tail: int := -1;
    ghost var done: seq<nat> := [];
    for total := 0 to next.Length
      invariant Stores(nPred, pred, g, done) && Links(next, done, tail) && Partial(g, done) && |done| == total
      invariant head == if total == 0 then -1 else done[0]
      invariant VisitFrom(g, rank, 0, done) == PostOrder(g, rank)
    {
      OpenIffFewer(g, done);
      var n := Walk(nPred, pred, next, g, rank, done, tail);
      StepKeepsPostOrder(g, rank, done);
      PartialExtends(g, done, n);
      if tail == -1 {
        head := n;
      }
      LinkTail(next, tail, n, done);
      tail := n;
      Unslot(nPred, pred, n, g, done);
      done := done + [n];
    }
    OpenIffFewer(g, done);
    NothingOpen(g, rank, done);
    EndList(next, tail, done);
  }

  // ---------- prepare ----------

  /** The first hook with the given name, or -1. */
  method FindName(hs: seq<Hook>, s: string) returns (k: int)
    ensures k == -1 ==> forall j :: 0 <= j < |hs| ==> hs[j].name != s
    ensures k != -1 ==> k >= 0 && NamedBy(hs, s, k)
  {
    for j := 0 to |hs|
      invariant forall i :: 0 <= i < j ==> hs[i].name != s
    {
      if hs[j].name == s {
        return j;
      }
    }
    return -1;
  }

  ghost function Added(g: Graph, n: nat, k: nat): Graph
    requires n < |g|
  {
    if k in g[n] then g else g[n := g[n] + [k]]
  }

  lemma RoomForOne(ps: seq<nat>, n: nat, k: nat)
    requires Distinct(ps) && (forall i :: 0 <= i < |ps| ==> ps[i] < n) && k < n && k !in ps
    ensures |ps| < n
  {
    assert Elements(ps) <= Below(n) - {k};
    SubsetSize(Elements(ps), Below(n) - {k});
  }

  lemma AddedWellFormed(g: Graph, n: nat, k: nat)
    requires WellFormed(g) && n < |g| && k < |g|
    ensures WellFormed(Added(g, n, k)) && |g[n]| <= |g|
    ensures k !in g[n] ==> |g[n]| < |g|
  {
    if k !in g[n] {
      RoomForOne(g[n], |g|, k);
    } else {
      assert Elements(g[n]) <= Below(|g|);
      SubsetSize(Elements(g[n]), Below(|g|));
    }
  }

  /** k becomes a predecessor of n, once. */
  method AddPredecessor(nPred: array<nat>, pred: array2<int>, n: nat, k: nat, ghost g: Graph)
    requires Stores(nPred, pred, g, []) && n < |g| && k < |g|
    modifies nPred, pred
    ensures Stores(nPred, pred, Added(g, n, k), [])
  {
    hide WellFormed, Undone;
    UndoneNone(g[n]);
    AddedWellFormed(g, n, k);
    assert Row(nPred, pred, g, n, []);
    for l := 0 to nPred[n]
      invariant forall i :: 0 <= i < l ==> g[n][i] != k
    {
      if pred[n, l] == k {
        return;
      }
    }
    ghost var g' := Added(g, n, k);
    UndoneNone(g'[n]);
    label before:
    pred[n, nPred[n]] := k;
    nPred[n] := nPred[n] + 1;
    forall i | 0 <= i < |g'| ensures Row(nPred, pred, g', i, []) {
      assert old@before(Row(nPred, pred, g, i, []));
    }
  }

  /** k precedes m by one of the first pm predecessor names of m or the first sk successor names of k. */
  ghost predicate By(hs: seq<Hook>, k: nat, m: nat, pm: nat, sk: nat)
    requires k < |hs| && m < |hs| && pm <= |hs[m].predecessors| && sk <= |hs[k].successors|
  {
    || (exists i :: 0 <= i < pm && NamedBy(hs, hs[m].predecessors[i], k))
    || (exists i :: 0 <= i < sk && NamedBy(hs, hs[k].successors[i], m))
  }

  /** How many names of a list of hook x have been read when hook n is at name i. */
  function Read(x: nat, n: nat, size: nat, i: nat): (r: nat)
    ensures i <= size ==> r <= size
  {
    if x < n then size else if x == n then i else 0
  }

  /** g holds the constraints of the hooks before n, and of n's first p predecessors and s successors. */
  ghost predicate UpTo(hs: seq<Hook>, g: Graph, n: nat, p: nat, s: nat) {
    && WellFormed(g) && |g| == |hs| && n <= |hs|
    && (n < |hs| ==> p <= |hs[n].predecessors| && s <= |hs[n].successors|) && (n == |hs| ==> p == s == 0)
    && forall k, m :: 0 <= k < |hs| && 0 <= m < |hs| ==>
         (k in g[m] <==> By(hs, k, m, Read(m, n, |hs[m].predecessors|, p), Read(k, n, |hs[k].successors|, s)))
  }

  lemma FirstNameUnique(hs: seq<Hook>, s: string, k: nat, k': nat)
    requires NamedBy(hs, s, k) && NamedBy(hs, s, k')
    ensures k == k'
  {
  }

  /** Reading predecessor p of hook n. */
  lemma ReadPredecessor(hs: seq<Hook>, g: Graph, g': Graph, n: nat, p: nat, x: int)
    requires UpTo(hs, g, n, p, 0) && n < |hs| && p < |hs[n].predecessors| && WellFormed(g')
    requires x == -1 ==> g' == g && forall k :: !NamedBy(hs, hs[n].predecessors[p], k)
    requires x != -1 ==> 0 <= x < |hs| && NamedBy(hs, hs[n].predecessors[p], x) && g' == Added(g, n, x)
    ensures UpTo(hs, g', n, p + 1, 0)
  {
    forall k, m | 0 <= k < |hs| && 0 <= m < |hs|
      ensures k in g'[m] <==> By(hs, k, m, Read(m, n, |hs[m].predecessors|, p + 1), Read(k, n, |hs[k].successors|, 0))
    {
      assert k in g'[m] <==> k in g[m] || (m == n && k == x);
      assert k in g[m] <==> By(hs, k, m, Read(m, n, |hs[m].predecessors|, p), Read(k, n, |hs[k].successors|, 0));
      if m == n && NamedBy(hs, hs[n].predecessors[p], k) {
        if x != -1 { FirstNameUnique(hs, hs[n].predecessors[p], k, x); }
      }
    }
  }

  /** Reading successor s of hook n. */
  lemma ReadSuccessor(hs: seq<Hook>, g: Graph, g': Graph, n: nat, s: nat, x: int)
    requires n < |hs| && UpTo(hs, g, n, |hs[n].predecessors|, s) && s < |hs[n].successors| && WellFormed(g')
    requires x == -1 ==> g' == g && forall k :: !NamedBy(hs, hs[n].successors[s], k)
    requires x != -1 ==> 0 <= x < |hs| && NamedBy(hs, hs[n].successors[s], x) && g' == Added(g, x, n)
    ensures UpTo(hs, g', n, |hs[n].predecessors|, s + 1)
  {
    var p := |hs[n].predecessors|;
    forall k, m | 0 <= k < |hs| && 0 <= m < |hs|
      ensures k in g'[m] <==> By(hs, k, m, Read(m, n, |hs[m].predecessors|, p), Read(k, n, |hs[k].successors|, s + 1))
    {
      assert k in g'[m] <==> k in g[m] || (m == x && k == n);
      assert k in g[m] <==> By(hs, k, m, Read(m, n, |hs[m].predecessors|, p), Read(k, n, |hs[k].successors|, s));
      if k == n && NamedBy(hs, hs[n].successors[s], m) {
        if x != -1 { FirstNameUnique(hs, hs[n].successors[s], m, x); }
      }
    }
  }

  lemma NextHook(hs: seq<Hook>, g: Graph, n: nat)
    requires n < |hs| && UpTo(hs, g, n, |hs[n].predecessors|, |hs[n].successors|)
    ensures UpTo(hs, g, n + 1, 0, 0)
  {
    forall k, m | 0 <= k < |hs| && 0 <= m < |hs|
      ensures k in g[m] <==>
              By(hs, k, m, Read(m, n + 1, |hs[m].predecessors|, 0), Read(k, n + 1, |hs[k].successors|, 0))
    {
      assert k in g[m] <==> By(hs, k, m, Read(m, n, |hs[m].predecessors|, |hs[n].predecessors|),
                               Read(k, n, |hs[k].successors|, |hs[n].successors|));
    }
  }

  lemma AllRead(hs: seq<Hook>, g: Graph)
    requires UpTo(hs, g, |hs|, 0, 0)
    ensures IsGraphOf(hs, g)
  {
    forall k, m | 0 <= k < |hs| && 0 <= m < |hs| ensures k in g[m] <==> MustPrecede(hs, k, m) {
      assert k in g[m] <==> By(hs, k, m, Read(m, |hs|, |hs[m].predecessors|, 0), Read(k, |hs|, |hs[k].successors|, 0));
    }
  }

  /** The predecessor names of hook n. */
  method ReadPredecessors(hs: seq<Hook>, n: nat, nPred: array<nat>, pred: array2<int>, ghost g0: Graph)
    returns (ghost g: Graph)
    requires n < |hs| && UpTo(hs, g0, n, 0, 0) && Stores(nPred, pred, g0, [])
    modifies nPred, pred
    ensures UpTo(hs, g, n, |hs[n].predecessors|, 0) && Stores(nPred, pred, g, [])
  {
    hide By, Row;
    g := g0;
    for i := 0 to |hs[n].predecessors|
      invariant UpTo(hs, g, n, i, 0) && Stores(nPred, pred, g, [])
    {
      var k := FindName(hs, hs[n].predecessors[i]);
      ghost var g1 := g;
      if k != -1 {
        AddPredecessor(nPred, pred, n, k, g);
        g := Added(g, n, k);
      }
      ReadPredecessor(hs, g1, g, n, i, k);
    }
  }

  /** The successor names of hook n. */
  method ReadSuccessors(hs: seq<Hook>, n: nat, nPred: array<nat>, pred: array2<int>, ghost g0: Graph)
    returns (ghost g: Graph)
    requires n < |hs| && UpTo(hs, g0, n, |hs[n].predecessors|, 0) && Stores(nPred, pred, g0, [])
    modifies nPred, pred
    ensures UpTo(hs, g, n, |hs[n].predecessors|, |hs[n].successors|) && Stores(nPred, pred, g, [])
  {
    hide By, Row;
    g := g0;
    for i := 0 to |hs[n].successors|
      invariant UpTo(hs, g, n, |hs[n].predecessors|, i) && Stores(nPred, pred, g, [])
    {
      var k := FindName(hs, hs[n].successors[i]);
      ghost var g1 := g;
      if k != -1 {
        AddPredecessor(nPred, pred, k, n, g);
        g := Added(g, k, n);
      }
      ReadSuccessor(hs, g1, g, n, i, k);
    }
  }

  /** Builds the slots; the hooks are already in crude order. */
  method Prepare(hs: seq<Hook>) returns (nPred: array<nat>, pred: array2<int>, next: array<int>, ghost g: Graph)
    ensures fresh(nPred) && fresh(pred) && fresh(next) && next as object != nPred as object
    ensures next.Length == |hs| && Unlinked(next)
    ensures IsGraphOf(hs, g) && Stores(nPred, pred, g, [])
  {
    nPred := new nat[|hs|](_ => 0);
    pred := new int[|hs|, |hs|]((_, _) => -1);
    next := new int[|hs|](_ => -1);
    g := seq(|hs|, _ => []);
    NothingRead(hs, g);
    NoSlots(nPred, pred, g);
    hide UpTo, Stores;
    for n := 0 to |hs|
      invariant fresh(nPred) && fresh(pred) && Unlinked(next)
      invariant UpTo(hs, g, n, 0, 0) && Stores(nPred, pred, g, [])
    {
      g := ReadPredecessors(hs, n, nPred, pred, g);
      g := ReadSuccessors(hs, n, nPred, pred, g);
      NextHook(hs, g, n);
    }
    AllRead(hs, g);
  }

  lemma NoSlots(nPred: array<nat>, pred: array2<int>, g: Graph)
    requires nPred.Length == pred.Length0 == pred.Length1 == |g|
    requires forall n :: 0 <= n < |g| ==> g[n] == [] && nPred[n] == 0
    requires forall n, k :: 0 <= n < |g| && 0 <= k < |g| ==> pred[n, k] == -1
    ensures Stores(nPred, pred, g, [])
  {
    forall i | 0 <= i < |g| ensures Row(nPred, pred, g, i, []) {
    }
  }

  ghost predicate Unlinked(next: array<int>)
    reads next
  {
    forall i :: 0 <= i < next.Length ==> next[i] == -1
  }

  lemma NothingRead(hs: seq<Hook>, g: Graph)
    requires |g| == |hs| && forall n :: 0 <= n < |g| ==> g[n] == []
    ensures UpTo(hs, g, 0, 0, 0)
  {
  }

  // ---------- sort_hook ----------

  /** The constraints of hs leave room for an order. */
  ghost predicate Orderable(hs: seq<Hook>) {
    exists rank :: HookRank(hs, rank)
  }

  ghost predicate HookRank(hs: seq<Hook>, rank: seq<nat>) {
    |rank| == |hs| && forall k, m :: 0 <= k < |hs| && 0 <= m < |hs| && MustPrecede(hs, k, m) ==> rank[k] < rank[m]
  }

  /** s lists every hook once, each after all hooks that must precede it. */
  ghost predicate MeetsConstraints(hs: seq<Hook>, s: seq<nat>) {
    && Distinct(s) && |s| == |hs| && (forall i :: 0 <= i < |s| ==> s[i] < |hs|)
    && forall i :: 0 <= i < |s| ==> forall k :: 0 <= k < |hs| && MustPrecede(hs, k, s[i]) ==> k in s[..i]
  }

  lemma RankOfGraph(hs: seq<Hook>, g: Graph, rank: seq<nat>)
    requires IsGraphOf(hs, g) && HookRank(hs, rank)
    ensures Ranked(g, rank)
  {
    forall n | 0 <= n < |g| ensures forall k :: 0 <= k < |g[n]| ==> rank[g[n][k]] < rank[n] {
      forall k | 0 <= k < |g[n]| ensures rank[g[n][k]] < rank[n] {
        assert g[n][k] in g[n];
      }
    }
  }

  lemma ValidMeets(hs: seq<Hook>, g: Graph, s: seq<nat>)
    requires IsGraphOf(hs, g) && ValidOrder(g, s)
    ensures MeetsConstraints(hs, s)
  {
    forall i | 0 <= i < |s|
      ensures forall k :: 0 <= k < |hs| && MustPrecede(hs, k, s[i]) ==> k in s[..i]
    {
      assert PredsIn(g, s, i);
    }
  }

  /** A set of hooks can be sorted exactly when some order meets all its constraints. */
  lemma OrderableIffSortable(hs: seq<Hook>, g: Graph)
    requires IsGraphOf(hs, g)
    ensures Orderable(hs) <==> exists s :: MeetsConstraints(hs, s)
  {
    if Orderable(hs) {
      var rank :| HookRank(hs, rank);
      RankOfGraph(hs, g, rank);
      PostOrderIsValid(g, rank);
      ValidMeets(hs, g, PostOrder(g, rank));
    }
    if s :| MeetsConstraints(hs, s) {
      forall i | 0 <= i < |s| ensures PredsIn(g, s, i) {
        forall k | 0 <= k < |g[s[i]]| ensures g[s[i]][k] in s[..i] {
          assert g[s[i]][k] in g[s[i]];
          assert MustPrecede(hs, g[s[i]][k], s[i]);
        }
      }
      assert ValidOrder(g, s);
      AcyclicIffOrderable(g);
      var rank :| Ranked(g, rank);
      assert HookRank(hs, rank);
    }
  }

  /**
   sort_hook of hooks in the order that qsort by the order field left them in. The
   result is the depth-first post-order: every hook once, after all that must precede
   it, and the given order itself when that already meets all constraints.
   */
  method SortHook(hs: seq<Hook>) returns (sorted: seq<Hook>, ghost s: seq<nat>)
    requires |hs| > 0 && Orderable(hs)
    ensures MeetsConstraints(hs, s) && |sorted| == |s|
    ensures forall i :: 0 <= i < |s| ==> sorted[i] == hs[s[i]]
    ensures (forall k, m :: 0 <= k < |hs| && 0 <= m < |hs| && MustPrecede(hs, k, m) ==> k < m) ==> sorted == hs
  {
    var nPred, pred, next;
    ghost var g;
    nPred, pred, next, g := Prepare(hs);
    ghost var rank :| HookRank(hs, rank);
    RankOfGraph(hs, g, rank);
    var p := Tsort(nPred, pred, next, g, rank);
    s := PostOrder(g, rank);
    PostOrderIsValid(g, rank);
    ValidMeets(hs, g, s);
    sorted := [];
    while p != -1
      invariant |sorted| <= |s| && p == (if |sorted| < |s| then s[|sorted|] else -1)
      invariant forall i :: 0 <= i < |sorted| ==> sorted[i] == hs[s[i]]
      decreases |s| - |sorted|
    {
      sorted := sorted + [hs[p]];
      p := next[p];
    }
    if forall k, m :: 0 <= k < |hs| && 0 <= m < |hs| && MustPrecede(hs, k, m) ==> k < m {
      InOrderKept(hs, g, rank);
      assert sorted == hs;
    }
  }

  lemma InOrderKept(hs: seq<Hook>, g: Graph, rank: seq<nat>)
    requires IsGraphOf(hs, g) && Ranked(g, rank)
    requires forall k, m :: 0 <= k < |hs| && 0 <= m < |hs| && MustPrecede(hs, k, m) ==> k < m
    ensures PostOrder(g, rank) == Upto(|hs|)
  {
    forall n | 0 <= n < |g| ensures forall k :: 0 <= k < |g[n]| ==> g[n][k] < n {
      forall k | 0 <= k < |g[n]| ensures g[n][k] < n {
        assert g[n][k] in g[n];
      }
    }
    InOrderStays(g, rank);
  }
}
