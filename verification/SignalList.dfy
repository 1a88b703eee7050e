/** The connection list of one signal, and the cursor of its emission. */
module SignalList {

  // A list node is a number that is never used twice, so an iterator is End or a
  // node, as a std::list iterator is; D is the type of destinations.

  datatype Conn<D> = Conn(node: nat, dest: D, slot: int)
  datatype Cursor = End | At(node: nat)
  datatype Sig<D> = Sig(conns: seq<Conn<D>>, cursor: Cursor, next: nat)

  ghost predicate HasNode<D>(conns: seq<Conn<D>>, n: nat) {
    exists i :: 0 <= i < |conns| && conns[i].node == n
  }

  /** Nodes stand in the order of their creation, and the cursor is a live position or the end. */
  ghost predicate Valid<D>(s: Sig<D>) {
    && (forall i, j :: 0 <= i < j < |s.conns| ==> s.conns[i].node < s.conns[j].node)
    && (forall i :: 0 <= i < |s.conns| ==> s.conns[i].node < s.next)
    && (s.cursor.At? ==> HasNode(s.conns, s.cursor.node))
  }

  ghost predicate Connected<D>(conns: seq<Conn<D>>, d: D) {
    exists i :: 0 <= i < |conns| && conns[i].dest == d
  }

  ghost predicate Within<D>(conns: seq<Conn<D>>, O: set<D>) {
    forall i :: 0 <= i < |conns| ==> conns[i].dest in O
  }

  /** The first position whose node is at least n. */
  function FirstFrom<D>(conns: seq<Conn<D>>, n: nat): (c: Cursor)
    ensures c.At? ==> c.node >= n && HasNode(conns, c.node)
    ensures c.End? <==> forall i :: 0 <= i < |conns| ==> conns[i].node < n
  {
    if |conns| == 0 then End
    else if conns[0].node >= n then
      assert HasNode(conns, conns[0].node);
      At(conns[0].node)
    else
      var c := FirstFrom(conns[1..], n);
      assert forall i :: 0 <= i < |conns[1..]| ==> conns[1..][i] == conns[i + 1];
      assert forall i :: 0 < i < |conns| ==> conns[i] == conns[1..][i - 1];
      c
  }

  /** Where an iterator stands once only the nodes of conns are left: the first of them at or after it. */
  function Settle<D>(conns: seq<Conn<D>>, c: Cursor): Cursor {
    if c.End? then End else FirstFrom(conns, c.node)
  }

  /** The connections to other destinations than d. */
  function Without<D(==)>(conns: seq<Conn<D>>, d: D): (r: seq<Conn<D>>)
    ensures forall c :: c in r ==> c in conns && c.dest != d
    ensures forall c :: c in conns && c.dest != d ==> c in r
  {
    if |conns| == 0 then []
    else
      assert conns == conns[..|conns| - 1] + [conns[|conns| - 1]];
      Without(conns[..|conns| - 1], d) + if conns[|conns| - 1].dest == d then [] else [conns[|conns| - 1]]
  }

  /** All but the first connection to d. */
  function WithoutFirst<D(==)>(conns: seq<Conn<D>>, d: D): seq<Conn<D>> {
    if |conns| == 0 then []
    else if conns[0].dest == d then conns[1..]
    else [conns[0]] + WithoutFirst(conns[1..], d)
  }

  /** For each connection to d in order, one to d' at the end. */
  function Copies<D(==)>(conns: seq<Conn<D>>, d: D, d': D, next: nat): (r: seq<Conn<D>>)
    ensures forall i :: 0 <= i < |r| ==> r[i].node == next + i && r[i].dest == d'
  {
    if |conns| == 0 then []
    else
      var r := Copies(conns[..|conns| - 1], d, d', next);
      if conns[|conns| - 1].dest == d then r + [Conn(next + |r|, d', conns[|conns| - 1].slot)] else r
  }

  // ---------- the operations on one list ----------

  datatype Op<D> = Connect(d: D, slot: int) | Disconnect(d: D) | SlotDisconnect(d: D) | DisconnectAll
                 | Duplicate(d: D, d': D)

  function Apply<D(==)>(s: Sig<D>, op: Op<D>): Sig<D> {
    match op
    case Connect(d, slot) => s.(conns := s.conns + [Conn(s.next, d, slot)], next := s.next + 1)
    case Disconnect(d) =>
      var rest := WithoutFirst(s.conns, d);
      s.(conns := rest, cursor := Settle(rest, s.cursor))
    case SlotDisconnect(d) =>
      var rest := Without(s.conns, d);
      s.(conns := rest, cursor := Settle(rest, s.cursor))
    case DisconnectAll => s.(conns := [], cursor := End)
    case Duplicate(d, d') =>
      var more := Copies(s.conns, d, d', s.next);
      s.(conns := s.conns + more, next := s.next + |more|)
  }

  function ApplyAll<D(==)>(s: Sig<D>, ops: seq<Op<D>>): Sig<D>
    decreases |ops|
  {
    if |ops| == 0 then s else ApplyAll(Apply(s, ops[0]), ops[1..])
  }

  /** The cursor moves on before the slot is called. */
  function Advance<D>(s: Sig<D>): Sig<D> {
    if s.cursor.End? then s else s.(cursor := FirstFrom(s.conns, s.cursor.node + 1))
  }

  /** One turn of emission: the cursor advances and the called slot does as it likes. */
  function Turn<D(==)>(s: Sig<D>, ops: seq<Op<D>>): Sig<D> {
    ApplyAll(Advance(s), ops)
  }

  /** The turns of an emission: the final state and the nodes called; turns[i] is what the i-th called slot does. */
  function Run<D(==)>(s: Sig<D>, turns: seq<seq<Op<D>>>): (r: (Sig<D>, seq<nat>))
    decreases |turns|
  {
    if s.cursor.End? || |turns| == 0 then (s, [])
    else
      var (t, called) := Run(Turn(s, turns[0]), turns[1..]);
      (t, [s.cursor.node] + called)
  }

  /** What the iterator at a node calls: the object and the slot of the connection there. */
  function CallAt<D>(conns: seq<Conn<D>>, node: nat): seq<(D, int)> {
    if |conns| == 0 then []
    else if conns[0].node == node then [(conns[0].dest, conns[0].slot)] else CallAt(conns[1..], node)
  }

  /** The objects and slots that an emission calls, turn by turn. */
  function Calls<D(==)>(s: Sig<D>, turns: seq<seq<Op<D>>>): seq<(D, int)>
    decreases |turns|
  {
    if s.cursor.End? || |turns| == 0 then []
    else CallAt(s.conns, s.cursor.node) + Calls(Turn(s, turns[0]), turns[1..])
  }

  /** The state before the i-th turn. */
  function Before<D(==)>(s: Sig<D>, turns: seq<seq<Op<D>>>, i: nat): Sig<D>
    requires i <= |turns|
    decreases i
  {
    if i == 0 then s else Before(Turn(s, turns[0]), turns[1..], i - 1)
  }

  /** emit: the cursor starts at the front. */
  function Start<D>(s: Sig<D>): Sig<D> {
    s.(cursor := FirstFrom(s.conns, 0))
  }

  // ---------- slots ----------

  /** The slots of the connections to d, in list order. */
  function SlotsTo<D(==)>(conns: seq<Conn<D>>, d: D): seq<int> {
    if |conns| == 0 then []
    else SlotsTo(conns[..|conns| - 1], d) + if conns[|conns| - 1].dest == d then [conns[|conns| - 1].slot] else []
  }

  lemma {:induction false} SlotsConcat<D>(a: seq<Conn<D>>, b: seq<Conn<D>>, d: D)
    ensures SlotsTo(a + b, d) == SlotsTo(a, d) + SlotsTo(b, d)
    decreases |b|
  {
    if |b| == 0 {
      assert a + b == a;
    } else {
      assert (a + b)[..|a + b| - 1] == a + b[..|b| - 1];
      SlotsConcat(a, b[..|b| - 1], d);
    }
  }

  lemma SlotsOne<D>(c: Conn<D>, d: D)
    ensures SlotsTo([c], d) == if c.dest == d then [c.slot] else []
  {
    assert [c][..0] == [];
  }

  lemma {:induction false} NoSlots<D>(conns: seq<Conn<D>>, d: D)
    ensures SlotsTo(conns, d) == [] <==> !Connected(conns, d)
    decreases |conns|
  {
    if |conns| > 0 {
      var init, c := conns[..|conns| - 1], conns[|conns| - 1];
      assert conns == init + [c];
      NoSlots(init, d);
      ConnectedMore(init, c);
    }
  }

  /** The slots through which d is called once op is done. */
  function SlotsAfter<D(==)>(conns: seq<Conn<D>>, op: Op<D>, e: D): seq<int> {
    var was := SlotsTo(conns, e);
    match op
    case Connect(d, slot) => if e == d then was + [slot] else was
    case Disconnect(d) => if e == d && was != [] then was[1..] else was
    case SlotDisconnect(d) => if e == d then [] else was
    case DisconnectAll => []
    case Duplicate(d, d') => if e == d' then was + SlotsTo(conns, d) else was
  }

  lemma {:induction false} WithoutFirstSlots<D>(conns: seq<Conn<D>>, d: D, e: D)
    ensures SlotsTo(WithoutFirst(conns, d), e) == SlotsAfter(conns, Disconnect(d), e)
    decreases |conns|
  {
    if |conns| > 0 {
      var c, tail := conns[0], conns[1..];
      assert conns == [c] + tail;
      SlotsConcat([c], tail, e);
      SlotsOne(c, e);
      if c.dest != d {
        WithoutFirstSlots(tail, d, e);
        SlotsConcat([c], WithoutFirst(tail, d), e);
      }
    }
  }

  lemma {:induction false} WithoutSlots<D>(conns: seq<Conn<D>>, d: D, e: D)
    ensures SlotsTo(Without(conns, d), e) == SlotsAfter(conns, SlotDisconnect(d), e)
    decreases |conns|
  {
    if |conns| > 0 {
      var init, c := conns[..|conns| - 1], conns[|conns| - 1];
      WithoutSlots(init, d, e);
      SlotsConcat(Without(init, d), if c.dest == d then [] else [c], e);
      SlotsOne(c, e);
    }
  }

  lemma {:induction false} CopiesSlots<D>(conns: seq<Conn<D>>, d: D, d': D, next: nat, e: D)
    ensures SlotsTo(Copies(conns, d, d', next), e) == if e == d' then SlotsTo(conns, d) else []
    decreases |conns|
  {
    if |conns| > 0 {
      var init, c := conns[..|conns| - 1], conns[|conns| - 1];
      var r := Copies(init, d, d', next);
      CopiesSlots(init, d, d', next, e);
      if c.dest == d {
        SlotsConcat(r, [Conn(next + |r|, d', c.slot)], e);
        SlotsOne(Conn(next + |r|, d', c.slot), e);
      }
    }
  }

  /** Every operation leaves each object the slots that it shall be called through, in their order. */
  lemma ApplySlots<D>(s: Sig<D>, op: Op<D>, e: D)
    ensures SlotsTo(Apply(s, op).conns, e) == SlotsAfter(s.conns, op, e)
  {
    match op
    case Connect(d, slot) =>
      SlotsConcat(s.conns, [Conn(s.next, d, slot)], e);
      SlotsOne(Conn(s.next, d, slot), e);
    case Disconnect(d) => WithoutFirstSlots(s.conns, d, e);
    case SlotDisconnect(d) => WithoutSlots(s.conns, d, e);
    case DisconnectAll =>
    case Duplicate(d, d') =>
      var more := Copies(s.conns, d, d', s.next);
      SlotsConcat(s.conns, more, e);
      CopiesSlots(s.conns, d, d', s.next, e);
  }

  // ---------- what each operation keeps ----------

  /** r results from s by deletions and by additions at the end. */
  ghost predicate Evolves<D>(s: Sig<D>, r: Sig<D>) {
    && s.next <= r.next && (forall n: nat :: n < s.next && HasNode(r.conns, n) ==> HasNode(s.conns, n))
    && forall i :: 0 <= i < |r.conns| && r.conns[i].node < s.next ==> r.conns[i] in s.conns
  }

  lemma {:induction false} WithoutOrdered<D>(conns: seq<Conn<D>>, d: D, next: nat)
    requires Valid(Sig(conns, End, next))
    ensures Valid(Sig(Without(conns, d), End, next))
    decreases |conns|
  {
    if |conns| > 0 {
      var init := conns[..|conns| - 1];
      WithoutOrdered(init, d, next);
      forall c | c in Without(init, d) ensures c.node < conns[|conns| - 1].node {
        assert c in init;
      }
    }
  }

  lemma {:induction false} WithoutFirstMembers<D>(conns: seq<Conn<D>>, d: D, next: nat)
    requires Valid(Sig(conns, End, next))
    ensures Valid(Sig(WithoutFirst(conns, d), End, next))
    ensures forall c :: c in WithoutFirst(conns, d) ==> c in conns
    decreases |conns|
  {
    if |conns| > 0 && conns[0].dest != d {
      WithoutFirstMembers(conns[1..], d, next);
      forall c | c in WithoutFirst(conns[1..], d) ensures conns[0].node < c.node {
        assert c in conns[1..];
      }
    }
  }

  lemma FewerNodes<D>(conns: seq<Conn<D>>, rest: seq<Conn<D>>)
    requires forall c :: c in rest ==> c in conns
    ensures forall n: nat :: HasNode(rest, n) ==> HasNode(conns, n)
  {
    forall n: nat | HasNode(rest, n) ensures HasNode(conns, n) {
      var i :| 0 <= i < |rest| && rest[i].node == n;
      assert rest[i] in conns;
    }
  }

  /** If c is still connected, the cursor has not passed it. */
  ghost predicate Ahead<D>(s: Sig<D>, c: nat) {
    HasNode(s.conns, c) ==> s.cursor.At? && s.cursor.node <= c
  }

  lemma {:induction false} FirstFromLeast<D>(conns: seq<Conn<D>>, n: nat, m: nat, next: nat)
    requires Valid(Sig(conns, End, next)) && HasNode(conns, m) && m >= n
    ensures FirstFrom(conns, n).At? && FirstFrom(conns, n).node <= m
    decreases |conns|
  {
    var i :| 0 <= i < |conns| && conns[i].node == m;
    if conns[0].node < n {
      assert conns[1..][i - 1].node == m;
      FirstFromLeast(conns[1..], n, m, next);
    }
  }

  lemma Erased<D>(s: Sig<D>, rest: seq<Conn<D>>, c: nat)
    requires Valid(s) && Valid(Sig(rest, End, s.next))
    requires forall x :: x in rest ==> x in s.conns
    ensures var r := s.(conns := rest, cursor := Settle(rest, s.cursor));
            Valid(r) && Evolves(s, r) && (Ahead(s, c) ==> Ahead(r, c))
  {
    FewerNodes(s.conns, rest);
    if Ahead(s, c) && HasNode(rest, c) {
      FirstFromLeast(rest, s.cursor.node, c, s.next);
    }
  }

  lemma AddedAtEnd<D>(s: Sig<D>, more: seq<Conn<D>>, c: nat)
    requires Valid(s) && c < s.next
    requires forall i :: 0 <= i < |more| ==> more[i].node == s.next + i
    ensures var r := s.(conns := s.conns + more, next := s.next + |more|);
            Valid(r) && Evolves(s, r) && (Ahead(s, c) ==> Ahead(r, c))
  {
    var conns := s.conns + more;
    forall n: nat | n < s.next && HasNode(conns, n) ensures HasNode(s.conns, n) {
      var i :| 0 <= i < |conns| && conns[i].node == n;
      assert i < |s.conns|;
    }
    if s.cursor.At? {
      var i :| 0 <= i < |s.conns| && s.conns[i].node == s.cursor.node;
      assert conns[i] == s.conns[i];
    }
  }

  /** Every operation keeps the cursor on a live node or the end, adds only behind, and never steps over a live node. */
  lemma ApplyKeeps<D>(s: Sig<D>, op: Op<D>, c: nat)
    requires Valid(s) && c < s.next
    ensures Valid(Apply(s, op)) && Evolves(s, Apply(s, op)) && (Ahead(s, c) ==> Ahead(Apply(s, op), c))
  {
    match op
    case Connect(d, slot) =>
      AddedAtEnd(s, [Conn(s.next, d, slot)], c);
    case Disconnect(d) =>
      WithoutFirstMembers(s.conns, d, s.next);
      Erased(s, WithoutFirst(s.conns, d), c);
    case SlotDisconnect(d) =>
      WithoutOrdered(s.conns, d, s.next);
      Erased(s, Without(s.conns, d), c);
    case DisconnectAll =>
    case Duplicate(d, d') =>
      AddedAtEnd(s, Copies(s.conns, d, d', s.next), c);
  }

  lemma StartValid<D>(s: Sig<D>)
    requires Valid(s)
    ensures Valid(Start(s))
  {
  }

  lemma AdvanceValid<D>(s: Sig<D>)
    requires Valid(s)
    ensures Valid(Advance(s))
  {
  }

  lemma ValidApply<D>(s: Sig<D>, op: Op<D>)
    requires Valid(s)
    ensures Valid(Apply(s, op))
  {
    assert |s.conns| > 0 ==> s.conns[0].node < s.next;
    if s.next > 0 {
      ApplyKeeps(s, op, 0);
    } else {
      ApplyEmpty(s, op);
    }
  }

  lemma ApplyEmpty<D>(s: Sig<D>, op: Op<D>)
    requires Valid(s) && s.conns == []
    ensures Valid(Apply(s, op))
  {
  }

  lemma ConnectedMore<D>(conns: seq<Conn<D>>, c: Conn<D>)
    ensures Connected(conns + [c], c.dest)
    ensures forall d :: d != c.dest ==> (Connected(conns + [c], d) <==> Connected(conns, d))
  {
    assert (conns + [c])[|conns|] == c;
    forall d | d != c.dest && Connected(conns, d) ensures Connected(conns + [c], d) {
      var i :| 0 <= i < |conns| && conns[i].dest == d;
      assert (conns + [c])[i] == conns[i];
    }
  }

  lemma {:induction false} ApplyAllKeeps<D>(s: Sig<D>, ops: seq<Op<D>>, c: nat)
    requires Valid(s) && c < s.next
    ensures Valid(ApplyAll(s, ops)) && Evolves(s, ApplyAll(s, ops))
    ensures Ahead(s, c) ==> Ahead(ApplyAll(s, ops), c)
    decreases |ops|
  {
    if |ops| > 0 {
      ApplyKeeps(s, ops[0], c);
      ApplyAllKeeps(Apply(s, ops[0]), ops[1..], c);
    }
  }

  lemma AdvanceKeeps<D>(s: Sig<D>, c: nat)
    requires Valid(s) && s.cursor.At?
    ensures Valid(Advance(s)) && Evolves(s, Advance(s)) && Evolves(Advance(s), s)
    ensures c > s.cursor.node ==> Ahead(Advance(s), c)
  {
    hide FirstFrom;
    if c > s.cursor.node && HasNode(s.conns, c) {
      FirstFromLeast(s.conns, s.cursor.node + 1, c, s.next);
    }
  }

  /** During its own turn a slot cannot move the cursor past a later connection that stays. */
  lemma TurnKeeps<D>(s: Sig<D>, ops: seq<Op<D>>, c: nat)
    requires Valid(s) && s.cursor.At? && c < s.next
    ensures Valid(Turn(s, ops)) && Evolves(s, Turn(s, ops))
    ensures c > s.cursor.node ==> Ahead(Turn(s, ops), c)
    ensures Turn(s, ops).cursor.At? ==> Turn(s, ops).cursor.node > s.cursor.node
  {
    hide Valid, HasNode, ApplyAll;
    AdvanceKeeps(s, c);
    ApplyAllKeeps(Advance(s), ops, c);
    CursorAfter(Advance(s), ops, s.cursor.node + 1);
  }

  /** The cursor never moves back. */
  lemma {:induction false} CursorAfter<D>(s: Sig<D>, ops: seq<Op<D>>, n: nat)
    requires s.cursor.At? ==> s.cursor.node >= n
    ensures ApplyAll(s, ops).cursor.At? ==> ApplyAll(s, ops).cursor.node >= n
    decreases |ops|
  {
    if |ops| > 0 {
      CursorAfter(Apply(s, ops[0]), ops[1..], n);
    }
  }

  // ---------- erasing one node of the list ----------

  lemma FirstFromIs<D>(conns: seq<Conn<D>>, n: nat, j: nat, next: nat)
    requires Valid(Sig(conns, End, next)) && j < |conns| && conns[j].node >= n && (j == 0 || conns[j - 1].node < n)
    ensures FirstFrom(conns, n) == At(conns[j].node)
  {
    assert HasNode(conns, conns[j].node);
    FirstFromLeast(conns, n, conns[j].node, next);
  }

  lemma SettleSame<D>(s: Sig<D>)
    requires Valid(s)
    ensures Settle(s.conns, s.cursor) == s.cursor
  {
    if s.cursor.At? {
      FirstFromLeast(s.conns, s.cursor.node, s.cursor.node, s.next);
    }
  }

  /** Moving the cursor off an erased node to its successor is settling it. */
  lemma ErasedCursor<D>(s: Sig<D>, i: nat)
    requires Valid(s) && i < |s.conns|
    ensures var rest := s.conns[..i] + s.conns[i + 1..];
            && Valid(Sig(rest, End, s.next))
            && Settle(rest, s.cursor) ==
               if s.cursor != At(s.conns[i].node) then s.cursor
               else if i + 1 < |s.conns| then At(s.conns[i + 1].node) else End
  {
    hide FirstFrom;
    var rest := s.conns[..i] + s.conns[i + 1..];
    assert Valid(Sig(rest, End, s.next));
    if s.cursor == At(s.conns[i].node) {
      if i + 1 < |s.conns| {
        assert rest[i] == s.conns[i + 1] && (i > 0 ==> rest[i - 1] == s.conns[i - 1]);
        FirstFromIs(rest, s.cursor.node, i, s.next);
      }
    } else if s.cursor.At? {
      var j :| 0 <= j < |s.conns| && s.conns[j].node == s.cursor.node;
      assert rest[if j < i then j else j - 1] == s.conns[j];
      SettleSame(Sig(rest, s.cursor, s.next));
    }
  }

  /** Settling on the way makes no difference in the end. */
  lemma SettleTwice<D>(conns: seq<Conn<D>>, rest: seq<Conn<D>>, c: Cursor, next: nat)
    requires Valid(Sig(conns, End, next)) && Valid(Sig(rest, End, next))
    requires forall x :: x in rest ==> x in conns
    ensures Settle(rest, Settle(conns, c)) == Settle(rest, c)
  {
    if c.At? {
      FewerNodes(conns, rest);
      var f, g := FirstFrom(conns, c.node), FirstFrom(rest, c.node);
      if g.At? {
        FirstFromLeast(conns, c.node, g.node, next);
        FirstFromLeast(rest, f.node, g.node, next);
        FirstFromLeast(rest, c.node, FirstFrom(rest, f.node).node, next);
      }
    }
  }

  lemma {:induction false} WithoutFirstAt<D>(conns: seq<Conn<D>>, d: D, i: nat)
    requires i <= |conns| && (i < |conns| ==> conns[i].dest == d) && forall j :: 0 <= j < i ==> conns[j].dest != d
    ensures WithoutFirst(conns, d) == if i < |conns| then conns[..i] + conns[i + 1..] else conns
    decreases |conns|
  {
    if 0 < i {
      WithoutFirstAt(conns[1..], d, i - 1);
    }
  }

  // ---------- emission ----------

  ghost predicate Increasing(s: seq<nat>) {
    forall i, j :: 0 <= i < j < |s| ==> s[i] < s[j]
  }

  ghost predicate AllBelow(s: seq<nat>, c: nat) {
    forall i :: 0 <= i < |s| ==> s[i] < c
  }

  /** The calls are in list order, each at most once, none behind the cursor, and at most one a turn. */
  lemma {:induction false} CallsInOrder<D>(s: Sig<D>, turns: seq<seq<Op<D>>>)
    requires Valid(s)
    ensures var (t, called) := Run(s, turns);
            && Valid(t) && Increasing(called) && |called| <= |turns|
            && (s.cursor.At? ==> forall i :: 0 <= i < |called| ==> called[i] >= s.cursor.node)
            && (s.cursor.End? ==> called == [])
    decreases |turns|
  {
    if s.cursor.At? && |turns| > 0 {
      var s' := Turn(s, turns[0]);
      TurnKeeps(s, turns[0], 0);
      CallsInOrder(s', turns[1..]);
      var (t, called) := Run(s', turns[1..]);
      assert forall i :: 0 <= i < |called| ==> called[i] > s.cursor.node;
    }
  }

  /** A node that is gone is never called. */
  lemma {:induction false} GoneNeverCalled<D>(s: Sig<D>, turns: seq<seq<Op<D>>>, c: nat)
    requires Valid(s) && c < s.next && !HasNode(s.conns, c)
    ensures c !in Run(s, turns).1
    decreases |turns|
  {
    if s.cursor.At? && |turns| > 0 {
      TurnKeeps(s, turns[0], c);
      GoneNeverCalled(Turn(s, turns[0]), turns[1..], c);
    }
  }

  /** c is connected before every turn until its own comes. */
  ghost predicate LivesUntilItsTurn<D>(s: Sig<D>, turns: seq<seq<Op<D>>>, c: nat) {
    var called := Run(s, turns).1;
    forall i :: 0 <= i <= |called| && i <= |turns| && AllBelow(called[..i], c) ==> HasNode(Before(s, turns, i).conns, c)
  }

  lemma LivesShift<D>(s: Sig<D>, turns: seq<seq<Op<D>>>, c: nat)
    requires s.cursor.At? && |turns| > 0 && s.cursor.node < c
    ensures LivesUntilItsTurn(s, turns, c) <==>
            HasNode(s.conns, c) && LivesUntilItsTurn(Turn(s, turns[0]), turns[1..], c)
  {
    var s', rest := Turn(s, turns[0]), turns[1..];
    var called, called' := Run(s, turns).1, Run(s', rest).1;
    assert called == [s.cursor.node] + called';
    if HasNode(s.conns, c) && LivesUntilItsTurn(s', rest, c) {
      forall i | 0 <= i <= |called| && i <= |turns| && AllBelow(called[..i], c)
        ensures HasNode(Before(s, turns, i).conns, c)
      {
        if i > 0 {
          assert called'[..i - 1] == called[..i][1..];
          assert AllBelow(called'[..i - 1], c);
        }
      }
    }
    if LivesUntilItsTurn(s, turns, c) {
      assert AllBelow(called[..0], c);
      assert Before(s, turns, 0) == s;
      forall i | 0 <= i <= |called'| && i <= |rest| && AllBelow(called'[..i], c)
        ensures HasNode(Before(s', rest, i).conns, c)
      {
        assert called[..i + 1] == [s.cursor.node] + called'[..i];
        assert AllBelow(called[..i + 1], c);
        assert Before(s, turns, i + 1) == Before(s', rest, i);
      }
    }
  }

  /**
   A finished emission calls a connection that was there and not behind the cursor
   exactly when it was not removed before its turn.
   */
  lemma {:induction false} CalledIffNotRemoved<D>(s: Sig<D>, turns: seq<seq<Op<D>>>, c: nat)
    requires Valid(s) && Run(s, turns).0.cursor.End? && c < s.next && Ahead(s, c)
    requires s.cursor.At? ==> s.cursor.node <= c
    ensures c in Run(s, turns).1 <==> LivesUntilItsTurn(s, turns, c)
    decreases |turns|
  {
    if s.cursor.End? {
      assert AllBelow(Run(s, turns).1[..0], c) && Before(s, turns, 0) == s;
    } else {
      var s', rest := Turn(s, turns[0]), turns[1..];
      TurnKeeps(s, turns[0], c);
      CallsInOrder(s', rest);
      if c == s.cursor.node {
        FirstLives(s, turns);
      } else if !HasNode(s.conns, c) {
        GoneNeverCalled(s, turns, c);
        assert AllBelow(Run(s, turns).1[..0], c) && Before(s, turns, 0) == s;
      } else {
        LivesShift(s, turns, c);
        if s'.cursor.At? && c < s'.cursor.node {
          GoneNeverCalled(s', rest, c);
          assert AllBelow(Run(s', rest).1[..0], c) && Before(s', rest, 0) == s';
        } else {
          CalledIffNotRemoved(s', rest, c);
        }
      }
    }
  }

  lemma FirstLives<D>(s: Sig<D>, turns: seq<seq<Op<D>>>)
    requires Valid(s) && s.cursor.At? && |turns| > 0
    ensures LivesUntilItsTurn(s, turns, s.cursor.node)
  {
    var called := Run(s, turns).1;
    assert forall i :: 1 <= i <= |called| ==> called[..i][0] == s.cursor.node;
    assert forall i :: 1 <= i <= |called| ==> !AllBelow(called[..i], s.cursor.node);
    assert Before(s, turns, 0) == s;
  }

  /** emit, once it ends: every connection present at the start is called once, in order, unless removed first. */
  lemma EmitCallsEach<D>(s: Sig<D>, turns: seq<seq<Op<D>>>)
    requires Valid(s) && Run(Start(s), turns).0.cursor.End?
    ensures Increasing(Run(Start(s), turns).1)
    ensures forall i :: 0 <= i < |s.conns| ==>
              (s.conns[i].node in Run(Start(s), turns).1 <==> LivesUntilItsTurn(Start(s), turns, s.conns[i].node))
  {
    CallsInOrder(Start(s), turns);
    forall i | 0 <= i < |s.conns|
      ensures s.conns[i].node in Run(Start(s), turns).1 <==> LivesUntilItsTurn(Start(s), turns, s.conns[i].node)
    {
      assert HasNode(s.conns, s.conns[i].node);
      FirstFromLeast(s.conns, 0, s.conns[i].node, s.next);
      CalledIffNotRemoved(Start(s), turns, s.conns[i].node);
    }
  }

  lemma {:induction false} CallAtIs<D>(conns: seq<Conn<D>>, i: nat)
    requires i < |conns| && forall j :: 0 <= j < i ==> conns[j].node != conns[i].node
    ensures CallAt(conns, conns[i].node) == [(conns[i].dest, conns[i].slot)]
    decreases i
  {
    if i > 0 {
      CallAtIs(conns[1..], i - 1);
    }
  }

  lemma FirstCall<D>(s: Sig<D>, turns: seq<seq<Op<D>>>)
    requires Valid(s) && s.cursor.At? && |turns| > 0
    ensures var s', rest := Turn(s, turns[0]), turns[1..];
            && Run(s, turns).1 == [s.cursor.node] + Run(s', rest).1
            && Calls(s, turns) == CallAt(s.conns, s.cursor.node) + Calls(s', rest)
            && |CallAt(s.conns, s.cursor.node)| == 1
  {
    hide Turn;
    var j :| 0 <= j < |s.conns| && s.conns[j].node == s.cursor.node;
    CallAtIs(s.conns, j);
  }

  /** There is one call for each node called: that of the connection that stands there in that turn. */
  lemma {:induction false} CallsAreOfNodes<D>(s: Sig<D>, turns: seq<seq<Op<D>>>)
    requires Valid(s)
    ensures |Calls(s, turns)| == |Run(s, turns).1| <= |turns|
    ensures forall i :: 0 <= i < |Calls(s, turns)| ==>
              CallAt(Before(s, turns, i).conns, Run(s, turns).1[i]) == [Calls(s, turns)[i]]
    decreases |turns|
  {
    if s.cursor.At? && |turns| > 0 {
      var s', rest := Turn(s, turns[0]), turns[1..];
      TurnKeeps(s, turns[0], 0);
      CallsAreOfNodes(s', rest);
      FirstCall(s, turns);
      assert Before(s, turns, 0) == s && forall i :: 0 < i <= |turns| ==>
               Before(s, turns, i) == Before(s', rest, i - 1);
      hide Valid, Evolves, Run, Calls, CallAt, Turn, Before;
    }
  }

  /** A connection that is called is called as it was made: with its own object and slot. */
  lemma {:induction false} CalledAsMade<D>(s: Sig<D>, turns: seq<seq<Op<D>>>, c: Conn<D>, i: nat)
    requires Valid(s) && c in s.conns && i < |Run(s, turns).1| && Run(s, turns).1[i] == c.node
    ensures i < |Calls(s, turns)| && Calls(s, turns)[i] == (c.dest, c.slot)
    decreases |turns|
  {
    hide Turn, Evolves, FirstFrom;
    var s', rest := Turn(s, turns[0]), turns[1..];
    FirstCall(s, turns);
    if i == 0 {
      var j :| 0 <= j < |s.conns| && s.conns[j] == c;
      CallAtIs(s.conns, j);
    } else {
      assert c.node < s.next && Run(s', rest).1[i - 1] == c.node;
      TurnKeeps(s, turns[0], c.node);
      hide Valid, CallAt, Run, Calls;
      if c in s'.conns {
        CalledAsMade(s', rest, c, i - 1);
      } else {
        GoneUnlessSame(s, s', c);
        GoneNeverCalled(s', rest, c.node);
      }
    }
  }

  lemma OneConn<D>(s: Sig<D>, a: Conn<D>, b: Conn<D>)
    requires Valid(s) && a in s.conns && b in s.conns && a.node == b.node
    ensures a == b
  {
  }

  lemma GoneUnlessSame<D>(s: Sig<D>, r: Sig<D>, c: Conn<D>)
    requires Valid(s) && Evolves(s, r) && c in s.conns && c !in r.conns
    ensures c.node < r.next && !HasNode(r.conns, c.node)
  {
    forall i | 0 <= i < |r.conns| ensures r.conns[i].node != c.node {
      if r.conns[i].node == c.node {
        OneConn(s, r.conns[i], c);
      }
    }
  }

  /**
   During emission each connection that was there at the start is called with the object and slot that it was made
   with.
   */
  lemma EmitCallsAsMade<D>(s: Sig<D>, turns: seq<seq<Op<D>>>, i: nat, j: nat)
    requires Valid(s) && i < |s.conns| && j < |Run(Start(s), turns).1|
    requires Run(Start(s), turns).1[j] == s.conns[i].node
    ensures |Calls(Start(s), turns)| == |Run(Start(s), turns).1|
    ensures Calls(Start(s), turns)[j] == (s.conns[i].dest, s.conns[i].slot)
  {
    StartValid(s);
    hide FirstFrom, Run, Calls;
    CallsAreOfNodes(Start(s), turns);
    CalledAsMade(Start(s), turns, s.conns[i], j);
  }
}
