/**
 Signals and the objects that own slots. A signal keeps its list of connections,
 an object the set of signals connected to it; every operation updates both.
 */
module Sigslot {
  import opened SignalList

  class HasSlots {
    var senders: set<Signal>

    constructor ()
      ensures senders == {}
    {
      senders := {};
    }

    method SignalConnect(sender: Signal)
      modifies this
      ensures senders == old(senders) + {sender}
    {
      senders := senders + {sender};
    }

    method SignalDisconnect(sender: Signal)
      modifies this
      ensures senders == old(senders) - {sender}
    {
      senders := senders - {sender};
    }
  }

  class Signal {
    var conns: seq<Conn<HasSlots>>
    var cursor: Cursor
    var next: nat  // the node that the next connection gets

    ghost function State(): Sig<HasSlots>
      reads this
    {
      Sig(conns, cursor, next)
    }

    constructor ()
      ensures State() == Sig([], End, 0)
    {
      conns, cursor, next := [], End, 0;
    }

    /** list::push_back of a connection with the same object and slot */
    method PushBack(c: Conn<HasSlots>)
      modifies this
      ensures conns == old(conns) + [Conn(old(next), c.dest, c.slot)] && next == old(next) + 1 && cursor == old(cursor)
    {
      conns, next := conns + [Conn(next, c.dest, c.slot)], next + 1;
    }

    /** connect */
    method Connect(d: HasSlots, slot: int)
      modifies this, d
      ensures State() == Apply(old(State()), SignalList.Connect(d, slot))
      ensures d.senders == old(d.senders) + {this}
      ensures conns == old(conns) + [Conn(old(next), d, slot)] && next == old(next) + 1 && cursor == old(cursor)
    {
      conns, next := conns + [Conn(next, d, slot)], next + 1;
      d.SignalConnect(this);
    }

    /** list::erase at position i, moving the cursor off the erased node */
    method Erase(i: nat)
      requires i < |conns| && Valid(State())
      modifies this
      ensures conns == old(conns[..i] + conns[i + 1..]) && next == old(next)
      ensures cursor == Settle(conns, old(cursor))
    {
      ghost var before := State();
      if cursor == At(conns[i].node) {
        cursor := if i + 1 < |conns| then At(conns[i + 1].node) else End;
      }
      conns := conns[..i] + conns[i + 1..];
      ErasedCursor(before, i);
    }

    /** disconnect */
    method Disconnect(d: HasSlots)
      requires Valid(State())
      modifies this, d
      ensures State() == Apply(old(State()), SignalList.Disconnect(d))
      ensures d.senders == if Connected(old(conns), d) then old(d.senders) - {this} else old(d.senders)
    {
      SettleSame(State());
      var i := 0;
      while i < |conns|
        invariant 0 <= i <= |conns| && State() == old(State()) && d.senders == old(d.senders)
        invariant forall j :: 0 <= j < i ==> conns[j].dest != d
        decreases |conns| - i
      {
        if conns[i].dest == d {
          WithoutFirstAt(conns, d, i);
          Erase(i);
          d.SignalDisconnect(this);
          return;
        }
        i := i + 1;
      }
      WithoutFirstAt(conns, d, i);
    }

    /** do_slot_disconnect: every connection to d goes, but d is not told */
    method SlotDisconnect(d: HasSlots)
      requires Valid(State())
      modifies this
      ensures State() == Apply(old(State()), SignalList.SlotDisconnect(d))
    {
      ghost var before := State();
      SettleSame(before);
      var i := 0;
      ghost var k := 0;
      while i < |conns|
        invariant Valid(State()) && EraseProgress(before, d, State(), i, k)
        decreases |conns| - i
      {
        ghost var now := State();
        assert conns[i] == before.conns[k] by { assert conns[i] == conns[i..][0]; }
        if conns[i].dest == d {
          Erase(i);
          EraseStep(before, d, now, State(), i, k);
        } else {
          KeepStep(before, d, now, i, k);
          i := i + 1;
        }
        k := k + 1;
      }
      assert before.conns[..k] == before.conns && conns[..i] == conns;
    }

    /** do_slot_duplicate: the loop also passes over what it has added, which is never a connection to d */
    method SlotDuplicate(d: HasSlots, d': HasSlots)
      requires d' != d
      modifies this
      ensures State() == Apply(old(State()), Duplicate(d, d'))
    {
      ghost var before := conns;
      ghost var more := [];
      var i := 0;
      while i < |conns|
        invariant 0 <= i <= |conns| && conns == before + more && cursor == old(cursor) && next == old(next) + |more|
        invariant more == Copies(before[..if i < |before| then i else |before|], d, d', old(next))
        invariant i <= |before| || i <= |conns|
        decreases if i < |before| then |before| - i else 0, |conns| - i
      {
        if i < |before| {
          assert before[..i + 1][..i] == before[..i];
        }
        if conns[i].dest == d {
          more := more + [Conn(next, d', conns[i].slot)];
          conns, next := conns + [Conn(next, d', conns[i].slot)], next + 1;
        }
        i := i + 1;
      }
      assert before[..|before|] == before;
    }

    /** disconnect_all */
    method DisconnectAll(ghost O: set<HasSlots>)
      requires forall i :: 0 <= i < |conns| ==> conns[i].dest in O
      modifies this, O
      ensures State() == Apply(old(State()), SignalList.DisconnectAll)
      ensures forall d :: d in O ==>
                d.senders == if Connected(old(conns), d) then old(d.senders) - {this} else old(d.senders)
    {
      ghost var before := conns;
      ghost var k := 0;
      while |conns| > 0
        invariant 0 <= k <= |before| && conns == before[k..] && next == old(next)
        invariant forall d :: d in O ==>
                    d.senders == if Connected(before[..k], d) then old(d.senders) - {this} else old(d.senders)
        decreases |conns|
      {
        var d := conns[0].dest;
        assert before[..k + 1] == before[..k] + [conns[0]];
        ConnectedMore(before[..k], conns[0]);
        conns := conns[1..];
        d.SignalDisconnect(this);
        k := k + 1;
      }
      assert before[..k] == before;
      cursor := End;
    }

    /** What a called slot does to this signal. */
    method Perform(op: Op<HasSlots>, ghost O: set<HasSlots>)
      requires Valid(State()) && Within(conns, O) && Allowed(op, O)
      modifies this, O
      ensures State() == Apply(old(State()), op) && Within(conns, O)
    {
      ghost var before := conns;
      match op {
        case Connect(d, slot) => Connect(d, slot);
        case Disconnect(d) =>
          Disconnect(d);
          WithoutFirstMembers(before, d, next);
          MembersWithin(before, conns, O);
        case SlotDisconnect(d) =>
          SlotDisconnect(d);
          MembersWithin(before, conns, O);
        case DisconnectAll => DisconnectAll(O);
        case Duplicate(d, d') => SlotDuplicate(d, d');
      }
    }

    method PerformAll(ops: seq<Op<HasSlots>>, ghost O: set<HasSlots>)
      requires Valid(State()) && Within(conns, O) && forall i :: 0 <= i < |ops| ==> Allowed(ops[i], O)
      modifies this, O
      ensures State() == ApplyAll(old(State()), ops) && Within(conns, O) && Valid(State())
    {
      hide Valid, Apply;
      var i := 0;
      while i < |ops|
        invariant 0 <= i <= |ops| && Valid(State()) && Within(conns, O)
        invariant ApplyAll(State(), ops[i..]) == ApplyAll(old(State()), ops)
      {
        ValidApply(State(), ops[i]);
        Perform(ops[i], O);
        assert ops[i..][1..] == ops[i + 1..];
        i := i + 1;
      }
    }

    /**
     emit, whose i-th call does turns[i] to this signal; called lists the nodes called, and calls the objects and the
     slots.
     */
    method Emit(turns: seq<seq<Op<HasSlots>>>, ghost O: set<HasSlots>)
      returns (called: seq<nat>, calls: seq<(HasSlots, int)>)
      requires Valid(State()) && Within(conns, O)
      requires forall i, j :: 0 <= i < |turns| && 0 <= j < |turns[i]| ==> Allowed(turns[i][j], O)
      modifies this, O
      ensures State() == Run(Start(old(State())), turns).0 && called == Run(Start(old(State())), turns).1
      ensures calls == SignalList.Calls(Start(old(State())), turns)
      ensures Valid(State())
    {
      hide Valid, Apply, FirstFrom, CallAt, Run, Calls;
      ghost var all, allCalls := Run(Start(State()), turns), Calls(Start(State()), turns);
      StartValid(State());
      cursor := FirstFrom(conns, 0);
      called, calls := [], [];
      var i := 0;
      assert turns[i..] == turns;
      while cursor != End && i < |turns|
        invariant 0 <= i <= |turns| && Valid(State()) && Within(conns, O)
        invariant all.0 == Run(State(), turns[i..]).0 && all.1 == called + Run(State(), turns[i..]).1
        invariant allCalls == calls + Calls(State(), turns[i..])
      {
        ghost var now := State();
        var node := cursor.node;
        AdvanceValid(now);
        cursor := FirstFrom(conns, node + 1);
        ghost var before, callsBefore := called, calls;
        called, calls := called + [node], calls + CallAt(conns, node);
        PerformAll(turns[i], O);
        EmitGoesOn(now, State(), turns, i, before, callsBefore);
        i := i + 1;
      }
      EmitEnds(State(), turns[i..]);
    }
  }

  /** What the rest of an emission adds, before a turn and after it. */
  lemma EmitGoesOn<D>(now: Sig<D>, after: Sig<D>, turns: seq<seq<Op<D>>>, i: nat, called: seq<nat>,
                      calls: seq<(D, int)>)
    requires now.cursor.At? && i < |turns| && after == Turn(now, turns[i])
    ensures Run(now, turns[i..]).0 == Run(after, turns[i + 1..]).0
    ensures called + Run(now, turns[i..]).1 == called + [now.cursor.node] + Run(after, turns[i + 1..]).1
    ensures calls + SignalList.Calls(now, turns[i..]) ==
            calls + CallAt(now.conns, now.cursor.node) + SignalList.Calls(after, turns[i + 1..])
  {
    assert turns[i..][1..] == turns[i + 1..];
    hide Turn, CallAt;
  }

  lemma EmitEnds<D>(s: Sig<D>, turns: seq<seq<Op<D>>>)
    requires s.cursor == End || turns == []
    ensures Run(s, turns) == (s, []) && SignalList.Calls(s, turns) == []
  {
  }

  ghost predicate Allowed(op: Op<HasSlots>, O: set<HasSlots>) {
    match op
    case Connect(d, _) => d in O
    case Disconnect(d) => d in O
    case SlotDisconnect(d) => d in O
    case DisconnectAll => true
    case Duplicate(d, d') => d in O && d' in O && d != d'
  }

  lemma MembersWithin(conns: seq<Conn<HasSlots>>, rest: seq<Conn<HasSlots>>, O: set<HasSlots>)
    requires Within(conns, O) && forall c :: c in rest ==> c in conns
    ensures Within(rest, O)
  {
    forall i | 0 <= i < |rest| ensures rest[i].dest in O {
      assert rest[i] in conns;
    }
  }

  /** The first k old connections have been looked at: i of them are left, in front of all later ones. */
  ghost predicate EraseProgress<D>(before: Sig<D>, d: D, now: Sig<D>, i: nat, k: nat) {
    && k <= |before.conns| && i <= |now.conns|
    && now.conns[..i] == Without(before.conns[..k], d) && now.conns[i..] == before.conns[k..]
    && now.cursor == Settle(now.conns, before.cursor) && now.next == before.next
  }

  lemma EraseStep<D>(before: Sig<D>, d: D, now: Sig<D>, after: Sig<D>, i: nat, k: nat)
    requires EraseProgress(before, d, now, i, k) && Valid(now) && i < |now.conns| && now.conns[i].dest == d
    requires k < |before.conns| && before.conns[k] == now.conns[i]
    requires after.conns == now.conns[..i] + now.conns[i + 1..] && after.cursor == Settle(after.conns, now.cursor)
    requires after.next == now.next
    ensures EraseProgress(before, d, after, i, k + 1) && Valid(after)
  {
    hide Valid, Settle;
    EraseIsValid(now, after, i);
    assert before.conns[..k + 1][..k] == before.conns[..k];
    assert after.conns[..i] == now.conns[..i];
    assert after.conns[i..] == now.conns[i..][1..] == before.conns[k..][1..] == before.conns[k + 1..];
    assert Valid(Sig(now.conns, End, now.next)) by { EndValid(now); }
    SettleTwice(now.conns, after.conns, before.cursor, now.next);
  }

  lemma KeepStep<D>(before: Sig<D>, d: D, now: Sig<D>, i: nat, k: nat)
    requires EraseProgress(before, d, now, i, k) && i < |now.conns| && now.conns[i].dest != d
    requires k < |before.conns| && before.conns[k] == now.conns[i]
    ensures EraseProgress(before, d, now, i + 1, k + 1)
  {
    assert before.conns[..k + 1][..k] == before.conns[..k];
    assert now.conns[..i + 1] == now.conns[..i] + [now.conns[i]];
    assert now.conns[i + 1..] == now.conns[i..][1..] == before.conns[k..][1..] == before.conns[k + 1..];
  }

  lemma EndValid<D>(s: Sig<D>)
    requires Valid(s)
    ensures Valid(Sig(s.conns, End, s.next))
  {
  }

  lemma EraseIsValid<D>(now: Sig<D>, after: Sig<D>, i: nat)
    requires Valid(now) && i < |now.conns| && after.next == now.next
    requires after.conns == now.conns[..i] + now.conns[i + 1..] && after.cursor == Settle(after.conns, now.cursor)
    ensures Valid(after) && Valid(Sig(after.conns, End, after.next))
  {
    ErasedCursor(now, i);
  }
}
