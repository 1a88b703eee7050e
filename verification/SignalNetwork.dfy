/** The operations on signals and slot objects, each a step of the network that they form. */
module SignalNetwork {
  import opened SignalList
  import opened Sigslot
  import opened SignalRuns

  /** The signals S and the objects O as they are. */
  ghost function NetOf(S: set<Signal>, O: set<HasSlots>): Net<Signal, HasSlots>
    reads S, O
  {
    Net(map s | s in S :: s.State(), map d | d in O :: d.senders)
  }

  ghost predicate Consistent(S: set<Signal>, O: set<HasSlots>)
    reads S, O
  {
    InStep(NetOf(S, O))
  }

  lemma Entries(S: set<Signal>, O: set<HasSlots>)
    ensures var net := NetOf(S, O);
            && net.lists.Keys == S && (forall s :: s in S ==> net.lists[s] == s.State())
            && net.senders.Keys == O && (forall d :: d in O ==> net.senders[d] == d.senders)
  {
  }

  lemma Known(S: set<Signal>, O: set<HasSlots>)
    requires Consistent(S, O)
    ensures forall s :: s in S ==> Valid(s.State()) && Within(s.conns, O)
    ensures forall d :: d in O ==> d.senders <= S
  {
    Entries(S, O);
    hide Valid, Within, Connected, NetOf;
    forall s | s in S ensures Valid(s.State()) && Within(s.conns, O) {
      assert s in NetOf(S, O).lists;
    }
    forall d | d in O ensures d.senders <= S {
      assert d in NetOf(S, O).senders;
    }
  }

  /** connect */
  method Connect(s: Signal, d: HasSlots, slot: int, ghost S: set<Signal>, ghost O: set<HasSlots>)
    requires s in S && d in O && Consistent(S, O)
    modifies s, d
    ensures NetOf(S, O) == Next(old(NetOf(S, O)), Connects(s, d, slot)) && Consistent(S, O)
    ensures s.conns == old(s.conns) + [Conn(old(s.next), d, slot)]
  {
    hide InStep, Apply;
    StepKeepsInStep(NetOf(S, O), Connects(s, d, slot));
    s.Connect(d, slot);
  }

  /** disconnect keeps the two sides in step exactly when there was at most one connection to drop. */
  method Disconnect(s: Signal, d: HasSlots, ghost S: set<Signal>, ghost O: set<HasSlots>)
    requires s in S && d in O && Consistent(S, O)
    modifies s, d
    ensures NetOf(S, O) == Next(old(NetOf(S, O)), Disconnects(s, d))
    ensures Consistent(S, O) <==> AtMostOne(old(s.conns), d)
  {
    ghost var net := NetOf(S, O);
    Entries(S, O);
    Known(S, O);
    StepKeepsInStep(net, Disconnects(s, d));
    assert net.lists[s].conns == s.conns;
    hide NetOf, InStep, Next, Valid, AtMostOne;
    DropFirst(s, d, S, O);
  }

  method DropFirst(s: Signal, d: HasSlots, ghost S: set<Signal>, ghost O: set<HasSlots>)
    requires s in S && d in O && Valid(s.State())
    modifies s, d
    ensures NetOf(S, O) == Next(old(NetOf(S, O)), Disconnects(s, d))
  {
    ghost var net := NetOf(S, O);
    Entries(S, O);
    hide NetOf, Next, Apply, Valid, Connected;
    s.Disconnect(d);
    Entries(S, O);
    IsDisconnected(net, NetOf(S, O), s, d);
  }

  /** disconnect_all of a signal */
  method DisconnectSignal(s: Signal, ghost S: set<Signal>, ghost O: set<HasSlots>)
    requires s in S && Consistent(S, O)
    modifies s, O
    ensures NetOf(S, O) == Next(old(NetOf(S, O)), DisconnectsSignal(s)) && Consistent(S, O)
  {
    ghost var net := NetOf(S, O);
    Entries(S, O);
    Known(S, O);
    WithinEach(s.conns, O);
    StepKeepsInStep(net, DisconnectsSignal(s));
    hide NetOf, InStep, Next, Apply, Valid, Within, Connected, AtMostOne;
    s.DisconnectAll(O);
    Entries(S, O);
    SignalIsDisconnected(net, NetOf(S, O), s);
  }

  /** The destructor of a signal */
  method DestroySignal(s: Signal, ghost S: set<Signal>, ghost O: set<HasSlots>)
    requires s in S && Consistent(S, O)
    modifies s, O
    ensures NetOf(S - {s}, O) == Next(old(NetOf(S, O)), DestroysSignal(s)) && Consistent(S - {s}, O)
  {
    ghost var net := NetOf(S, O);
    Entries(S, O);
    StepKeepsInStep(net, DestroysSignal(s));
    SignalIsDestroyed(net, s);
    hide InStep, Next;
    DisconnectSignal(s, S, O);
    assert NetOf(S - {s}, O) == NetOf(S, O).(lists := NetOf(S, O).lists - {s});
  }

  /** disconnect_all of an object: every sender drops all connections to it. */
  method DisconnectObject(p: HasSlots, ghost S: set<Signal>, ghost O: set<HasSlots>)
    requires p in O && Consistent(S, O)
    modifies S, p
    ensures NetOf(S, O) == Next(old(NetOf(S, O)), DisconnectsObject(p)) && Consistent(S, O)
  {
    ghost var net := NetOf(S, O);
    Entries(S, O);
    Known(S, O);
    StepKeepsInStep(net, DisconnectsObject(p));
    hide NetOf, InStep, Next, Valid;
    DropObject(p, S, O);
  }

  method DropObject(p: HasSlots, ghost S: set<Signal>, ghost O: set<HasSlots>)
    requires p in O && p.senders <= S && forall s :: s in p.senders ==> Valid(s.State())
    modifies S, p
    ensures NetOf(S, O) == Next(old(NetOf(S, O)), DisconnectsObject(p))
  {
    ghost var net := NetOf(S, O);
    Entries(S, O);
    hide NetOf, Next, Apply, Valid;
    var senders := p.senders;
    p.senders := {};
    DropAll(p, senders);
    Entries(S, O);
    ObjectIsDisconnected(net, NetOf(S, O), p);
  }

  /** The destructor of an object */
  method DestroyObject(p: HasSlots, ghost S: set<Signal>, ghost O: set<HasSlots>)
    requires p in O && Consistent(S, O)
    modifies S, p
    ensures NetOf(S, O - {p}) == Next(old(NetOf(S, O)), DestroysObject(p)) && Consistent(S, O - {p})
  {
    ghost var net := NetOf(S, O);
    Entries(S, O);
    StepKeepsInStep(net, DestroysObject(p));
    ObjectIsDestroyed(net, p);
    hide InStep, Next;
    DisconnectObject(p, S, O);
    assert NetOf(S, O - {p}) == NetOf(S, O).(senders := NetOf(S, O).senders - {p});
  }

  method DropAll(p: HasSlots, all: set<Signal>)
    requires forall s :: s in all ==> Valid(s.State())
    modifies all
    ensures forall s :: s in all ==> s.State() == Apply(old(s.State()), SlotDisconnect(p))
  {
    hide Apply, Valid;
    var senders := all;
    while senders != {}
      invariant senders <= all
      invariant forall s :: s in all ==>
                  s.State() == if s in senders then old(s.State()) else Apply(old(s.State()), SlotDisconnect(p))
      decreases |senders|
    {
      var s :| s in senders;
      s.SlotDisconnect(p);
      senders := senders - {s};
    }
  }

  /** Copy construction of an object: its signals repeat their connections for the copy. */
  method CopyObject(o: HasSlots, ghost S: set<Signal>, ghost O: set<HasSlots>) returns (n: HasSlots)
    requires o in O && Consistent(S, O)
    modifies S
    ensures fresh(n) && n.senders == o.senders
    ensures NetOf(S, O + {n}) == Next(old(NetOf(S, O)), CopiesObject(o, n)) && Consistent(S, O + {n})
    ensures old(Single(NetOf(S, O))) ==> Single(NetOf(S, O + {n}))
    ensures forall s :: s in S ==> s.State() == if s in o.senders
              then Apply(old(s.State()), Duplicate(o, n)) else old(s.State())
  {
    n := new HasSlots();
    ghost var net := NetOf(S, O);
    StepKeepsInStep(net, CopiesObject(o, n)) by { Entries(S, O); }
    if Single(net) {
      StepKeepsSingle(net, CopiesObject(o, n)) by { Entries(S, O); }
    }
    hide NetOf, InStep, Next, Apply, Valid, Within, Single;
    CopyInto(o, n, S, O);
  }

  method CopyInto(o: HasSlots, n: HasSlots, ghost S: set<Signal>, ghost O: set<HasSlots>)
    requires o in O && n !in O && n.senders == {} && Consistent(S, O)
    modifies S, n
    ensures n.senders == o.senders && NetOf(S, O + {n}) == Next(old(NetOf(S, O)), CopiesObject(o, n))
    ensures forall s :: s in S ==> s.State() == if s in o.senders
              then Apply(old(s.State()), Duplicate(o, n)) else old(s.State())
  {
    ghost var net := NetOf(S, O);
    Entries(S, O);
    assert o.senders <= S by { Known(S, O); }
    hide NetOf, InStep, Next, Apply;
    DuplicateAll(o, n);
    Entries(S, O + {n});
    ObjectIsCopied(net, NetOf(S, O + {n}), o, n);
  }

  method DuplicateAll(o: HasSlots, n: HasSlots)
    requires o != n && n.senders == {}
    modifies o.senders, n
    ensures n.senders == o.senders == old(o.senders)
    ensures forall s :: s in o.senders ==> s.State() == Apply(old(s.State()), Duplicate(o, n))
  {
    hide Apply;
    var left := o.senders;
    while left != {}
      invariant o.senders == old(o.senders) && left <= o.senders && n.senders == o.senders - left
      invariant forall s :: s in o.senders ==>
                  s.State() == if s in left then old(s.State()) else Apply(old(s.State()), Duplicate(o, n))
      decreases |left|
    {
      var s :| s in left;
      s.SlotDuplicate(o, n);
      n.SignalConnect(s);
      left := left - {s};
    }
  }

  /** Copy construction of a signal: the copy has the same connections, in the same order. */
  method CopySignal(o: Signal, ghost S: set<Signal>, ghost O: set<HasSlots>) returns (n: Signal)
    requires o in S && Consistent(S, O)
    modifies O
    ensures fresh(n) && NetOf(S + {n}, O) == Next(old(NetOf(S, O)), CopiesSignal(o, n)) && Consistent(S + {n}, O)
    ensures |n.conns| == |o.conns| && o.conns == old(o.conns)
    ensures forall i :: 0 <= i < |n.conns| ==> n.conns[i] == Conn(i, o.conns[i].dest, o.conns[i].slot)
  {
    n := new Signal();
    ghost var net := NetOf(S, O);
    Entries(S, O);
    Known(S, O);
    WithinEach(o.conns, O);
    StepKeepsInStep(net, CopiesSignal(o, n));
    hide NetOf, InStep, Next, Valid, Within;
    CopyConnections(o, n, S, O);
  }

  method CopyConnections(o: Signal, n: Signal, ghost S: set<Signal>, ghost O: set<HasSlots>)
    requires o in S && n !in S && n.State() == Sig([], End, 0)
    requires forall i :: 0 <= i < |o.conns| ==> o.conns[i].dest in O
    modifies O, n
    ensures NetOf(S + {n}, O) == Next(old(NetOf(S, O)), CopiesSignal(o, n))
    ensures n.conns == Cloned(o.conns).conns && o.conns == old(o.conns)
  {
    ghost var net := NetOf(S, O);
    Entries(S, O);
    hide NetOf, Next, Connected;
    CopyList(o, n, O);
    Entries(S + {n}, O);
    SignalIsCopied(net, NetOf(S + {n}, O), o, n);
  }

  method CopyList(o: Signal, n: Signal, ghost O: set<HasSlots>)
    requires o != n && n.State() == Sig([], End, 0) && forall i :: 0 <= i < |o.conns| ==> o.conns[i].dest in O
    modifies O, n
    ensures n.State() == Cloned(o.conns) && o.State() == old(o.State())
    ensures forall d :: d in O ==> d.senders == if Connected(o.conns, d) then old(d.senders) + {n} else old(d.senders)
  {
    var i := 0;
    while i < |o.conns|
      invariant 0 <= i <= |o.conns| && o.State() == old(o.State()) && n.State() == Cloned(o.conns[..i])
      invariant forall d :: d in O ==>
                  d.senders == if Connected(o.conns[..i], d) then old(d.senders) + {n} else old(d.senders)
    {
      assert o.conns[..i + 1] == o.conns[..i] + [o.conns[i]];
      ConnectedMore(o.conns[..i], o.conns[i]);
      o.conns[i].dest.SignalConnect(n);
      n.PushBack(o.conns[i]);
      i := i + 1;
    }
    assert o.conns[..i] == o.conns;
  }

  lemma WithinEach(conns: seq<Conn<HasSlots>>, O: set<HasSlots>)
    requires Within(conns, O)
    ensures forall i :: 0 <= i < |conns| ==> conns[i].dest in O
  {
  }

  // ---------- networks entry by entry ----------

  ghost predicate ListsAre(net: Net<Signal, HasSlots>, net': Net<Signal, HasSlots>, these: set<Signal>,
                           op: Op<HasSlots>) {
    net'.lists.Keys == net.lists.Keys
    && forall s :: s in net.lists ==> net'.lists[s] == if s in these then Apply(net.lists[s], op) else net.lists[s]
  }

  lemma IsDisconnected(net: Net<Signal, HasSlots>, net': Net<Signal, HasSlots>, s: Signal, d: HasSlots)
    requires s in net.lists && d in net.senders && ListsAre(net, net', {s}, SignalList.Disconnect(d))
    requires net'.senders ==
             net.senders[d := if Connected(net.lists[s].conns, d) then net.senders[d] - {s} else net.senders[d]]
    ensures net' == Next(net, Disconnects(s, d))
  {
    hide Apply, Connected;
  }

  lemma SignalIsDisconnected(net: Net<Signal, HasSlots>, net': Net<Signal, HasSlots>, s: Signal)
    requires s in net.lists && ListsAre(net, net', {s}, SignalList.DisconnectAll) &&
             net'.senders.Keys == net.senders.Keys
    requires forall d :: d in net.senders ==>
               net'.senders[d] == if Connected(net.lists[s].conns, d) then net.senders[d] - {s} else net.senders[d]
    ensures net' == Next(net, DisconnectsSignal(s))
  {
    hide Apply, Connected;
  }

  lemma SignalIsDestroyed(net: Net<Signal, HasSlots>, s: Signal)
    requires s in net.lists
    ensures var r := Next(net, DisconnectsSignal(s)); Next(net, DestroysSignal(s)) == r.(lists := r.lists - {s})
  {
    hide Apply, Connected;
  }

  lemma ObjectIsDisconnected(net: Net<Signal, HasSlots>, net': Net<Signal, HasSlots>, p: HasSlots)
    requires p in net.senders && ListsAre(net, net', net.senders[p], SlotDisconnect(p)) &&
             net'.senders == net.senders[p := {}]
    ensures net' == Next(net, DisconnectsObject(p))
  {
    hide Apply;
  }

  lemma ObjectIsDestroyed(net: Net<Signal, HasSlots>, p: HasSlots)
    requires p in net.senders
    ensures var r := Next(net, DisconnectsObject(p)); Next(net, DestroysObject(p)) == r.(senders := r.senders - {p})
  {
    hide Apply;
  }

  lemma ObjectIsCopied(net: Net<Signal, HasSlots>, net': Net<Signal, HasSlots>, o: HasSlots, n: HasSlots)
    requires o in net.senders && n !in net.senders && ListsAre(net, net', net.senders[o], Duplicate(o, n))
    requires net'.senders == net.senders[n := net.senders[o]]
    ensures net' == Next(net, CopiesObject(o, n))
  {
    hide Apply;
  }

  lemma SignalIsCopied(net: Net<Signal, HasSlots>, net': Net<Signal, HasSlots>, o: Signal, n: Signal)
    requires o in net.lists && n !in net.lists && net'.lists == net.lists[n := Cloned(net.lists[o].conns)]
    requires net'.senders.Keys == net.senders.Keys
    requires forall d :: d in net.senders ==>
               net'.senders[d] == if Connected(net.lists[o].conns, d) then net.senders[d] + {n} else net.senders[d]
    ensures net' == Next(net, CopiesSignal(o, n))
  {
    hide Cloned, Connected;
  }
}
