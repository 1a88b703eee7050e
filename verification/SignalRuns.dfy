/** Any number of signals S and slot objects D as values: what every sequence of operations on them keeps. */
module SignalRuns {
  import opened SignalList

  /** The connection list of every signal, and the signals that every object knows. */
  datatype Net<!S, !D> = Net(lists: map<S, Sig<D>>, senders: map<D, set<S>>)

  ghost predicate AtMostOne<D>(conns: seq<Conn<D>>, d: D) {
    forall i, j :: 0 <= i < j < |conns| ==> !(conns[i].dest == d && conns[j].dest == d)
  }

  /** A signal is in an object's sender set exactly when it holds a connection to that object. */
  ghost predicate InStep<S, D>(net: Net<S, D>) {
    && (forall s :: s in net.lists ==> Valid(net.lists[s]) && Within(net.lists[s].conns, net.senders.Keys))
    && (forall d :: d in net.senders ==> net.senders[d] <= net.lists.Keys)
    && (forall s, d :: s in net.lists && d in net.senders ==>
         (s in net.senders[d] <==> Connected(net.lists[s].conns, d)))
  }

  /** There is at most one connection of any pair. */
  ghost predicate Single<S, D>(net: Net<S, D>) {
    forall s, d :: s in net.lists && d in net.senders ==> AtMostOne(net.lists[s].conns, d)
  }

  // ---------- the operations ----------

  datatype Event<S, D> =
    | NewSignal(s: S) | NewObject(d: D)
    | Connects(s: S, d: D, slot: int) | Disconnects(s: S, d: D)
    | DisconnectsSignal(s: S) | DisconnectsObject(d: D)
    | CopiesSignal(s: S, s': S) | CopiesObject(d: D, d': D)
    | DestroysSignal(s: S) | DestroysObject(d: D)
    | EmitBegins(s: S) | EmitAdvances(s: S)

  /** Operations are on things that exist, and what is made is new. */
  ghost predicate Allowed<S, D>(net: Net<S, D>, e: Event<S, D>) {
    match e
    case NewSignal(s) => s !in net.lists
    case NewObject(d) => d !in net.senders
    case Connects(s, d, _) => s in net.lists && d in net.senders
    case Disconnects(s, d) => s in net.lists && d in net.senders
    case DisconnectsSignal(s) => s in net.lists
    case DisconnectsObject(d) => d in net.senders
    case CopiesSignal(s, s') => s in net.lists && s' !in net.lists
    case CopiesObject(d, d') => d in net.senders && d' !in net.senders
    case DestroysSignal(s) => s in net.lists
    case DestroysObject(d) => d in net.senders
    case EmitBegins(s) => s in net.lists
    case EmitAdvances(s) => s in net.lists
  }

  /** The signals in these have carried out op. */
  function AppliedTo<S, D(==)>(lists: map<S, Sig<D>>, these: set<S>, op: Op<D>): map<S, Sig<D>> {
    map s | s in lists :: if s in these then Apply(lists[s], op) else lists[s]
  }

  /** Every object connected by conns forgets s. */
  ghost function Forgotten<S, D>(senders: map<D, set<S>>, conns: seq<Conn<D>>, s: S): map<D, set<S>> {
    map d | d in senders :: if Connected(conns, d) then senders[d] - {s} else senders[d]
  }

  /** Every object connected by conns learns of s. */
  ghost function Told<S, D>(senders: map<D, set<S>>, conns: seq<Conn<D>>, s: S): map<D, set<S>> {
    map d | d in senders :: if Connected(conns, d) then senders[d] + {s} else senders[d]
  }

  /** The list of a new signal with the same connections in the same order */
  function Cloned<D>(conns: seq<Conn<D>>): Sig<D> {
    Sig(seq(|conns|, i requires 0 <= i < |conns| => Conn(i, conns[i].dest, conns[i].slot)), End, |conns|)
  }

  ghost function Next<S, D>(net: Net<S, D>, e: Event<S, D>): Net<S, D>
    requires Allowed(net, e)
  {
    var lists, senders := net.lists, net.senders;
    match e
    case NewSignal(s) => net.(lists := lists[s := Sig([], End, 0)])
    case NewObject(d) => net.(senders := senders[d := {}])
    case Connects(s, d, slot) =>
      Net(lists[s := Apply(lists[s], Connect(d, slot))], senders[d := senders[d] + {s}])
    case Disconnects(s, d) =>
      Net(lists[s := Apply(lists[s], Disconnect(d))],
          senders[d := if Connected(lists[s].conns, d) then senders[d] - {s} else senders[d]])
    case DisconnectsSignal(s) =>
      Net(lists[s := Apply(lists[s], DisconnectAll)], Forgotten(senders, lists[s].conns, s))
    case DisconnectsObject(d) => Net(AppliedTo(lists, senders[d], SlotDisconnect(d)), senders[d := {}])
    case CopiesSignal(s, s') => Net(lists[s' := Cloned(lists[s].conns)], Told(senders, lists[s].conns, s'))
    case CopiesObject(d, d') => Net(AppliedTo(lists, senders[d], Duplicate(d, d')), senders[d' := senders[d]])
    case DestroysSignal(s) => Net(lists - {s}, Forgotten(senders, lists[s].conns, s))
    case DestroysObject(d) => Net(AppliedTo(lists, senders[d], SlotDisconnect(d)), senders - {d})
    case EmitBegins(s) => net.(lists := lists[s := Start(lists[s])])
    case EmitAdvances(s) => net.(lists := lists[s := Advance(lists[s])])
  }

  // ---------- connections after an operation ----------

  lemma ConnectedCons<D>(c: Conn<D>, tail: seq<Conn<D>>, e: D)
    ensures Connected([c] + tail, e) <==> c.dest == e || Connected(tail, e)
  {
    var conns := [c] + tail;
    if Connected(tail, e) {
      var i :| 0 <= i < |tail| && tail[i].dest == e;
      assert conns[i + 1] == tail[i];
    }
    if c.dest == e {
      assert conns[0] == c;
    }
  }

  /** Once the first connection to d is gone, d is still connected exactly when it had several. */
  lemma {:induction false} WithoutFirstConnected<D>(conns: seq<Conn<D>>, d: D, e: D)
    ensures Connected(WithoutFirst(conns, d), e) <==> if e == d then !AtMostOne(conns, d) else Connected(conns, e)
    decreases |conns|
  {
    if |conns| > 0 {
      var tail := conns[1..];
      assert conns == [conns[0]] + tail;
      ConnectedCons(conns[0], tail, e);
      if conns[0].dest == d {
        if Connected(tail, d) {
          var i :| 0 <= i < |tail| && tail[i].dest == d;
          assert conns[i + 1] == tail[i];
        }
      } else {
        WithoutFirstConnected(tail, d, e);
        ConnectedCons(conns[0], WithoutFirst(tail, d), e);
        if !AtMostOne(tail, d) {
          var i, j :| 0 <= i < j < |tail| && tail[i].dest == d && tail[j].dest == d;
          assert conns[i + 1] == tail[i] && conns[j + 1] == tail[j];
        }
      }
    }
  }

  lemma WithoutConnected<D>(conns: seq<Conn<D>>, d: D, e: D)
    ensures Connected(Without(conns, d), e) <==> e != d && Connected(conns, e)
  {
    if Connected(conns, e) {
      var i :| 0 <= i < |conns| && conns[i].dest == e;
      assert conns[i] in conns;
    }
    if Connected(Without(conns, d), e) {
      var i :| 0 <= i < |Without(conns, d)| && Without(conns, d)[i].dest == e;
      assert Without(conns, d)[i] in conns;
    }
  }

  lemma {:induction false} CopiesConnected<D>(conns: seq<Conn<D>>, d: D, d': D, next: nat)
    ensures |Copies(conns, d, d', next)| > 0 <==> Connected(conns, d)
    ensures |Copies(conns, d, d', next)| <= 1 <==> AtMostOne(conns, d)
    decreases |conns|
  {
    if |conns| > 0 {
      var init, c := conns[..|conns| - 1], conns[|conns| - 1];
      CopiesConnected(init, d, d', next);
      assert conns == init + [c];
      ConnectedMore(init, c);
      AtMostOneMore(init, c, d);
    }
  }

  lemma AtMostOneMore<D>(conns: seq<Conn<D>>, c: Conn<D>, d: D)
    ensures AtMostOne(conns + [c], d) <==> AtMostOne(conns, d) && (c.dest == d ==> !Connected(conns, d))
  {
    var all := conns + [c];
    if AtMostOne(all, d) {
      forall i, j | 0 <= i < j < |conns| ensures !(conns[i].dest == d && conns[j].dest == d) {
        assert all[i] == conns[i] && all[j] == conns[j];
      }
      forall i | 0 <= i < |conns| && c.dest == d ensures conns[i].dest != d {
        assert all[i] == conns[i] && all[|conns|] == c;
      }
    }
  }

  lemma {:induction false} WithoutFirstSingle<D>(conns: seq<Conn<D>>, d: D, e: D)
    requires AtMostOne(conns, e)
    ensures AtMostOne(WithoutFirst(conns, d), e)
    decreases |conns|
  {
    if |conns| > 0 && conns[0].dest != d {
      var tail := conns[1..];
      assert forall i :: 0 <= i < |tail| ==> tail[i] == conns[i + 1];
      WithoutFirstSingle(tail, d, e);
      WithoutFirstConnected(tail, d, e);
      if conns[0].dest == e {
        assert forall i :: 0 <= i < |tail| ==> tail[i].dest != e;
      }
      ConsSingle(conns[0], WithoutFirst(tail, d), e);
    }
  }

  lemma ConsSingle<D>(c: Conn<D>, tail: seq<Conn<D>>, e: D)
    requires AtMostOne(tail, e) && (c.dest == e ==> !Connected(tail, e))
    ensures AtMostOne([c] + tail, e)
  {
    var conns := [c] + tail;
    assert forall i :: 0 < i < |conns| ==> conns[i] == tail[i - 1];
  }

  lemma {:induction false} WithoutSingle<D>(conns: seq<Conn<D>>, d: D, e: D)
    requires AtMostOne(conns, e)
    ensures AtMostOne(Without(conns, d), e)
    decreases |conns|
  {
    if |conns| > 0 {
      var init, c := conns[..|conns| - 1], conns[|conns| - 1];
      assert conns == init + [c];
      AtMostOneMore(init, c, e);
      WithoutSingle(init, d, e);
      WithoutConnected(init, d, e);
      AtMostOneMore(Without(init, d), c, e);
    }
  }

  lemma CopiesSingle<D>(conns: seq<Conn<D>>, more: seq<Conn<D>>, e: D, d': D)
    requires forall i :: 0 <= i < |more| ==> more[i].dest == d'
    requires AtMostOne(conns, e) && (e == d' ==> !Connected(conns, e) && |more| <= 1)
    ensures AtMostOne(conns + more, e)
  {
    var all := conns + more;
    forall i, j | 0 <= i < j < |all| ensures !(all[i].dest == e && all[j].dest == e) {
      if j >= |conns| {
        assert all[j] == more[j - |conns|];
        if i >= |conns| {
          assert all[i] == more[i - |conns|];
        }
      }
    }
  }

  lemma MoreConnected<D>(conns: seq<Conn<D>>, more: seq<Conn<D>>, e: D, d': D)
    requires forall i :: 0 <= i < |more| ==> more[i].dest == d'
    ensures Connected(conns + more, e) <==> Connected(conns, e) || (e == d' && |more| > 0)
  {
    var all := conns + more;
    if Connected(conns, e) {
      var i :| 0 <= i < |conns| && conns[i].dest == e;
      assert all[i].dest == e;
    }
    if e == d' && |more| > 0 {
      assert all[|conns|] == more[0];
    }
    if Connected(all, e) {
      var i :| 0 <= i < |all| && all[i].dest == e;
      assert i >= |conns| ==> all[i] == more[i - |conns|];
    }
  }

  /** Which objects a list is connected to once op is done. */
  ghost predicate ConnectedAfter<D>(conns: seq<Conn<D>>, op: Op<D>, e: D) {
    match op
    case Connect(d, _) => e == d || Connected(conns, e)
    case Disconnect(d) => if e == d then !AtMostOne(conns, d) else Connected(conns, e)
    case SlotDisconnect(d) => e != d && Connected(conns, e)
    case DisconnectAll => false
    case Duplicate(d, d') => Connected(conns, if e == d' then d else e)
  }

  /** A copied object is a new one. */
  ghost predicate IntoNew<D>(conns: seq<Conn<D>>, op: Op<D>) {
    op.Duplicate? ==> op.d != op.d' && !Connected(conns, op.d')
  }

  lemma ApplyConnected<D>(a: Sig<D>, op: Op<D>, e: D)
    requires IntoNew(a.conns, op)
    ensures Connected(Apply(a, op).conns, e) <==> ConnectedAfter(a.conns, op, e)
  {
    match op
    case Connect(d, slot) => ConnectedMore(a.conns, Conn(a.next, d, slot));
    case Disconnect(d) => WithoutFirstConnected(a.conns, d, e);
    case SlotDisconnect(d) => WithoutConnected(a.conns, d, e);
    case DisconnectAll =>
    case Duplicate(d, d') =>
      CopiesConnected(a.conns, d, d', a.next);
      MoreConnected(a.conns, Copies(a.conns, d, d', a.next), e, d');
  }

  /** Only connecting again makes a second connection of a pair. */
  lemma ApplySingle<D>(a: Sig<D>, op: Op<D>, e: D)
    requires IntoNew(a.conns, op) && AtMostOne(a.conns, e) && (op.Duplicate? ==> AtMostOne(a.conns, op.d))
    ensures AtMostOne(Apply(a, op).conns, e) <==> !(op.Connect? && op.d == e && Connected(a.conns, e))
  {
    match op
    case Connect(d, slot) => AtMostOneMore(a.conns, Conn(a.next, d, slot), e);
    case Disconnect(d) => WithoutFirstSingle(a.conns, d, e);
    case SlotDisconnect(d) => WithoutSingle(a.conns, d, e);
    case DisconnectAll =>
    case Duplicate(d, d') =>
      CopiesConnected(a.conns, d, d', a.next);
      CopiesSingle(a.conns, Copies(a.conns, d, d', a.next), e, d');
  }

  lemma ClonedAlike<D>(conns: seq<Conn<D>>)
    ensures Valid(Cloned(conns))
    ensures forall e :: Connected(Cloned(conns).conns, e) <==> Connected(conns, e)
    ensures forall e :: AtMostOne(conns, e) ==> AtMostOne(Cloned(conns).conns, e)
  {
    var r := Cloned(conns).conns;
    forall e | Connected(conns, e) ensures Connected(r, e) {
      var i :| 0 <= i < |conns| && conns[i].dest == e;
      assert r[i].dest == e;
    }
  }

  lemma WithinConnected<D>(conns: seq<Conn<D>>, O: set<D>)
    ensures Within(conns, O) <==> forall e :: Connected(conns, e) ==> e in O
  {
    if forall e :: Connected(conns, e) ==> e in O {
      forall i | 0 <= i < |conns| ensures conns[i].dest in O {
        assert Connected(conns, conns[i].dest);
      }
    }
  }

  // ---------- what every operation keeps ----------

  /** net is in step as far as s is concerned. */
  ghost predicate SignalInStep<S, D>(net: Net<S, D>, s: S)
    requires s in net.lists
  {
    && Valid(net.lists[s]) && Within(net.lists[s].conns, net.senders.Keys)
    && forall d :: d in net.senders ==> (s in net.senders[d] <==> Connected(net.lists[s].conns, d))
  }

  lemma InStepBySignal<S, D>(net: Net<S, D>)
    ensures InStep(net) <==>
            && (forall s :: s in net.lists ==> SignalInStep(net, s))
            && (forall d :: d in net.senders ==> net.senders[d] <= net.lists.Keys)
  {
    hide Valid, Within, Connected;
  }

  datatype Change<D> = Unchanged | Does(op: Op<D>)

  /** What a step does to the connections of a signal that stays. */
  ghost function ChangeOf<S, D>(net: Net<S, D>, e: Event<S, D>, s: S): Change<D>
    requires Allowed(net, e)
  {
    match e
    case Connects(t, d, slot) => if s == t then Does(Connect(d, slot)) else Unchanged
    case Disconnects(t, d) => if s == t then Does(Disconnect(d)) else Unchanged
    case DisconnectsSignal(t) => if s == t then Does(DisconnectAll) else Unchanged
    case DisconnectsObject(d) => if s in net.senders[d] then Does(SlotDisconnect(d)) else Unchanged
    case DestroysObject(d) => if s in net.senders[d] then Does(SlotDisconnect(d)) else Unchanged
    case CopiesObject(d, d') => if s in net.senders[d] then Does(Duplicate(d, d')) else Unchanged
    case _ => Unchanged
  }

  lemma ListAfter<S, D>(net: Net<S, D>, e: Event<S, D>, s: S)
    requires Allowed(net, e) && s in net.lists && s in Next(net, e).lists
    ensures var r := Next(net, e).lists[s];
            match ChangeOf(net, e, s)
            case Does(op) => r == Apply(net.lists[s], op)
            case Unchanged => r == net.lists[s] || r == Start(net.lists[s]) || r == Advance(net.lists[s])
  {
    hide Apply, Connected, FirstFrom;
  }

  /** Whether s is connected to d after the step. */
  ghost predicate After<S, D>(net: Net<S, D>, e: Event<S, D>, s: S, d: D)
    requires Allowed(net, e) && s in net.lists
  {
    match ChangeOf(net, e, s)
    case Does(op) => ConnectedAfter(net.lists[s].conns, op, d)
    case Unchanged => Connected(net.lists[s].conns, d)
  }

  /** A copy is made into an object that nothing is connected to. */
  lemma CopyIsNew<S, D>(net: Net<S, D>, e: Event<S, D>, s: S)
    requires InStep(net) && Allowed(net, e) && s in net.lists
    ensures ChangeOf(net, e, s).Does? ==> IntoNew(net.lists[s].conns, ChangeOf(net, e, s).op)
  {
    WithinConnected(net.lists[s].conns, net.senders.Keys);
    hide Connected, Within, Valid;
  }

  lemma ConnectionsAfter<S, D>(net: Net<S, D>, e: Event<S, D>, s: S)
    requires InStep(net) && Allowed(net, e) && s in net.lists && s in Next(net, e).lists
    ensures Valid(Next(net, e).lists[s])
    ensures forall d :: Connected(Next(net, e).lists[s].conns, d) <==> After(net, e, s, d)
  {
    var a, c := net.lists[s], ChangeOf(net, e, s);
    ListAfter(net, e, s);
    CopyIsNew(net, e, s);
    assert Valid(a);
    StartValid(a);
    AdvanceValid(a);
    hide Next, ChangeOf, Valid, Connected, ConnectedAfter, InStep, Apply, FirstFrom;
    if c.Does? {
      ValidApply(a, c.op);
      forall d ensures Connected(Apply(a, c.op).conns, d) <==> ConnectedAfter(a.conns, c.op, d) {
        ApplyConnected(a, c.op, d);
      }
    }
  }

  /** The objects know after the step what they are connected to, but a disconnected one knows nothing more. */
  lemma SendersAfter<S, D>(net: Net<S, D>, e: Event<S, D>, s: S, d: D)
    requires InStep(net) && Allowed(net, e) && s in net.lists && s in Next(net, e).lists && d in Next(net, e).senders
    ensures s in Next(net, e).senders[d] <==> After(net, e, s, d) && e != Disconnects(s, d)
  {
    CopyIsNew(net, e, s);
    WithinConnected(net.lists[s].conns, net.senders.Keys);
    assert forall c :: c in net.senders ==> (s in net.senders[c] <==> Connected(net.lists[s].conns, c));
    hide InStep, Within, Connected, Apply, FirstFrom, AtMostOne;
  }

  lemma AfterWithin<S, D>(net: Net<S, D>, e: Event<S, D>, s: S, d: D)
    requires InStep(net) && Allowed(net, e) && s in net.lists && s in Next(net, e).lists && After(net, e, s, d)
    ensures d in Next(net, e).senders
  {
    WithinConnected(net.lists[s].conns, net.senders.Keys);
    hide Connected, Valid, Apply, FirstFrom, AtMostOne;
  }

  lemma SendersExist<S, D>(net: Net<S, D>, e: Event<S, D>)
    requires InStep(net) && Allowed(net, e)
    ensures forall d :: d in Next(net, e).senders ==> Next(net, e).senders[d] <= Next(net, e).lists.Keys
  {
    hide Valid, Apply, FirstFrom, AtMostOne;
  }

  /** A new signal starts with an empty list, or with the connections of the one that it copies. */
  lemma NewInStep<S, D>(net: Net<S, D>, e: Event<S, D>, s: S)
    requires InStep(net) && Allowed(net, e) && s !in net.lists && s in Next(net, e).lists
    ensures SignalInStep(Next(net, e), s)
  {
    if e.CopiesSignal? {
      ClonedAlike(net.lists[e.s].conns);
    }
    hide Apply, FirstFrom;
  }

  /** A signal that stays is in step after the step, but for a disconnection of one of several connections. */
  lemma OldInStep<S, D>(net: Net<S, D>, e: Event<S, D>, s: S)
    requires InStep(net) && Allowed(net, e) && s in net.lists && s in Next(net, e).lists
    ensures SignalInStep(Next(net, e), s) <==> !(e.Disconnects? && e.s == s && After(net, e, s, e.d))
  {
    var net' := Next(net, e);
    ConnectionsAfter(net, e, s);
    WithinConnected(net'.lists[s].conns, net'.senders.Keys);
    assert e.Disconnects? ==> e.d in net'.senders;
    hide Next, After, Valid, Connected, Within, InStep;
    forall d | d in net'.senders ensures s in net'.senders[d] <==> After(net, e, s, d) && e != Disconnects(s, d) {
      SendersAfter(net, e, s, d);
    }
    forall d | Connected(net'.lists[s].conns, d) ensures d in net'.senders {
      AfterWithin(net, e, s, d);
    }
  }

  /**
   Every operation keeps the two sides in step, a disconnection exactly when there was at most one connection to
   drop.
   */
  lemma StepKeepsInStep<S, D>(net: Net<S, D>, e: Event<S, D>)
    requires InStep(net) && Allowed(net, e)
    ensures InStep(Next(net, e)) <==> (e.Disconnects? ==> AtMostOne(net.lists[e.s].conns, e.d))
  {
    var net' := Next(net, e);
    InStepBySignal(net');
    SendersExist(net, e);
    assert e.Disconnects? ==> e.s in net'.lists && (After(net, e, e.s, e.d) <==> !AtMostOne(net.lists[e.s].conns, e.d));
    hide Next, SignalInStep, InStep, AtMostOne, After;
    forall s | s in net'.lists
      ensures SignalInStep(net', s) <==> !(s in net.lists && e.Disconnects? && e.s == s && After(net, e, s, e.d))
    {
      if s in net.lists {
        OldInStep(net, e, s);
      } else {
        NewInStep(net, e, s);
      }
    }
  }

  lemma PairKeepsSingle<S, D>(net: Net<S, D>, e: Event<S, D>, s: S, d: D)
    requires InStep(net) && Single(net) && Allowed(net, e) && s in Next(net, e).lists && d in Next(net, e).senders
    ensures AtMostOne(Next(net, e).lists[s].conns, d) <==> !Reconnects(net, e, s, d)
  {
    if s in net.lists {
      var a, c := net.lists[s], ChangeOf(net, e, s);
      ListAfter(net, e, s);
      CopyIsNew(net, e, s);
      WithinConnected(a.conns, net.senders.Keys);
      AlreadySingle(net, e, s, d);
      assert Reconnects(net, e, s, d) <==> c.Does? && c.op.Connect? && c.op.d == d && Connected(a.conns, d);
      assert c.Unchanged? ==> Next(net, e).lists[s].conns == a.conns;
      hide *;
      if c.Does? {
        ApplySingle(a, c.op, d);
      }
    } else if e.CopiesSignal? {
      ClonedAlike(net.lists[e.s].conns);
    }
  }

  /** The step is a connection of s and d, which are connected already. */
  ghost predicate Reconnects<S, D>(net: Net<S, D>, e: Event<S, D>, s: S, d: D)
    requires Allowed(net, e)
  {
    e.Connects? && e.s == s && e.d == d && Connected(net.lists[s].conns, d)
  }

  lemma AlreadySingle<S, D>(net: Net<S, D>, e: Event<S, D>, s: S, d: D)
    requires InStep(net) && Single(net) && Allowed(net, e) && s in net.lists && d in Next(net, e).senders
    ensures AtMostOne(net.lists[s].conns, d)
    ensures ChangeOf(net, e, s).Does? && ChangeOf(net, e, s).op.Duplicate? ==>
              AtMostOne(net.lists[s].conns, ChangeOf(net, e, s).op.d)
  {
    var conns := net.lists[s].conns;
    if d !in net.senders {
      assert forall i :: 0 <= i < |conns| ==> conns[i].dest != d;
    }
  }

  /** Only connecting a connected pair again makes a second connection. */
  lemma StepKeepsSingle<S, D>(net: Net<S, D>, e: Event<S, D>)
    requires InStep(net) && Single(net) && Allowed(net, e)
    ensures Single(Next(net, e)) <==> !(e.Connects? && Connected(net.lists[e.s].conns, e.d))
  {
    var net' := Next(net, e);
    if e.Connects? && Connected(net.lists[e.s].conns, e.d) {
      assert e.s in net'.lists && e.d in net'.senders;
      PairKeepsSingle(net, e, e.s, e.d);
    } else {
      hide Next, AtMostOne, Connected, InStep;
      forall s, d | s in net'.lists && d in net'.senders ensures AtMostOne(net'.lists[s].conns, d) {
        PairKeepsSingle(net, e, s, d);
      }
    }
  }

  // ---------- runs ----------

  /** A run in which no pair is connected that is connected already. */
  ghost predicate Run<S, D>(nets: seq<Net<S, D>>, events: seq<Event<S, D>>) {
    && |nets| == |events| + 1
    && forall i, j :: 0 <= i && j == i + 1 && j < |nets| ==> Leads(nets[i], events[i], nets[j])
  }

  ghost predicate Leads<S, D>(net: Net<S, D>, e: Event<S, D>, net': Net<S, D>) {
    && Allowed(net, e) && net' == Next(net, e)
    && (e.Connects? ==> !Connected(net.lists[e.s].conns, e.d))
  }

  /**
   Over any sequence of connections, disconnections, copies and destructions of signals and objects, also while signals
   are emitted: a signal is in an object's sender set exactly when it holds a connection to it, and then just one.
   */
  lemma {:induction false} RunStaysInStep<S, D>(nets: seq<Net<S, D>>, events: seq<Event<S, D>>, k: nat)
    requires Run(nets, events) && InStep(nets[0]) && Single(nets[0]) && k < |nets|
    ensures InStep(nets[k]) && Single(nets[k])
    decreases k
  {
    hide Leads, InStep, Single;
    if k > 0 {
      RunStaysInStep(nets, events, k - 1);
      LeadsInStep(nets[k - 1], events[k - 1], nets[k]);
    }
  }

  lemma LeadsInStep<S, D>(net: Net<S, D>, e: Event<S, D>, net': Net<S, D>)
    requires InStep(net) && Single(net) && Leads(net, e, net')
    ensures InStep(net') && Single(net')
  {
    hide Next, InStep, Connected, AtMostOne;
    if e.Disconnects? {
      SinglePair(net, e);
    }
    hide Single;
    StepKeepsInStep(net, e);
    StepKeepsSingle(net, e);
  }

  lemma SinglePair<S, D>(net: Net<S, D>, e: Event<S, D>)
    requires Single(net) && Allowed(net, e) && e.Disconnects?
    ensures AtMostOne(net.lists[e.s].conns, e.d)
  {
    hide AtMostOne;
  }

  // ---------- slots ----------

  /** The slots through which signal s calls object d. */
  ghost function SlotsOf<S, D>(net: Net<S, D>, s: S, d: D): seq<int> {
    if s in net.lists then SlotsTo(net.lists[s].conns, d) else []
  }

  /** What one event does to those slots: was gives them before it. */
  ghost function Rewire<S, D>(e: Event<S, D>, was: (S, D) -> seq<int>, s: S, d: D): seq<int> {
    match e
    case NewSignal(t) => if t == s then [] else was(s, d)
    case NewObject(c) => if c == d then [] else was(s, d)
    case Connects(t, c, slot) => if t == s && c == d then was(s, d) + [slot] else was(s, d)
    case Disconnects(t, c) => if t == s && c == d && was(s, d) != [] then was(s, d)[1..] else was(s, d)
    case DisconnectsSignal(t) => if t == s then [] else was(s, d)
    case DisconnectsObject(c) => if c == d then [] else was(s, d)
    case CopiesSignal(t, t') => if t' == s then was(t, d) else was(s, d)
    case CopiesObject(c, c') => if c' == d then was(s, c) else was(s, d)
    case DestroysSignal(t) => if t == s then [] else was(s, d)
    case DestroysObject(c) => if c == d then [] else was(s, d)
    case EmitBegins(_) => was(s, d)
    case EmitAdvances(_) => was(s, d)
  }

  /** The slots after k events, which are told by the events alone. */
  ghost function Rewired<S, D>(start: Net<S, D>, events: seq<Event<S, D>>, k: nat, s: S, d: D): seq<int>
    requires k <= |events|
    decreases k
  {
    if k == 0 then SlotsOf(start, s, d)
    else Rewire(events[k - 1], (t, c) => Rewired(start, events, k - 1, t, c), s, d)
  }

  /** A signal that stays calls each object through the slots that the step leaves. */
  lemma SlotsKept<S, D>(net: Net<S, D>, e: Event<S, D>, s: S, d: D)
    requires InStep(net) && Allowed(net, e) && s in net.lists && s in Next(net, e).lists && d in Next(net, e).senders
    ensures SlotsOf(Next(net, e), s, d) ==
            match ChangeOf(net, e, s)
            case Does(op) => SlotsAfter(net.lists[s].conns, op, d)
            case Unchanged => SlotsTo(net.lists[s].conns, d)
  {
    var c := ChangeOf(net, e, s);
    ListAfter(net, e, s);
    if c.Does? {
      ApplySlots(net.lists[s], c.op, d);
    }
    hide Next, ChangeOf, SlotsAfter, Apply, FirstFrom, InStep, SlotsTo;
  }

  /** An object that nothing is connected to is called through no slot. */
  lemma SlotsOfStranger<S, D>(net: Net<S, D>, s: S, d: D)
    requires InStep(net) && s in net.lists && (d in net.senders ==> s !in net.senders[d])
    ensures SlotsOf(net, s, d) == []
  {
    NoSlots(net.lists[s].conns, d);
    WithinConnected(net.lists[s].conns, net.senders.Keys);
    hide Valid, SlotsTo;
  }

  lemma {:induction false} ClonedSlots<D>(conns: seq<Conn<D>>, d: D)
    ensures SlotsTo(Cloned(conns).conns, d) == SlotsTo(conns, d)
    decreases |conns|
  {
    if |conns| > 0 {
      var init, r := conns[..|conns| - 1], Cloned(conns).conns;
      ClonedSlots(init, d);
      assert r[..|r| - 1] == Cloned(init).conns;
    }
  }

  /** Every event rewires each pair as it says. */
  lemma StepSlots<S, D>(net: Net<S, D>, e: Event<S, D>, s: S, d: D)
    requires InStep(net) && Allowed(net, e) && s in Next(net, e).lists && d in Next(net, e).senders
    ensures SlotsOf(Next(net, e), s, d) == Rewire(e, (t, c) => SlotsOf(net, t, c), s, d)
  {
    if s in net.lists {
      SlotsKept(net, e, s, d);
      SlotsOfCopied(net, e, s, d);
      assert e != DestroysSignal(s) && e != DestroysObject(d);
      assert SlotsOf(net, s, d) == SlotsTo(net.lists[s].conns, d);
      hide Next, ChangeOf, SlotsAfter, Rewire, InStep, SlotsTo;
      ChangeRewires(net, e, s, d, (t, c) => SlotsOf(net, t, c));
    } else {
      NewSlots(net, e, s, d);
    }
  }

  lemma ChangeRewires<S, D>(net: Net<S, D>, e: Event<S, D>, s: S, d: D, was: (S, D) -> seq<int>)
    requires Allowed(net, e) && s in net.lists && e != DestroysSignal(s) && e != DestroysObject(d)
    requires forall c :: was(s, c) == SlotsTo(net.lists[s].conns, c)
    requires d !in net.senders ==> was(s, d) == []
    requires e.DisconnectsObject? || e.DestroysObject? || e.CopiesObject? ==> s !in net.senders[e.d] ==>
               was(s, e.d) == []
    ensures Rewire(e, was, s, d) ==
            match ChangeOf(net, e, s)
            case Does(op) => SlotsAfter(net.lists[s].conns, op, d)
            case Unchanged => SlotsTo(net.lists[s].conns, d)
  {
    hide SlotsTo;
  }

  lemma NewSlots<S, D>(net: Net<S, D>, e: Event<S, D>, s: S, d: D)
    requires InStep(net) && Allowed(net, e) && s !in net.lists && s in Next(net, e).lists && d in Next(net, e).senders
    ensures SlotsOf(Next(net, e), s, d) == Rewire(e, (t, c) => SlotsOf(net, t, c), s, d)
  {
    if e.CopiesSignal? {
      ClonedSlots(net.lists[e.s].conns, d);
    }
    hide InStep, Cloned, Apply, FirstFrom, Connected;
  }

  /** What a signal does not hold, it need not drop or repeat, and a new object starts without connections. */
  lemma SlotsOfCopied<S, D>(net: Net<S, D>, e: Event<S, D>, s: S, d: D)
    requires InStep(net) && Allowed(net, e) && s in net.lists && d in Next(net, e).senders
    ensures d !in net.senders ==> SlotsOf(net, s, d) == []
    ensures e.DisconnectsObject? || e.DestroysObject? || e.CopiesObject? ==>
              s !in net.senders[e.d] ==> SlotsOf(net, s, e.d) == []
  {
    if d !in net.senders {
      SlotsOfStranger(net, s, d);
    }
    if (e.DisconnectsObject? || e.DestroysObject? || e.CopiesObject?) && s !in net.senders[e.d] {
      SlotsOfStranger(net, s, e.d);
    }
    hide InStep, Next, SlotsOf;
  }

  /** A signal or an object that an event did not make was there before. */
  lemma Existed<S, D>(net: Net<S, D>, e: Event<S, D>, s: S, d: D)
    requires Allowed(net, e) && s in Next(net, e).lists && d in Next(net, e).senders
    ensures s in net.lists || e == NewSignal(s) || (e.CopiesSignal? && e.s' == s)
    ensures d in net.senders || e == NewObject(d) || (e.CopiesObject? && e.d' == d)
    ensures (e.CopiesSignal? ==> e.s in net.lists) && (e.CopiesObject? ==> e.d in net.senders)
  {
  }

  /** In a run every connection keeps the slot that it was made with, in signals and objects that are copied too. */
  lemma {:induction false} RunKeepsSlots<S, D>(nets: seq<Net<S, D>>, events: seq<Event<S, D>>, k: nat, s: S, d: D)
    requires Run(nets, events) && InStep(nets[0]) && Single(nets[0]) && k < |nets|
    requires s in nets[k].lists && d in nets[k].senders
    ensures SlotsOf(nets[k], s, d) == Rewired(nets[0], events, k, s, d)
    decreases k
  {
    hide InStep, Single, SlotsOf, Next;
    if k > 0 {
      var net, e := nets[k - 1], events[k - 1];
      RunStaysInStep(nets, events, k - 1);
      assert Leads(net, e, nets[k]);
      StepSlots(net, e, s, d);
      Existed(net, e, s, d);
      hide Leads, Allowed, Run;
      if s in net.lists && d in net.senders {
        RunKeepsSlots(nets, events, k - 1, s, d);
      }
      if e.CopiesSignal? && d in net.senders {
        RunKeepsSlots(nets, events, k - 1, e.s, d);
      }
      if e.CopiesObject? && s in net.lists {
        RunKeepsSlots(nets, events, k - 1, s, e.d);
      }
    }
  }

  /** One signal and one object, connected so many times */
  function Pair<S, D>(s: S, d: D, times: nat): Net<S, D> {
    Net(map[s := Sig(seq(times, i requires 0 <= i < times => Conn(i, d, 0)), End, times)],
      map[d := if times == 0 then {} else {s}])
  }

  lemma ConnectsOnceMore<S, D>(s: S, d: D, times: nat)
    ensures Next(Pair(s, d, times), Connects(s, d, 0)) == Pair(s, d, times + 1)
  {
    var a, b := Next(Pair(s, d, times), Connects(s, d, 0)), Pair(s, d, times + 1);
    assert a.lists[s].conns == b.lists[s].conns;
    assert a.senders[d] == {s} == b.senders[d];
  }

  lemma PairInStep<S, D>(s: S, d: D, times: nat)
    ensures InStep(Pair(s, d, times))
  {
    var conns := Pair(s, d, times).lists[s].conns;
    assert forall i :: 0 <= i < times ==> conns[i] == Conn(i, d, 0);
    assert times > 0 ==> conns[0].dest == d && Connected(conns, d);
  }

  /** After two connections of a pair, one disconnection puts the two sides out of step: the second connection stays. */
  lemma SecondConnectionStays<S, D>(s: S, d: D)
    ensures var twice := Next(Next(Pair(s, d, 0), Connects(s, d, 0)), Connects(s, d, 0));
            var r := Next(twice, Disconnects(s, d));
            && InStep(twice) && !Single(twice) && !InStep(r)
            && r.senders[d] == {} && r.lists[s].conns == [Conn(1, d, 0)]
  {
    ConnectsOnceMore(s, d, 0);
    ConnectsOnceMore(s, d, 1);
    PairInStep(s, d, 2);
    var twice := Pair(s, d, 2);
    var conns := twice.lists[s].conns;
    assert conns == [Conn(0, d, 0), Conn(1, d, 0)];
    assert conns[0].dest == d && conns[1].dest == d && Connected(conns, d);
    assert !AtMostOne(conns, d);
    assert WithoutFirst(conns, d) == [Conn(1, d, 0)];
    assert Next(twice, Disconnects(s, d)).senders[d] == {};
    StepKeepsInStep(twice, Disconnects(s, d));
    hide InStep;
  }
}
