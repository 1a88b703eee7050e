/** The resource pool as a state that threads change in critical sections, and what every interleaving of them keeps. */
module ReslistSteps {

  datatype Entry<R> = Entry(opaque_: R, freed: int)

  datatype Limits = Limits(min: int, smax: int, hmax: int, ttl: int)

  /** The idle resources, most recent release first, and those in the hands of callers; `total` is the counter. */
  datatype Pool<R> = Pool(avail: seq<Entry<R>>, out: multiset<R>, total: int, now: int)

  /** What one critical section does. */
  datatype Event<R> =
    | TakesIdle(r: R) | Makes(r: R) | TakesNothing
    | Releases(r: R, t: int) | Invalidates(r: R)
    | Creates(made: seq<Entry<R>>) | Expires(gone: seq<Entry<R>>, t: int)
    | Destroys(gone: seq<Entry<R>>)

  /** The list is in order of release, most recent first. */
  ghost predicate NewestFirst<R>(avail: seq<Entry<R>>) {
    forall i, j :: 0 <= i < j < |avail| ==> avail[i].freed >= avail[j].freed
  }

  /** Released between the two times */
  ghost predicate Between<R>(entries: seq<Entry<R>>, from: int, to: int) {
    forall i :: 0 <= i < |entries| ==> from <= entries[i].freed <= to
  }

  ghost predicate AllOld<R>(entries: seq<Entry<R>>, now: int, ttl: int) {
    forall i :: 0 <= i < |entries| ==> now - entries[i].freed >= ttl
  }

  /** The section e leads from p to q; time may pass. Only what is checked out is released or invalidated. */
  ghost predicate Next<R>(limits: Limits, p: Pool<R>, e: Event<R>, q: Pool<R>) {
    && p.now <= q.now
    && match e
       case TakesIdle(r) =>
         && p.avail != [] && r == p.avail[0].opaque_
         && q == Pool(p.avail[1..], p.out + multiset{r}, p.total, q.now)
       case Makes(r) =>
         && p.avail == [] && p.total < limits.hmax
         && q == Pool([], p.out + multiset{r}, p.total + 1, q.now)
       case TakesNothing => q == p.(now := q.now)
       case Releases(r, t) =>
         && r in p.out && p.now <= t <= q.now
         && q == Pool([Entry(r, t)] + p.avail, p.out - multiset{r}, p.total, q.now)
       case Invalidates(r) => r in p.out && q == Pool(p.avail, p.out - multiset{r}, p.total - 1, q.now)
       case Creates(made) =>
         && NewestFirst(made) && Between(made, p.now, q.now)
         && (made != [] ==> |p.avail| + |made| <= limits.min && p.total + |made| <= limits.hmax)
         && q == Pool(made + p.avail, p.out, p.total + |made|, q.now)
       case Expires(gone, t) =>
         && p.now <= t <= q.now && p.avail == q.avail + gone && AllOld(gone, t, limits.ttl)
         && (gone != [] ==> |q.avail| >= limits.smax)
         && q == Pool(q.avail, p.out, p.total - |gone|, q.now)
       case Destroys(gone) => p.avail == gone + q.avail && q == Pool(q.avail, p.out, p.total - |gone|, q.now)
  }

  /** The list is in order of release, and nothing in it was released in the future. */
  ghost predicate Ordered<R>(avail: seq<Entry<R>>, now: int) {
    NewestFirst(avail) && forall i :: 0 <= i < |avail| ==> avail[i].freed <= now
  }

  /** hmax, for limits that allow a resource at all. */
  function Cap(limits: Limits): int {
    if limits.hmax < 0 then 0 else limits.hmax
  }

  ghost predicate Inv<R>(limits: Limits, p: Pool<R>) {
    p.total == |p.avail| + |p.out| <= Cap(limits) && Ordered(p.avail, p.now)
  }

  function Resources<R>(avail: seq<Entry<R>>): (r: multiset<R>)
    ensures |r| == |avail|
  {
    if |avail| == 0 then multiset{} else multiset{avail[0].opaque_} + Resources(avail[1..])
  }

  lemma {:induction false} ResourcesConcat<R>(a: seq<Entry<R>>, b: seq<Entry<R>>)
    ensures Resources(a + b) == Resources(a) + Resources(b)
  {
    if |a| == 0 {
      assert a + b == b;
    } else {
      assert (a + b)[1..] == a[1..] + b;
      ResourcesConcat(a[1..], b);
    }
  }

  lemma ResourcesOne<R>(e: Entry<R>)
    ensures Resources([e]) == multiset{e.opaque_}
  {
    assert [e][1..] == [];
  }

  /** The resources that exist: idle or checked out. */
  function Population<R>(p: Pool<R>): multiset<R> {
    Resources(p.avail) + p.out
  }

  function Made<R>(e: Event<R>): multiset<R> {
    match e
    case Makes(r) => multiset{r}
    case Creates(made) => Resources(made)
    case _ => multiset{}
  }

  function Gone<R>(e: Event<R>): multiset<R> {
    match e
    case Invalidates(r) => multiset{r}
    case Expires(gone, _) => Resources(gone)
    case Destroys(gone) => Resources(gone)
    case _ => multiset{}
  }

  lemma OrderedPart<R>(a: seq<Entry<R>>, b: seq<Entry<R>>, now: int, later: int)
    requires Ordered(a + b, now) && now <= later
    ensures Ordered(a, later) && Ordered(b, later)
  {
    var all := a + b;
    assert forall i :: 0 <= i < |a| ==> a[i] == all[i];
    assert forall i :: 0 <= i < |b| ==> b[i] == all[|a| + i];
  }

  lemma OrderedBefore<R>(a: seq<Entry<R>>, b: seq<Entry<R>>, now: int, later: int)
    requires Ordered(b, now) && NewestFirst(a) && Between(a, now, later) && now <= later
    ensures Ordered(a + b, later)
  {
    var all := a + b;
    assert forall i :: |a| <= i < |all| ==> all[i] == b[i - |a|];
  }

  /** Every section keeps the counters, the limit and the order. */
  lemma StepKeepsInv<R>(limits: Limits, p: Pool<R>, e: Event<R>, q: Pool<R>)
    requires Inv(limits, p) && Next(limits, p, e, q)
    ensures Inv(limits, q)
  {
    hide NewestFirst, Between, AllOld;
    match e
    case TakesIdle(r) =>
      assert p.avail == [p.avail[0]] + q.avail;
      OrderedPart([p.avail[0]], q.avail, p.now, q.now);
    case Makes(r) =>
    case TakesNothing =>
    case Releases(r, t) =>
      assert NewestFirst([Entry(r, t)]) && Between([Entry(r, t)], p.now, q.now) by {
        OneInTime(Entry(r, t), p.now, q.now);
      }
      OrderedBefore([Entry(r, t)], p.avail, p.now, q.now);
    case Invalidates(r) =>
    case Creates(made) => OrderedBefore(made, p.avail, p.now, q.now);
    case Expires(gone, t) => OrderedPart(q.avail, gone, p.now, q.now);
    case Destroys(gone) => OrderedPart(gone, q.avail, p.now, q.now);
  }

  lemma OneInTime<R>(e: Entry<R>, from: int, to: int)
    requires from <= e.freed <= to
    ensures NewestFirst([e]) && Between([e], from, to)
  {
  }

  /** What a section makes and destroys is the whole change of what exists. */
  lemma StepConserves<R>(limits: Limits, p: Pool<R>, e: Event<R>, q: Pool<R>)
    requires Next(limits, p, e, q)
    ensures Population(q) + Gone(e) == Population(p) + Made(e)
  {
    hide Resources, NewestFirst, Between, AllOld;
    match e
    case TakesIdle(r) =>
      ResourcesOne(p.avail[0]);
      ResourcesConcat([p.avail[0]], q.avail);
      assert p.avail == [p.avail[0]] + q.avail;
      Shift(multiset{r}, Resources(q.avail), p.out);
    case Makes(r) => Shift(multiset{r}, Resources(p.avail), p.out);
    case TakesNothing =>
    case Releases(r, t) =>
      ResourcesOne(Entry(r, t));
      ResourcesConcat([Entry(r, t)], p.avail);
      assert p.out == q.out + multiset{r};
      Shift(multiset{r}, Resources(p.avail), q.out);
    case Invalidates(r) =>
      assert p.out == q.out + multiset{r};
      Shift(multiset{r}, Resources(p.avail), q.out);
    case Creates(made) =>
      ResourcesConcat(made, p.avail);
      Shift(Resources(made), Resources(p.avail), p.out);
    case Expires(gone, t) =>
      ResourcesConcat(q.avail, gone);
      Shift(Resources(gone), Resources(q.avail), p.out);
    case Destroys(gone) =>
      ResourcesConcat(gone, q.avail);
      Shift(Resources(gone), Resources(q.avail), p.out);
  }

  lemma Shift<R>(x: multiset<R>, a: multiset<R>, b: multiset<R>)
    ensures (x + a) + b == (a + b) + x == a + (b + x) == (a + x) + b
  {
  }

  // ---------- runs ----------

  ghost predicate Run<R>(limits: Limits, pools: seq<Pool<R>>, events: seq<Event<R>>) {
    && |pools| == |events| + 1
    && forall i, j :: 0 <= i && j == i + 1 && j < |pools| ==> Next(limits, pools[i], events[i], pools[j])
  }

  /** All that the first k sections have made */
  function AllMade<R>(events: seq<Event<R>>, k: nat): multiset<R>
    requires k <= |events|
  {
    if k == 0 then multiset{} else AllMade(events, k - 1) + Made(events[k - 1])
  }

  function AllGone<R>(events: seq<Event<R>>, k: nat): multiset<R>
    requires k <= |events|
  {
    if k == 0 then multiset{} else AllGone(events, k - 1) + Gone(events[k - 1])
  }

  /**
   In every interleaving: the total is what is idle and checked out, never above the limit; the list is in order of
   release; and every resource ever made is idle, checked out or destroyed, just once.
   */
  lemma {:induction false} RunConserves<R>(limits: Limits, pools: seq<Pool<R>>, events: seq<Event<R>>, k: nat)
    requires Run(limits, pools, events) && Inv(limits, pools[0]) && k < |pools|
    ensures Inv(limits, pools[k])
    ensures Population(pools[k]) + AllGone(events, k) == Population(pools[0]) + AllMade(events, k)
    decreases k
  {
    hide Next, Inv, Population, Made, Gone;
    if k > 0 {
      RunConserves(limits, pools, events, k - 1);
      StepKeepsInv(limits, pools[k - 1], events[k - 1], pools[k]);
      StepConserves(limits, pools[k - 1], events[k - 1], pools[k]);
      Balance(Population(pools[k]), Gone(events[k - 1]), Population(pools[k - 1]), Made(events[k - 1]),
              AllGone(events, k - 1), Population(pools[0]), AllMade(events, k - 1));
    }
  }

  lemma Balance<R>(p: multiset<R>, g: multiset<R>, q: multiset<R>, m: multiset<R>,
                   G: multiset<R>, start: multiset<R>, M: multiset<R>)
    requires p + g == q + m && q + G == start + M
    ensures p + (G + g) == start + (M + m)
  {
    assert p + (G + g) == (p + g) + G;
    assert (q + m) + G == (q + G) + m;
  }
}
