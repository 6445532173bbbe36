/** The order in which `schedule` runs threads: two levels of lists, processes
    and their threads, and the flat circle of threads that they amount to. */
module RoundRobin {
  import opened Common

  /** Thread t of queued process p, or the idle thread. */
  datatype Cursor = Idle | At(p: nat, t: nat)

  /** The thread list of each queued process, head process first. */
  datatype Ring<T> = Ring(queue: seq<seq<T>>, cur: Cursor)

  ghost predicate WellFormed<T>(r: Ring<T>) {
    && (forall p :: 0 <= p < |r.queue| ==> r.queue[p] != [])
    && match r.cur
       case Idle => true
       case At(p, t) => p < |r.queue| && t < |r.queue[p]|
  }

  /** `switch_process` when the process at position p has just been left. */
  ghost function NextProcess<T>(queue: seq<seq<T>>, p: nat): Cursor {
    if p < |queue| then At(p, 0) else if queue != [] then At(0, 0) else Idle
  }

  /** `schedule` when the current thread lives on. */
  ghost function Tick<T>(r: Ring<T>): Ring<T>
    requires WellFormed(r)
  {
    match r.cur
    case Idle => r.(cur := NextProcess(r.queue, |r.queue|))
    case At(p, t) =>
      r.(cur := if t + 1 < |r.queue[p]| then At(p, t + 1) else NextProcess(r.queue, p + 1))
  }

  /** The queue after thread t of process p was reaped, and with it the
      process if that was its only thread. */
  ghost function Reaped<T>(queue: seq<seq<T>>, p: nat, t: nat): seq<seq<T>>
    requires p < |queue| && t < |queue[p]|
  {
    if |queue[p]| == 1 then Without(queue, p) else queue[p := Without(queue[p], t)]
  }

  /** `schedule` when the current thread is dead. */
  ghost function Die<T>(r: Ring<T>): Ring<T>
    requires WellFormed(r) && r.cur.At?
  {
    var (p, t) := (r.cur.p, r.cur.t);
    var queue := Reaped(r.queue, p, t);
    Ring(queue, if t + 1 < |r.queue[p]| then At(p, t)
                else if |r.queue[p]| == 1 then NextProcess(queue, p)
                else NextProcess(queue, p + 1))
  }

  /** `create_proc` with add_to_queue: a process with one thread, in front. */
  ghost function Spawn<T>(r: Ring<T>, x: T): Ring<T> {
    Ring([[x]] + r.queue, match r.cur case Idle => Idle case At(p, t) => At(p + 1, t))
  }

  // ---------------------------------------------------------- the flat circle

  datatype Circle<T> = Circle(xs: seq<T>, at: Option<nat>)

  ghost predicate OnCircle<T>(c: Circle<T>) {
    c.at.Some? ==> c.at.value < |c.xs|
  }

  /** Place n of a circle of len places, where place len is place 0 again. */
  function Wrap(n: nat, len: nat): nat
    requires n <= len
  {
    if n < len then n else 0
  }

  ghost function Turn<T>(c: Circle<T>): Circle<T>
    requires OnCircle(c)
  {
    if c.xs == [] then c
    else if c.at == None then c.(at := Some(0))
    else c.(at := Some(Wrap(c.at.value + 1, |c.xs|)))
  }

  ghost function Drop<T>(c: Circle<T>): Circle<T>
    requires OnCircle(c) && c.at.Some?
  {
    var xs := Without(c.xs, c.at.value);
    Circle(xs, if xs == [] then None else Some(Wrap(c.at.value, |xs|)))
  }

  ghost function Push<T>(c: Circle<T>, x: T): Circle<T> {
    Circle([x] + c.xs, if c.at == None then None else Some(c.at.value + 1))
  }

  ghost function Flat<T>(queue: seq<seq<T>>): seq<T> {
    if queue == [] then [] else Flat(queue[..|queue| - 1]) + queue[|queue| - 1]
  }

  ghost function Position<T>(queue: seq<seq<T>>, p: nat, t: nat): nat
    requires p <= |queue|
  {
    |Flat(queue[..p])| + t
  }

  ghost function Abs<T>(r: Ring<T>): Circle<T>
    requires WellFormed(r)
  {
    Circle(Flat(r.queue), match r.cur case Idle => None case At(p, t) => Some(Position(r.queue, p, t)))
  }

  lemma {:induction false} FlatConcat<T>(a: seq<seq<T>>, b: seq<seq<T>>)
    ensures Flat(a + b) == Flat(a) + Flat(b)
    decreases |b|
  {
    if b == [] {
      assert a + b == a;
    } else {
      var b' := b[..|b| - 1];
      assert (a + b)[..|a + b| - 1] == a + b';
      FlatConcat(a, b');
    }
  }

  lemma FlatOne<T>(s: seq<T>)
    ensures Flat([s]) == s
  {
    assert [s][..0] == [];
  }

  /** The flat list around process p. */
  lemma FlatAt<T>(queue: seq<seq<T>>, p: nat)
    requires p < |queue|
    ensures Flat(queue) == Flat(queue[..p]) + queue[p] + Flat(queue[p + 1..])
    ensures |Flat(queue[..p + 1])| == |Flat(queue[..p])| + |queue[p]|
  {
    assert queue == queue[..p + 1] + queue[p + 1..];
    FlatConcat(queue[..p + 1], queue[p + 1..]);
    assert queue[..p + 1][..p] == queue[..p];
  }

  lemma FlatNonEmpty<T>(queue: seq<seq<T>>)
    requires forall p :: 0 <= p < |queue| ==> queue[p] != []
    ensures Flat(queue) == [] <==> queue == []
  {
    if queue != [] {
      FlatAt(queue, 0);
    }
  }

  lemma PositionInRange<T>(r: Ring<T>)
    requires WellFormed(r)
    ensures OnCircle(Abs(r))
    ensures r.cur.At? ==> Abs(r).xs[Abs(r).at.value] == r.queue[r.cur.p][r.cur.t]
  {
    if r.cur.At? {
      FlatAt(r.queue, r.cur.p);
    }
  }

  lemma NextPosition<T>(queue: seq<seq<T>>, p: nat)
    requires p <= |queue| && forall k :: 0 <= k < |queue| ==> queue[k] != []
    ensures |Flat(queue[..p])| <= |Flat(queue)|
    ensures var c := NextProcess(queue, p);
      && WellFormed(Ring(queue, c))
      && Abs(Ring(queue, c)).at ==
         if queue == [] then None else Some(Wrap(|Flat(queue[..p])|, |Flat(queue)|))
    ensures Flat(queue) == [] <==> queue == []
  {
    FlatNonEmpty(queue);
    assert queue[..|queue|] == queue && queue[..0] == [];
    if p < |queue| {
      FlatAt(queue, p);
    }
  }

  /** Two-level scheduling advances by one place on the flat circle. */
  lemma TickTurns<T>(r: Ring<T>)
    requires WellFormed(r)
    ensures WellFormed(Tick(r)) && OnCircle(Abs(r)) && Abs(Tick(r)) == Turn(Abs(r))
  {
    hide Flat;
    PositionInRange(r);
    match r.cur
    case Idle =>
      NextPosition(r.queue, |r.queue|);
      assert r.queue[..|r.queue|] == r.queue;
    case At(p, t) =>
      FlatAt(r.queue, p);
      if t + 1 == |r.queue[p]| {
        NextPosition(r.queue, p + 1);
      }
  }

  lemma ReapedFlat<T>(queue: seq<seq<T>>, p: nat, t: nat)
    requires p < |queue| && t < |queue[p]|
    ensures |Flat(queue[..p])| + t < |Flat(queue)|
    ensures Flat(Reaped(queue, p, t)) == Without(Flat(queue), |Flat(queue[..p])| + t)
  {
    hide Flat;
    FlatAt(queue, p);
    ReapedShape(queue, p, t);
    var q := Reaped(queue, p, t);
    WithoutMiddle(Flat(queue[..p]), queue[p], Flat(queue[p + 1..]), t);
    if |queue[p]| == 1 {
      FlatConcat(queue[..p], queue[p + 1..]);
    } else {
      FlatAt(q, p);
      assert q[p + 1..] == queue[p + 1..];
    }
  }

  lemma WithoutMiddle<T>(a: seq<T>, b: seq<T>, c: seq<T>, t: nat)
    requires t < |b|
    ensures Without(a + b + c, |a| + t) == a + Without(b, t) + c
    ensures |b| == 1 ==> Without(a + b + c, |a| + t) == a + c
  {
  }

  /** Reaping removes exactly the current thread from the circle and moves on
      to its successor. */
  lemma DieDrops<T>(r: Ring<T>)
    requires WellFormed(r) && r.cur.At?
    ensures WellFormed(Die(r)) && OnCircle(Abs(r)) && Abs(Die(r)) == Drop(Abs(r))
  {
    hide Flat, Without;
    var (p, t) := (r.cur.p, r.cur.t);
    var q := Reaped(r.queue, p, t);
    PositionInRange(r);
    ReapedFlat(r.queue, p, t);
    ReapedShape(r.queue, p, t);
    FlatAt(r.queue, p);
    assert Flat(q) == Drop(Abs(r)).xs;
    FlatNonEmpty(q);
    if t + 1 < |r.queue[p]| {
      PositionInRange(Ring(q, At(p, t)));
    } else if |r.queue[p]| == 1 {
      NextPosition(q, p);
    } else {
      FlatAt(q, p);
      NextPosition(q, p + 1);
    }
  }

  lemma ReapedShape<T>(queue: seq<seq<T>>, p: nat, t: nat)
    requires p < |queue| && t < |queue[p]|
    ensures var q := Reaped(queue, p, t);
      && q[..p] == queue[..p]
      && if |queue[p]| == 1 then |q| == |queue| - 1
         else |q| == |queue| && |q[p]| == |queue[p]| - 1
    ensures (forall k :: 0 <= k < |queue| ==> queue[k] != []) ==>
      forall k :: 0 <= k < |Reaped(queue, p, t)| ==> Reaped(queue, p, t)[k] != []
  {
    var q := Reaped(queue, p, t);
    assert q[..p] == queue[..p];
  }

  lemma ReapedCases<T>(queue: seq<seq<T>>, p: nat, t: nat)
    requires p < |queue| && t < |queue[p]|
    ensures Reaped(queue, p, t) ==
      if |queue[p]| == 1 then Without(queue, p) else queue[p := Without(queue[p], t)]
  {
  }

  /** Reaping leaves the other threads, and only those, when all differ. */
  lemma ReapedMembers<T>(queue: seq<seq<T>>, p: nat, t: nat)
    requires p < |queue| && t < |queue[p]|
    requires forall i, j :: 0 <= i < j < |queue[p]| ==> queue[p][i] != queue[p][j]
    requires forall q, i :: 0 <= q < |queue| && q != p && 0 <= i < |queue[q]| ==> queue[q][i] != queue[p][t]
    ensures var r := Reaped(queue, p, t);
      forall q, i :: 0 <= q < |r| && 0 <= i < |r[q]| ==>
        r[q][i] != queue[p][t] && exists o, k :: 0 <= o < |queue| && 0 <= k < |queue[o]| && queue[o][k] == r[q][i]
  {
    var r := Reaped(queue, p, t);
    forall q, i | 0 <= q < |r| && 0 <= i < |r[q]|
      ensures r[q][i] != queue[p][t]
      ensures exists o, k :: 0 <= o < |queue| && 0 <= k < |queue[o]| && queue[o][k] == r[q][i]
    {
      if |queue[p]| == 1 {
        var o := if q < p then q else q + 1;
        assert queue[o][i] == r[q][i];
      } else if q == p {
        var k := if i < t then i else i + 1;
        assert queue[p][k] == r[q][i];
      } else {
        assert queue[q][i] == r[q][i];
      }
    }
  }

  lemma ReapedKeeps<T>(queue: seq<seq<T>>, p: nat, t: nat)
    requires p < |queue| && t < |queue[p]|
    ensures var r := Reaped(queue, p, t);
      forall q, i :: 0 <= q < |queue| && 0 <= i < |queue[q]| && queue[q][i] != queue[p][t] ==>
        exists o, k :: 0 <= o < |r| && 0 <= k < |r[o]| && r[o][k] == queue[q][i]
  {
    var r := Reaped(queue, p, t);
    forall q, i | 0 <= q < |queue| && 0 <= i < |queue[q]| && queue[q][i] != queue[p][t]
      ensures exists o, k :: 0 <= o < |r| && 0 <= k < |r[o]| && r[o][k] == queue[q][i]
    {
      if |queue[p]| == 1 {
        var o := if q < p then q else q - 1;
        assert r[o][i] == queue[q][i];
      } else if q == p {
        var k := if i < t then i else i - 1;
        assert r[p][k] == queue[q][i];
      } else {
        assert r[q][i] == queue[q][i];
      }
    }
  }

  lemma SpawnPushes<T>(r: Ring<T>, x: T)
    requires WellFormed(r)
    ensures WellFormed(Spawn(r, x)) && Abs(Spawn(r, x)) == Push(Abs(r), x)
  {
    FlatOne([x]);
    FlatConcat([[x]], r.queue);
    if r.cur.At? {
      var p := r.cur.p;
      assert ([[x]] + r.queue)[..p + 1] == [[x]] + r.queue[..p];
      FlatConcat([[x]], r.queue[..p]);
    }
  }

  // ----------------------------------------------------------------- fairness

  datatype Event<T> = Switch | Exit | Create(x: T)

  /** One event: a call of `schedule` from a live thread, one from a dead
      thread, or a new process. */
  ghost function Apply<T>(c: Circle<T>, e: Event<T>): (c': Circle<T>)
    requires OnCircle(c)
    ensures OnCircle(c')
  {
    match e
    case Switch => Turn(c)
    case Exit => if c.at == None then Turn(c) else Drop(c)
    case Create(x) => Push(c, x)
  }

  ghost predicate Running<T>(c: Circle<T>, x: T)
    requires OnCircle(c)
  {
    c.at.Some? && c.xs[c.at.value] == x
  }

  /** Some call of `schedule` among the events hands the processor to x. */
  ghost predicate Reached<T(!new)>(c: Circle<T>, es: seq<Event<T>>, x: T)
    requires OnCircle(c)
    decreases |es|
  {
    es != [] &&
    var c' := Apply(c, es[0]);
    (!es[0].Create? && Running(c', x)) || Reached(c', es[1..], x)
  }

  /** How many of the events are calls of `schedule`. */
  ghost function Calls<T>(es: seq<Event<T>>): nat {
    if es == [] then 0 else (if es[0].Create? then 0 else 1) + Calls(es[1..])
  }

  /** How many processes are created before the n-th call of `schedule`. */
  ghost function CreatedBefore<T>(es: seq<Event<T>>, n: nat): nat
    decreases |es|
  {
    if es == [] || n == 0 then 0
    else if es[0].Create? then 1 + CreatedBefore(es[1..], n)
    else CreatedBefore(es[1..], n - 1)
  }

  /** A thread ahead of the current one runs after as many calls as it is
      places ahead, however many processes are created meanwhile. */
  lemma {:induction false} AheadReached<T(!new)>(c: Circle<T>, es: seq<Event<T>>, i: nat)
    requires OnCircle(c) && c.at.Some? && c.at.value < i < |c.xs|
    requires Calls(es) >= i - c.at.value
    ensures Reached(c, es, c.xs[i])
    decreases |es|
  {
    var a := c.at.value;
    var c' := Apply(c, es[0]);
    match es[0]
    case Switch =>
      assert c'.at == Some(a + 1);
      if a + 1 < i { AheadReached(c', es[1..], i); }
    case Exit =>
      assert c'.xs[i - 1] == c.xs[i] && c'.at == Some(a);
      if a < i - 1 { AheadReached(c', es[1..], i - 1); }
    case Create(x) =>
      assert c'.xs[i + 1] == c.xs[i];
      AheadReached(c', es[1..], i + 1);
  }

  /** A thread behind the current one waits for the rest of the circle, then
      for its own place and one more for each process created before the
      circle wrapped; processes created later cannot delay it. */
  lemma {:induction false} BehindReached<T(!new)>(c: Circle<T>, es: seq<Event<T>>, i: nat)
    requires OnCircle(c) && c.at.Some? && i < c.at.value
    requires Calls(es) >= |c.xs| - c.at.value + i + CreatedBefore(es, |c.xs| - c.at.value)
    ensures Reached(c, es, c.xs[i])
    decreases |es|
  {
    var a := c.at.value;
    var c' := Apply(c, es[0]);
    match es[0]
    case Switch =>
      WrapOrBehind(c, c', es, i);
    case Exit =>
      assert c'.xs[i] == c.xs[i] && |c'.xs| == |c.xs| - 1;
      WrapOrBehind(c, c', es, i);
    case Create(x) =>
      assert c'.xs[i + 1] == c.xs[i];
      BehindReached(c', es[1..], i + 1);
  }

  lemma {:induction false} WrapOrBehind<T(!new)>(c: Circle<T>, c': Circle<T>, es: seq<Event<T>>, i: nat)
    requires OnCircle(c) && c.at.Some? && i < c.at.value && es != [] && !es[0].Create?
    requires Calls(es) >= |c.xs| - c.at.value + i + CreatedBefore(es, |c.xs| - c.at.value)
    requires OnCircle(c') && i < |c'.xs| && c'.xs[i] == c.xs[i]
    requires if |c.xs| - c.at.value == 1 then c'.at == Some(0)
             else c'.at.Some? && i < c'.at.value && |c'.xs| - c'.at.value == |c.xs| - c.at.value - 1
    ensures Running(c', c.xs[i]) || Reached(c', es[1..], c.xs[i])
    decreases |es|, 0
  {
    if |c.xs| - c.at.value == 1 {
      if i > 0 { AheadReached(c', es[1..], i); }
    } else {
      BehindReached(c', es[1..], i);
    }
  }

  /** From the idle thread the queued threads run from the front. */
  lemma {:induction false} IdleReached<T(!new)>(c: Circle<T>, es: seq<Event<T>>, i: nat)
    requires OnCircle(c) && c.at == None && i < |c.xs|
    requires Calls(es) >= i + 1 + CreatedBefore(es, 1)
    ensures Reached(c, es, c.xs[i])
    decreases |es|
  {
    var c' := Apply(c, es[0]);
    if es[0].Create? {
      assert c'.xs[i + 1] == c.xs[i];
      IdleReached(c', es[1..], i + 1);
    } else {
      assert c'.at == Some(0) && c'.xs == c.xs;
      if i > 0 { AheadReached(c', es[1..], i); }
    }
  }

  /** The first call of `schedule` among the events is from a live thread. */
  ghost predicate LivesOn<T>(es: seq<Event<T>>) {
    es != [] && (es[0].Switch? || (es[0].Create? && LivesOn(es[1..])))
  }

  /** The running thread, unless it exits, runs again after one full round. */
  lemma {:induction false} CurrentReached<T(!new)>(c: Circle<T>, es: seq<Event<T>>)
    requires OnCircle(c) && c.at.Some? && LivesOn(es)
    requires Calls(es) >= |c.xs| + CreatedBefore(es, |c.xs| - c.at.value)
    ensures Reached(c, es, c.xs[c.at.value])
    decreases |es|
  {
    var a := c.at.value;
    var c' := Apply(c, es[0]);
    if es[0].Create? {
      assert c'.xs[a + 1] == c.xs[a];
      CurrentReached(c', es[1..]);
    } else if a + 1 < |c.xs| {
      BehindReached(c', es[1..], a);
    } else if a > 0 {
      AheadReached(c', es[1..], a);
    }
  }

  /** No thread starves: whichever thread runs now, and whatever is created or
      exits meanwhile, a queued thread that is not running is handed the
      processor within a number of calls that is known once the circle wraps. */
  lemma EveryThreadReached<T(!new)>(c: Circle<T>, es: seq<Event<T>>, i: nat)
    requires OnCircle(c) && c.at.Some? && i < |c.xs| && i != c.at.value
    requires var a := c.at.value;
      Calls(es) >= if a < i then i - a else |c.xs| - a + i + CreatedBefore(es, |c.xs| - a)
    ensures Reached(c, es, c.xs[i])
  {
    if c.at.value < i {
      AheadReached(c, es, i);
    } else {
      BehindReached(c, es, i);
    }
  }

  /** The same events on the two-level ring. */
  ghost function ApplyRing<T>(r: Ring<T>, e: Event<T>): Ring<T>
    requires WellFormed(r)
  {
    match e
    case Switch => Tick(r)
    case Exit => if r.cur == Idle then Tick(r) else Die(r)
    case Create(x) => Spawn(r, x)
  }

  lemma ApplyRefines<T>(r: Ring<T>, e: Event<T>)
    requires WellFormed(r)
    ensures WellFormed(ApplyRing(r, e)) && OnCircle(Abs(r)) && Abs(ApplyRing(r, e)) == Apply(Abs(r), e)
  {
    hide Tick, Die, Spawn, Turn, Drop, Push, WellFormed;
    PositionInRange(r);
    match e
    case Switch => TickTurns(r);
    case Exit => if r.cur == Idle { TickTurns(r); } else { DieDrops(r); }
    case Create(x) => SpawnPushes(r, x);
  }

  ghost predicate RunsNow<T>(r: Ring<T>, x: T)
    requires WellFormed(r)
  {
    r.cur.At? && r.queue[r.cur.p][r.cur.t] == x
  }

  ghost predicate RunsDuring<T(!new)>(r: Ring<T>, es: seq<Event<T>>, x: T)
    decreases |es|
  {
    WellFormed(r) && es != [] &&
    var r' := ApplyRing(r, es[0]);
    WellFormed(r') && ((!es[0].Create? && RunsNow(r', x)) || RunsDuring(r', es[1..], x))
  }

  lemma {:induction false} ReachedRuns<T(!new)>(r: Ring<T>, es: seq<Event<T>>, x: T)
    requires WellFormed(r) && OnCircle(Abs(r)) && Reached(Abs(r), es, x)
    ensures RunsDuring(r, es, x)
    decreases |es|
  {
    hide ApplyRing, Apply, WellFormed, Abs, Flat;
    var r' := ApplyRing(r, es[0]);
    ApplyRefines(r, es[0]);
    RunningNow(r', x);
    if !(!es[0].Create? && RunsNow(r', x)) {
      ReachedRuns(r', es[1..], x);
    }
  }

  lemma RunningNow<T>(r: Ring<T>, x: T)
    requires WellFormed(r)
    ensures OnCircle(Abs(r)) && (Running(Abs(r), x) <==> RunsNow(r, x))
  {
    PositionInRange(r);
  }

  /** How many calls of `schedule` thread t of process p waits at most: its
      distance on the circle, and one more for each process created before the
      circle wraps, if it has to wrap. */
  ghost function Wait<T>(r: Ring<T>, es: seq<Event<T>>, p: nat, t: nat): nat
    requires WellFormed(r) && p < |r.queue| && t < |r.queue[p]|
  {
    PositionInRange(r);
    var i, n := Position(r.queue, p, t), |Flat(r.queue)|;
    match r.cur
    case Idle => i + 1 + CreatedBefore(es, 1)
    case At(q, u) =>
      var a := Position(r.queue, q, u);
      if a < i then i - a
      else if r.cur == At(p, t) then n + CreatedBefore(es, n - a)
      else n - a + i + CreatedBefore(es, n - a)
  }

  /** No queued thread starves under the two-level scheduler: whichever thread
      runs now, the idle thread included, and whatever exits or is created
      meanwhile, thread t of process p gets the processor within the stated
      number of calls. If it is the one that runs now, it must not exit. */
  lemma RingFair<T(!new)>(r: Ring<T>, es: seq<Event<T>>, p: nat, t: nat)
    requires WellFormed(r) && p < |r.queue| && t < |r.queue[p]| && Calls(es) >= Wait(r, es, p, t)
    requires r.cur == At(p, t) ==> LivesOn(es)
    ensures RunsDuring(r, es, r.queue[p][t])
  {
    hide Flat, Reached, RunsDuring, Calls, CreatedBefore, LivesOn;
    PositionInRange(r);
    PositionInRange(Ring(r.queue, At(p, t)));
    if r.cur == Idle {
      IdleReached(Abs(r), es, Position(r.queue, p, t));
    } else {
      PositionInjective(r.queue, p, t, r.cur.p, r.cur.t);
      if r.cur == At(p, t) {
        CurrentReached(Abs(r), es);
      } else {
        EveryThreadReached(Abs(r), es, Position(r.queue, p, t));
      }
    }
    ReachedRuns(r, es, r.queue[p][t]);
  }

  lemma PositionInjective<T>(queue: seq<seq<T>>, p: nat, t: nat, q: nat, u: nat)
    requires p < |queue| && t < |queue[p]| && q < |queue| && u < |queue[q]|
    ensures Position(queue, p, t) == Position(queue, q, u) ==> p == q && t == u
  {
    if p < q {
      PositionOrder(queue, p, q);
    } else if q < p {
      PositionOrder(queue, q, p);
    }
  }

  lemma {:induction false} PositionOrder<T>(queue: seq<seq<T>>, p: nat, q: nat)
    requires p < q <= |queue|
    ensures |Flat(queue[..p])| + |queue[p]| <= |Flat(queue[..q])|
    decreases q - p
  {
    FlatAt(queue, q - 1);
    if p < q - 1 {
      PositionOrder(queue, p, q - 1);
    }
  }

  // ----------------------------------------------------------------- one round

  ghost function Turns<T>(c: Circle<T>, n: nat): (c': Circle<T>)
    requires OnCircle(c)
    ensures OnCircle(c')
  {
    if n == 0 then c else Turn(Turns(c, n - 1))
  }

  lemma {:induction false} TurnsPosition<T>(c: Circle<T>, n: nat)
    requires OnCircle(c) && c.at.Some? && n <= |c.xs|
    ensures Turns(c, n).xs == c.xs
    ensures Turns(c, n).at ==
            Some(if c.at.value + n < |c.xs| then c.at.value + n else c.at.value + n - |c.xs|)
  {
    if n > 0 {
      TurnsPosition(c, n - 1);
    }
  }

  /** The call after which thread i runs. */
  ghost function TurnOf<T>(c: Circle<T>, i: nat): (n: nat)
    requires OnCircle(c) && c.at.Some? && i < |c.xs|
    ensures 1 <= n <= |c.xs|
  {
    if c.at.value < i then i - c.at.value else |c.xs| - c.at.value + i
  }

  lemma RunsOnItsTurn<T>(c: Circle<T>, i: nat, n: nat)
    requires OnCircle(c) && c.at.Some? && i < |c.xs| && 1 <= n <= |c.xs|
    requires forall j, k :: 0 <= j < k < |c.xs| ==> c.xs[j] != c.xs[k]
    ensures Running(Turns(c, n), c.xs[i]) <==> n == TurnOf(c, i)
  {
    hide Turns;
    TurnsPosition(c, n);
  }

  /** Without deaths or new processes, N calls, N being the number of queued
      threads, run each of them exactly once and end where they began. */
  lemma OneRound<T>(c: Circle<T>, i: nat)
    requires OnCircle(c) && c.at.Some? && i < |c.xs|
    requires forall j, k :: 0 <= j < k < |c.xs| ==> c.xs[j] != c.xs[k]
    ensures Turns(c, |c.xs|) == c
    ensures forall n: nat :: 1 <= n <= |c.xs| ==> (Running(Turns(c, n), c.xs[i]) <==> n == TurnOf(c, i))
  {
    hide Turns, Running;
    TurnsPosition(c, |c.xs|);
    forall n: nat | 1 <= n <= |c.xs|
      ensures Running(Turns(c, n), c.xs[i]) <==> n == TurnOf(c, i)
    {
      RunsOnItsTurn(c, i, n);
    }
  }

  /** n calls of `schedule` from live threads. */
  ghost function Ticks<T>(r: Ring<T>, n: nat): (r': Ring<T>)
    requires WellFormed(r)
    ensures WellFormed(r') && r'.queue == r.queue
  {
    if n == 0 then r
    else
      TickTurns(Ticks(r, n - 1));
      Tick(Ticks(r, n - 1))
  }

  lemma {:induction false} TicksTurn<T>(r: Ring<T>, n: nat)
    requires WellFormed(r)
    ensures OnCircle(Abs(r)) && Abs(Ticks(r, n)) == Turns(Abs(r), n)
  {
    hide WellFormed, Abs, Tick, Turn;
    TickTurns(r);
    if n > 0 {
      TicksTurn(r, n - 1);
      TickTurns(Ticks(r, n - 1));
    }
  }

  /** All queued threads are different. */
  ghost predicate Different<T(!new)>(queue: seq<seq<T>>) {
    forall i, j :: 0 <= i < j < |Flat(queue)| ==> Flat(queue)[i] != Flat(queue)[j]
  }

  /** On the two-level ring, N calls of `schedule`, N being the number of queued
      threads, run thread t of process p exactly once, and they end where they
      began, if nothing exits or is created. */
  lemma RingRound<T(!new)>(r: Ring<T>, p: nat, t: nat)
    requires WellFormed(r) && r.cur.At? && p < |r.queue| && t < |r.queue[p]| && Different(r.queue)
    ensures OnCircle(Abs(r)) && Position(r.queue, p, t) < |Flat(r.queue)|
    ensures Ticks(r, |Flat(r.queue)|) == r
    ensures forall n: nat :: 1 <= n <= |Flat(r.queue)| ==>
      (RunsNow(Ticks(r, n), r.queue[p][t]) <==> n == TurnOf(Abs(r), Position(r.queue, p, t)))
  {
    hide Flat, Ticks, Turns, TurnOf, RunsNow, Running;
    var i, len := Position(r.queue, p, t), |Flat(r.queue)|;
    PositionInRange(r);
    PositionInRange(Ring(r.queue, At(p, t)));
    OneRound(Abs(r), i);
    TicksTurn(r, len);
    SameRing(r, Ticks(r, len));
    forall n: nat | 1 <= n <= len
      ensures RunsNow(Ticks(r, n), r.queue[p][t]) <==> n == TurnOf(Abs(r), i)
    {
      TicksTurn(r, n);
      RunningNow(Ticks(r, n), r.queue[p][t]);
    }
  }

  /** A ring is known by its queue and its place on the circle. */
  lemma SameRing<T>(r: Ring<T>, s: Ring<T>)
    requires WellFormed(r) && WellFormed(s) && r.queue == s.queue && Abs(r) == Abs(s)
    ensures r == s
  {
    hide Flat;
    if r.cur.At? {
      PositionInjective(r.queue, r.cur.p, r.cur.t, s.cur.p, s.cur.t);
    }
  }

  lemma {:induction false} NothingCreated<T>(es: seq<Event<T>>, n: nat)
    requires forall i :: 0 <= i < |es| ==> !es[i].Create?
    ensures CreatedBefore(es, n) == 0
    decreases |es|
  {
    if es != [] && n > 0 {
      NothingCreated(es[1..], n - 1);
    }
  }

  /** The bound of RingFair is tight: without new processes or exits a thread runs
      at exactly that call and at no earlier one. */
  lemma WaitTight<T(!new)>(r: Ring<T>, es: seq<Event<T>>, p: nat, t: nat, n: nat)
    requires WellFormed(r) && r.cur.At? && p < |r.queue| && t < |r.queue[p]| && Different(r.queue)
    requires (forall i :: 0 <= i < |es| ==> !es[i].Create?) && 1 <= n <= |Flat(r.queue)|
    ensures RunsNow(Ticks(r, n), r.queue[p][t]) <==> n == Wait(r, es, p, t)
  {
    hide Flat, Ticks, RunsNow, CreatedBefore;
    RingRound(r, p, t);
    PositionInRange(r);
    PositionInjective(r.queue, p, t, r.cur.p, r.cur.t);
    NothingCreated(es, |Flat(r.queue)| - Position(r.queue, r.cur.p, r.cur.t));
  }
}
