/** `schedule` with `switch_process`, `reap_thread`, `reap_process`,
    `create_proc` and `create_thread`, on linked thread and process objects. */
module Scheduler {
  import opened Common
  import opened RoundRobin

  /** The saved registers of a cpu_context_t. */
  type Context = seq<nat>

  datatype Status = Ready | Running | Dead

  class Thread {
    var parent: Process
    var context: Context
    var status: Status
    var next: Thread?

    constructor (parent: Process, context: Context)
      ensures this.parent == parent && this.context == context && status == Ready && next == null
    {
      this.parent, this.context, status, next := parent, context, Ready, null;
    }
  }

  class Process {
    var threads: Thread?
    var next: Process?

    constructor ()
      ensures threads == null && next == null
    {
      threads, next := null, null;
    }
  }

  /** What the link of element i of a list must be. */
  ghost function Succ(list: seq<Thread>, i: nat): Thread? {
    if i + 1 < |list| then list[i + 1] else null
  }

  ghost function SuccProc(list: seq<Process>, i: nat): Process? {
    if i + 1 < |list| then list[i + 1] else null
  }

  // ------------------------------------------------------------------ history

  /** What has happened to contexts so far: t was created with one, or was
      current when `schedule` was called with one. */
  datatype Record = Born(t: Thread, c: Context) | Left(t: Thread, c: Context)

  /** The context recorded last for t. */
  ghost function LastContext(h: seq<Record>, t: Thread): Option<Context> {
    if h == [] then None
    else if h[|h| - 1].t == t then Some(h[|h| - 1].c)
    else LastContext(h[..|h| - 1], t)
  }

  /** The context t was created with. */
  ghost function BirthContext(h: seq<Record>, t: Thread): Option<Context> {
    if h == [] then None
    else if h[|h| - 1] == Born(t, h[|h| - 1].c) then Some(h[|h| - 1].c)
    else BirthContext(h[..|h| - 1], t)
  }

  lemma LastContextAppend(h: seq<Record>, r: Record, t: Thread)
    ensures LastContext(h + [r], t) == if r.t == t then Some(r.c) else LastContext(h, t)
    ensures BirthContext(h + [r], t) == if r == Born(t, r.c) then Some(r.c) else BirthContext(h, t)
  {
    assert (h + [r])[..|h|] == h;
  }

  class Scheduler {
    const idleProc: Process
    ghost const idleThread: Thread
    var headProc: Process?
    var currentProcess: Process
    var currentThread: Thread
    ghost var procs: seq<Process>          // the queue, from headProc
    ghost var lists: seq<seq<Thread>>      // the threads of each queued process
    ghost var cur: Cursor                  // where currentThread is
    ghost var history: seq<Record>

    ghost function Queued(): set<Thread>
      reads this`lists
    {
      ThreadsOf(lists)
    }

    static ghost function ThreadsOf(ls: seq<seq<Thread>>): set<Thread> {
      set p, t | 0 <= p < |ls| && 0 <= t < |ls[p]| :: ls[p][t]
    }

    /** The process list. */
    static ghost predicate ProcList(procs: seq<Process>, idle: Process)
      reads procs`next
    {
      && (forall p :: 0 <= p < |procs| ==> procs[p].next == SuccProc(procs, p))
      && (forall p, q :: 0 <= p < q < |procs| ==> procs[p] != procs[q])
      && idle !in procs
    }

    ghost predicate ProcLinks()
      reads this`headProc, this`procs, procs`next, idleProc`next
    {
      && headProc == (if procs == [] then null else procs[0])
      && ProcList(procs, idleProc) && idleProc.next == null
    }

    /** The thread list of one process. */
    static ghost predicate ThreadLinks(proc: Process, list: seq<Thread>)
      reads proc`threads, list`parent, list`next
    {
      && list != [] && proc.threads == list[0]
      && (forall t :: 0 <= t < |list| ==>
            && list[t].parent == proc
            && list[t].next == Succ(list, t))
      && (forall t, u :: 0 <= t < u < |list| ==> list[t] != list[u])
    }

    ghost predicate Links()
      reads this`headProc, this`procs, this`lists, procs`next, procs`threads, Queued()`parent, Queued()`next
      reads idleProc`next, idleProc`threads, idleThread`parent, idleThread`next
    {
      && ProcLinks()
      && |lists| == |procs|
      && (forall p :: 0 <= p < |procs| ==> ThreadLinks(procs[p], lists[p]))
      && ThreadLinks(idleProc, [idleThread])
    }

    ghost function View(): Ring<Thread>
      reads this`lists, this`cur
    {
      Ring(lists, cur)
    }

    ghost predicate CurrentAt()
      reads this`lists, this`procs, this`cur, this`currentProcess, this`currentThread
    {
      && |lists| == |procs|
      && match cur
         case Idle => currentProcess == idleProc && currentThread == idleThread
         case At(p, t) => p < |lists| && t < |lists[p]| && currentProcess == procs[p] && currentThread == lists[p][t]
    }

    /** Only the current thread can be running or dead. */
    ghost predicate Statuses()
      reads this`lists, this`currentThread, Queued()`status, idleThread`status
    {
      && (forall t :: t in Queued() && t != currentThread ==> t.status == Ready)
      && idleThread.status != Dead
      && (currentThread != idleThread ==> idleThread.status == Ready)
    }

    /** Every thread that is not running holds the context recorded last for
        it; the idle thread holds the one it was created with. */
    ghost predicate Contexts()
      reads this`lists, this`currentThread, this`history, Queued()`context, idleThread`context
    {
      && (forall t :: t in Queued() && t != currentThread ==> LastContext(history, t) == Some(t.context))
      && BirthContext(history, idleThread) == Some(idleThread.context)
    }

    ghost predicate Valid()
      reads this, procs, Queued(), idleProc, idleThread
    {
      Links() && CurrentAt() && Statuses() && Contexts()
    }

    /** `sched_init`. */
    constructor (context: Context)
      ensures Valid() && procs == [] && cur == Idle && history == [Born(idleThread, context)]
      ensures fresh(idleProc) && fresh(idleThread)
    {
      var proc := new Process();
      var t := new Thread(proc, context);
      proc.threads := t;
      idleProc, idleThread := proc, t;
      headProc, currentProcess, currentThread := null, proc, t;
      procs, lists, cur := [], [], Idle;
      history := [Born(t, context)];
    }

    // ------------------------------------------------------------- list edits

    /** Takes one thread out of the list of its process. The thread keeps its
        own link, which `schedule` still follows. */
    static method UnlinkThread(thread: Thread, ghost proc: Process, ghost list: seq<Thread>, ghost t: nat)
      requires ThreadLinks(proc, list) && t < |list| && thread == list[t]
      modifies proc`threads, list`next
      ensures if |list| == 1 then proc.threads == null else ThreadLinks(proc, Without(list, t))
      ensures thread.next == old(thread.next) && thread.parent == proc
    {
      var parent := thread.parent;
      var scan := parent.threads;
      assert list[t].next == Succ(list, t);
      if scan == thread {
        assert t == 0;
        parent.threads := scan.next;
        UnlinkedFirst(proc, list);
      } else {
        ghost var k := 0;
        while scan.next != thread
          modifies {}
          invariant scan != null && k < t && scan == list[k]
          decreases t - k
        {
          assert list[k].next == Succ(list, k);
          scan := scan.next;
          k := k + 1;
        }
        assert list[k].next == Succ(list, k);
        assert k + 1 == t;
        scan.next := scan.next.next;
        UnlinkedLater(proc, list, t);
      }
    }

    /** The list after its head was passed over. */
    static lemma UnlinkedFirst(proc: Process, list: seq<Thread>)
      requires list != [] && proc.threads == Succ(list, 0)
      requires forall i :: 0 <= i < |list| ==> list[i].parent == proc && list[i].next == Succ(list, i)
      requires forall i, j :: 0 <= i < j < |list| ==> list[i] != list[j]
      ensures if |list| == 1 then proc.threads == null else ThreadLinks(proc, Without(list, 0))
    {
      var rest := Without(list, 0);
      assert rest == list[1..];
      forall i | 0 <= i < |rest|
        ensures rest[i].parent == proc && rest[i].next == Succ(rest, i)
      {
        assert rest[i] == list[i + 1];
      }
    }

    /** The list after the link to element t was moved on. */
    static lemma UnlinkedLater(proc: Process, list: seq<Thread>, t: nat)
      requires 0 < t < |list| && proc.threads == list[0]
      requires forall i :: 0 <= i < |list| ==> list[i].parent == proc
      requires forall i :: 0 <= i < |list| ==> list[i].next == if i == t - 1 then Succ(list, t) else Succ(list, i)
      requires forall i, j :: 0 <= i < j < |list| ==> list[i] != list[j]
      ensures ThreadLinks(proc, Without(list, t))
    {
      var rest := Without(list, t);
      forall i | 0 <= i < |rest|
        ensures rest[i].parent == proc && rest[i].next == Succ(rest, i)
      {
        var k := if i < t then i else i + 1;
        assert rest[i] == list[k];
      }
    }

    /** Adds one thread at the end of the list of a process. */
    static method AppendThread(proc: Process, thread: Thread, ghost list: seq<Thread>)
      requires if list == [] then proc.threads == null else ThreadLinks(proc, list)
      requires thread !in list && thread.parent == proc && thread.next == null
      modifies proc`threads, list`next
      ensures ThreadLinks(proc, list + [thread])
    {
      if proc.threads != null {
        var scan := proc.threads;
        ghost var k := 0;
        while scan.next != null
          modifies {}
          invariant scan != null && k < |list| && scan == list[k]
          decreases |list| - k
        {
          scan := scan.next;
          k := k + 1;
        }
        assert list[k].next == null && k == |list| - 1;
        scan.next := thread;
      } else {
        proc.threads := thread;
      }
    }

    /** A process with the given threads, at position p of the queue or, when p
        is its length, not in it. */
    ghost predicate Reapable(proc: Process, list: seq<Thread>, p: nat)
      reads this`headProc, this`procs, procs`next, idleProc`next, proc`threads, list`parent, list`next
    {
      && ProcLinks() && p <= |procs| && (if p < |procs| then proc == procs[p] else proc !in procs)
      && if list == [] then proc.threads == null else ThreadLinks(proc, list)
    }

    /** The search of `reap_process`: takes the process out of the queue. It keeps
        its own link. False is the NULL pointer that is followed when the process
        is not queued. */
    method Dequeue(proc: Process, ghost p: nat) returns (ok: bool)
      requires ProcLinks() && p <= |procs| && (if p < |procs| then proc == procs[p] else proc !in procs)
      modifies this`headProc, this`procs, procs`next
      ensures ok <==> p < |old(procs)|
      ensures ok ==> ProcLinks() && procs == Without(old(procs), p) && proc.next == old(proc.next)
    {
      var scan := headProc;
      if scan == proc {
        assert p == 0 && procs[p].next == SuccProc(procs, p);
        headProc := scan.next;
        DequeuedFirst(procs, idleProc);
      } else {
        ghost var k := 0;
        while scan != null && scan.next != proc
          modifies {}
          invariant k <= |procs| && k <= p && scan == (if k < |procs| then procs[k] else null)
          invariant p < |procs| ==> k < p
          decreases |procs| - k
        {
          assert procs[k].next == SuccProc(procs, k);
          scan := scan.next;
          k := k + 1;
        }
        if scan == null {
          return false;
        }
        assert procs[k].next == SuccProc(procs, k);
        assert k + 1 == p && procs[p].next == SuccProc(procs, p);
        scan.next := scan.next.next;
        DequeuedLater(procs, idleProc, p);
      }
      procs := Without(procs, p);
      return true;
    }

    /** `reap_process` without the freeing of regions. It completes exactly when
        the process is queued and has no threads left: its loop over remaining
        threads calls `reap_thread`, which after the last of them calls
        `reap_process` again, for a process no longer queued. */
    method ReapProcess(proc: Process, ghost p: nat, ghost list: seq<Thread>) returns (ok: bool)
      requires Reapable(proc, list, p)
      modifies this`headProc, this`procs, procs`next, proc`threads, list`next
      ensures ok <==> p < |old(procs)| && list == []
      ensures ok ==> ProcLinks() && procs == Without(old(procs), p) && proc.next == old(proc.next)
      ensures ok ==> proc.threads == old(proc.threads)
      decreases |list|, 2
    {
      hide ThreadLinks, ProcList, Without, Succ;
      if p < |procs| {
        WithoutItself(procs, p, idleProc);
      }
      ok := Dequeue(proc, p);
      if !ok {
        return false;
      }
      ThreadsFrom(proc, list, 0);
      ghost var ps := procs;
      var t := proc.threads;
      ghost var k := 0;
      while t != null
        invariant k < |list| || list == []
        invariant list == [] ==> t == null && proc.threads == old(proc.threads) && proc.next == old(proc.next)
        invariant list != [] ==> t == list[k] && ThreadLinks(proc, list[k..])
        invariant ProcLinks() && procs == ps && proc !in procs
        decreases |list| - k
      {
        var toReap := t;
        ThreadsFrom(proc, list[k..], 0);
        assert forall i :: 0 <= i < |list[k..]| ==> list[k..][i] in list;
        assert forall i :: 0 <= i < |procs| ==> procs[i] in old(procs);
        t := t.next;
        ok := ReapOne(toReap, proc, list[k..], 0, |procs|);
        if !ok {
          return false;
        }
        ListRest(list, k);
        k := k + 1;
        ThreadsFrom(proc, list[k..], 0);
      }
      return true;
    }

    static lemma ThreadsFrom(proc: Process, list: seq<Thread>, t: nat)
      requires list != [] ==> ThreadLinks(proc, list)
      ensures list != [] ==> proc.threads == list[0] && list[0].next == Succ(list, 0)
    {
    }

    static lemma ListRest(list: seq<Thread>, k: nat)
      requires k + 1 < |list|
      ensures Without(list[k..], 0) == list[k + 1..] && Succ(list[k..], 0) == list[k + 1]
    {
    }

    static lemma WithoutItself(ps: seq<Process>, p: nat, idle: Process)
      requires p < |ps| && ProcList(ps, idle)
      ensures ps[p] !in Without(ps, p) && forall q :: q in Without(ps, p) ==> q in ps
    {
    }

    /** `reap_thread` without the freeing of the stack: the thread leaves the list
        of its process; when that list is empty the process is reaped. */
    method ReapOne(thread: Thread, ghost proc: Process, ghost list: seq<Thread>, ghost t: nat, ghost p: nat)
      returns (ok: bool)
      requires t < |list| && Reapable(proc, list, p) && thread == list[t]
      modifies this`headProc, this`procs, procs`next, proc`threads, list`next
      ensures ok <==> |list| > 1 || p < |old(procs)|
      ensures ok ==> ProcLinks() && thread.next == old(thread.next) && proc.next == old(proc.next)
      ensures ok && |list| > 1 ==> procs == old(procs) && ThreadLinks(proc, Without(list, t))
      ensures ok && |list| == 1 ==> procs == Without(old(procs), p)
      decreases |list|, 1
    {
      hide ProcList, Without;
      ThreadsFrom(proc, list, t);
      UnlinkThread(thread, proc, list, t);
      var parent := thread.parent;
      if parent.threads == null {
        ok := ReapProcess(parent, p, []);
      } else {
        ok := true;
      }
    }

    static lemma DequeuedFirst(procs: seq<Process>, idle: Process)
      requires procs != [] && idle !in procs
      requires forall i :: 0 <= i < |procs| ==> procs[i].next == SuccProc(procs, i)
      requires forall i, j :: 0 <= i < j < |procs| ==> procs[i] != procs[j]
      ensures ProcList(Without(procs, 0), idle)
      ensures SuccProc(procs, 0) == if |procs| == 1 then null else Without(procs, 0)[0]
    {
      var rest := Without(procs, 0);
      assert rest == procs[1..];
      forall i | 0 <= i < |rest|
        ensures rest[i].next == SuccProc(rest, i)
      {
        assert rest[i] == procs[i + 1];
      }
    }

    static lemma DequeuedLater(procs: seq<Process>, idle: Process, p: nat)
      requires 0 < p < |procs| && idle !in procs
      requires forall i :: 0 <= i < |procs| ==> procs[i].next == if i == p - 1 then SuccProc(procs, p) else SuccProc(procs, i)
      requires forall i, j :: 0 <= i < j < |procs| ==> procs[i] != procs[j]
      ensures ProcList(Without(procs, p), idle) && Without(procs, p)[0] == procs[0]
    {
      var rest := Without(procs, p);
      forall i | 0 <= i < |rest|
        ensures rest[i].next == SuccProc(rest, i)
      {
        var k := if i < p then i else i + 1;
        assert rest[i] == procs[k];
      }
    }

    // ------------------------------------------------------------ the scheduler

    /** `reap_thread` as `schedule` calls it, for a queued thread: it completes,
        the thread leaves the list of its process, and the process leaves the
        queue when that list is empty. Contexts, statuses
        and the links of the reaped objects stay as they are. */
    method ReapThread(thread: Thread, ghost p: nat, ghost t: nat)
      requires Links() && p < |procs| && t < |lists[p]| && thread == lists[p][t]
      modifies this`headProc, this`procs, this`lists, procs, Queued()`next
      ensures Links()
      ensures lists == Reaped(old(lists), p, t)
      ensures procs == if |old(lists)[p]| == 1 then Without(old(procs), p) else old(procs)
      ensures thread.next == old(thread.next) && old(procs)[p].next == old(procs[p].next)
    {
      hide ThreadLinks, ProcList, Reaped, Without, ThreadsOf;
      ghost var ps, ls := procs, lists;
      Members();
      ReapedCases(ls, p, t);
      Distinct();
      var ok := ReapOne(thread, procs[p], lists[p], t, p);
      assert forall q :: 0 <= q < |ps| && q != p ==> ThreadLinks(ps[q], ls[q]);
      if |ls[p]| == 1 {
        lists := Without(lists, p);
        OthersLinked(ps, ls, p);
      } else {
        lists := lists[p := Without(lists[p], t)];
      }
    }

    static lemma OthersLinked(ps: seq<Process>, ls: seq<seq<Thread>>, p: nat)
      requires |ls| == |ps| && p < |ps|
      requires forall q :: 0 <= q < |ps| && q != p ==> ThreadLinks(ps[q], ls[q])
      ensures |Without(ls, p)| == |Without(ps, p)|
      ensures forall q :: 0 <= q < |Without(ps, p)| ==> ThreadLinks(Without(ps, p)[q], Without(ls, p)[q])
    {
      hide ThreadLinks;
      forall q | 0 <= q < |Without(ps, p)|
        ensures ThreadLinks(Without(ps, p)[q], Without(ls, p)[q])
      {
        assert ThreadLinks(ps[if q < p then q else q + 1], ls[if q < p then q else q + 1]);
      }
    }

    lemma Distinct()
      requires Links()
      ensures forall p, q :: 0 <= p < q < |procs| ==> procs[p] != procs[q]
      ensures forall p :: 0 <= p < |procs| ==> procs[p] != idleProc
    {
    }

    /** Every listed thread is a queued thread, and lists do not share. */
    lemma Members()
      requires Links()
      ensures forall p, t :: 0 <= p < |lists| && 0 <= t < |lists[p]| ==> lists[p][t] in Queued()
      ensures forall p, q :: 0 <= p < |lists| && 0 <= q < |lists| && p != q ==>
                forall t :: 0 <= t < |lists[p]| ==> lists[p][t] !in lists[q]
      ensures forall p :: 0 <= p < |lists| ==>
                forall t, u :: 0 <= t < u < |lists[p]| ==> lists[p][t] != lists[p][u]
      ensures idleThread !in Queued()
    {
      forall p, q, t | 0 <= p < |lists| && 0 <= q < |lists| && p != q && 0 <= t < |lists[p]|
        ensures lists[p][t] !in lists[q]
      {
        assert ThreadLinks(procs[p], lists[p]) && ThreadLinks(procs[q], lists[q]);
        assert lists[p][t].parent == procs[p];
      }
      forall p, t | 0 <= p < |lists| && 0 <= t < |lists[p]|
        ensures lists[p][t] != idleThread
      {
        assert ThreadLinks(procs[p], lists[p]);
        assert [idleThread][0].parent == idleProc;
      }
    }

    /** The context that must come back when t is resumed. */
    ghost function Due(t: Thread): Option<Context>
      reads this
    {
      if t == idleThread then BirthContext(history, t) else LastContext(history, t)
    }

    /** The exit system call, or the end of a thread's main function. The idle
        thread does neither. */
    method Exit()
      requires Valid() && cur.At?
      modifies currentThread`status
      ensures Valid() && currentThread.status == Dead
    {
      hide ThreadLinks, ProcList, ThreadsOf, LastContext, BirthContext;
      CurrentQueued();
      currentThread.status := Dead;
    }

    /** The first lines of `schedule`: the context is stored unless the idle
        thread is the one being left. */
    method SaveContext(context: Context)
      requires Valid()
      modifies this`history, currentThread`context
      ensures history == old(history) + [Left(currentThread, context)]
      ensures Saved() && Links() && CurrentAt() && Statuses()
    {
      hide ThreadsOf, ThreadLinks, ProcList;
      ghost var h := history;
      IdleFirst();
      if currentThread != idleProc.threads {
        currentThread.context := context;
      }
      history := history + [Left(currentThread, context)];
      forall t | t in Queued()
        ensures LastContext(history, t) == Some(t.context)
      {
        LastContextAppend(h, Left(currentThread, context), t);
      }
      LastContextAppend(h, Left(currentThread, context), idleThread);
    }

    lemma IdleFirst()
      requires Links()
      ensures idleProc.threads == idleThread && idleThread !in Queued()
    {
      Members();
    }

    /** Every queued thread holds the context recorded last for it. */
    ghost predicate Saved()
      reads this`lists, this`history, Queued()`context, idleThread`context
    {
      && (forall t :: t in Queued() ==> LastContext(history, t) == Some(t.context))
      && BirthContext(history, idleThread) == Some(idleThread.context)
    }

    ghost predicate AllReady()
      reads this`lists, Queued()`status, idleThread`status
    {
      idleThread.status == Ready && forall t :: t in Queued() ==> t.status == Ready
    }

    /** The middle of `schedule` when the current thread is dead. */
    method LeaveDead()
      requires Links() && CurrentAt() && Statuses() && currentThread.status == Dead
      modifies this`headProc, this`procs, this`lists, procs, Queued()`next
      ensures Links() && AllReady() && Queued() <= old(Queued()) && currentThread !in Queued()
      ensures WellFormed(old(View())) && cur.At? && lists == Reaped(old(lists), cur.p, cur.t)
      ensures procs == if |old(lists)[cur.p]| == 1 then Without(old(procs), cur.p) else old(procs)
      ensures currentProcess in procs <==> |old(lists)[cur.p]| > 1
      ensures currentThread.next == old(currentThread.next) && currentProcess.next == old(currentProcess.next)
    {
      hide Links, Reaped, Without;
      Members();
      Distinct();
      RingShape();
      ghost var ps, queued := procs, Queued();
      ReapedQueued(lists, cur.p, cur.t);
      CurrentQueued();
      ReapThread(currentThread, cur.p, cur.t);
      assert Queued() == queued - {currentThread};
      WithoutGone(ps, cur.p);
    }

    static lemma ReapedQueued(ls: seq<seq<Thread>>, p: nat, t: nat)
      requires p < |ls| && t < |ls[p]|
      requires forall i, j :: 0 <= i < j < |ls[p]| ==> ls[p][i] != ls[p][j]
      requires forall q, i :: 0 <= q < |ls| && q != p && 0 <= i < |ls[q]| ==> ls[q][i] != ls[p][t]
      ensures ThreadsOf(Reaped(ls, p, t)) == ThreadsOf(ls) - {ls[p][t]}
    {
      hide Reaped;
      ReapedMembers(ls, p, t);
      ReapedKeeps(ls, p, t);
    }

    /** The middle of `schedule` when it lives on. */
    method LeaveAlive()
      requires Links() && CurrentAt() && Statuses() && currentThread.status != Dead
      modifies currentThread`status
      ensures Links() && CurrentAt() && AllReady()
    {
      hide ThreadLinks, ProcList, ThreadsOf;
      CurrentQueued();
      currentThread.status := Ready;
    }

    static lemma WithoutGone(ps: seq<Process>, p: nat)
      requires p < |ps| && forall i, j :: 0 <= i < j < |ps| ==> ps[i] != ps[j]
      ensures ps[p] !in Without(ps, p)
    {
    }

    /** The ring of a linked scheduler is well formed. */
    lemma RingShape()
      requires Links() && CurrentAt()
      ensures WellFormed(View())
    {
    }
    /** `switch_process`: the link of the process being left is read even if
        that process has just been reaped. */
    method SwitchProcess()
      modifies this`currentProcess
      ensures currentProcess ==
        if headProc == null then idleProc
        else if old(currentProcess.next) == null then headProc
        else old(currentProcess.next)
    {
      if headProc != null {
        if currentProcess.next == null {
          currentProcess := headProc;
        } else {
          currentProcess := currentProcess.next;
        }
      } else {
        currentProcess := idleProc;
      }
    }

    /** What `schedule` still finds behind the pointers it has just left. */
    ghost predicate StaleLinks(ls: seq<seq<Thread>>, ps: seq<Process>)
      reads this`cur, this`currentThread, this`currentProcess, currentThread`next, currentProcess`next
    {
      && |ls| == |ps|
      && match cur
         case Idle => currentThread.next == null && currentProcess.next == null
         case At(p, t) =>
           && p < |ls| && t < |ls[p]|
           && currentThread.next == Succ(ls[p], t) && currentProcess == ps[p] && currentProcess.next == SuccProc(ps, p)
    }

    lemma LinksAreStale()
      requires Links() && CurrentAt()
      ensures StaleLinks(lists, procs)
    {
      if cur.At? {
        assert ThreadLinks(procs[cur.p], lists[cur.p]);
      } else {
        assert [idleThread][0].next == Succ([idleThread], 0);
      }
    }

    /** The last part of `schedule`, when the thread left is still queued. */
    method Advance()
      requires Links() && CurrentAt() && StaleLinks(lists, procs) && WellFormed(View()) && AllReady() && Saved()
      modifies this`currentThread, this`currentProcess, this`cur
      ensures Links() && CurrentAt() && AllReady() && Saved() && View() == Tick(old(View()))
    {
      hide ThreadLinks, ProcList;
      ghost var queued := Queued();
      ghost var next := Tick(View()).cur;
      if currentThread.next != null {
        currentThread := currentThread.next;
      } else {
        SwitchProcess();
        HeadThread(currentProcess);
        currentThread := currentProcess.threads;
      }
      cur := next;
      assert Queued() == queued;
    }

    /** The same when it was reaped from the lists ls and ps. */
    method AdvanceDead(ghost ls: seq<seq<Thread>>, ghost ps: seq<Process>)
      requires Links() && StaleLinks(ls, ps) && cur.At? && WellFormed(Ring(ls, cur)) && AllReady() && Saved()
      requires lists == Reaped(ls, cur.p, cur.t)
      requires procs == if |ls[cur.p]| == 1 then Without(ps, cur.p) else ps
      modifies this`currentThread, this`currentProcess, this`cur
      ensures Links() && CurrentAt() && AllReady() && Saved() && View() == Die(Ring(ls, old(cur)))
    {
      hide ThreadLinks, ProcList, Die, Reaped, Without, Succ, SuccProc;
      ghost var queued := Queued();
      ghost var next := Die(Ring(ls, cur)).cur;
      DeadNext(ls, ps, cur.p, cur.t);
      if currentThread.next != null {
        currentThread := currentThread.next;
      } else {
        SwitchProcess();
        HeadThread(currentProcess);
        currentThread := currentProcess.threads;
      }
      cur := next;
      assert Queued() == queued;
    }

    /** Where the cursor of Die points, in terms of the links left behind. */
    static lemma DeadNext(ls: seq<seq<Thread>>, ps: seq<Process>, p: nat, t: nat)
      requires |ls| == |ps| && WellFormed(Ring(ls, At(p, t)))
      ensures var r := Die(Ring(ls, At(p, t)));
        var ps' := if |ls[p]| == 1 then Without(ps, p) else ps;
        && r.queue == Reaped(ls, p, t) && |ps'| == |r.queue|
        && (Succ(ls[p], t) != null ==>
              r.cur == At(p, t) && ps' == ps && t < |r.queue[p]| && r.queue[p][t] == Succ(ls[p], t))
        && (Succ(ls[p], t) == null && ps' == [] ==> r.cur == Idle)
        && (Succ(ls[p], t) == null && ps' != [] ==>
              && r.cur.At? && r.cur.t == 0 && r.cur.p < |ps'|
              && ps'[r.cur.p] == if SuccProc(ps, p) == null then ps'[0] else SuccProc(ps, p))
    {
      ReapedCases(ls, p, t);
    }

    /** Every process `switch_process` can select has a first thread. */
    lemma HeadThread(proc: Process)
      requires Links() && (proc == idleProc || proc in procs)
      ensures proc == idleProc ==> proc.threads == idleThread
      ensures forall p :: 0 <= p < |procs| && procs[p] == proc ==> lists[p] != [] && proc.threads == lists[p][0]
      ensures proc.threads != null
    {
      forall p | 0 <= p < |procs| && procs[p] == proc
        ensures lists[p] != [] && proc.threads == lists[p][0]
      {
        assert ThreadLinks(procs[p], lists[p]);
      }
    }

    /** `schedule`: on the ring of queued threads it is Tick for a live thread
        and Die for a dead one, and it returns the context that is due. */
    method Schedule(context: Context) returns (resumed: Context)
      requires Valid()
      modifies this, procs, Queued(), idleThread
      ensures Valid() && currentThread.status == Running
      ensures WellFormed(old(View()))
      ensures if old(currentThread.status) == Dead
              then old(cur).At? && View() == Die(old(View())) && old(currentThread) !in Queued()
                   && (old(currentProcess) in procs <==> |old(lists)[old(cur).p]| > 1)
              else View() == Tick(old(View()))
      ensures history == old(history) + [Left(old(currentThread), context)]
      ensures Due(currentThread) == Some(resumed)
    {
      hide Links, Tick, Die, LastContext, BirthContext;
      CurrentQueued();
      SaveContext(context);
      MoveOn();
      CurrentQueued();
      resumed := Dispatch();
    }

    /** `schedule` between saving the context and resuming the next thread. */
    method MoveOn()
      requires Links() && CurrentAt() && Statuses() && Saved()
      modifies this`headProc, this`procs, this`lists, this`cur, this`currentThread, this`currentProcess
      modifies procs, Queued()`next, currentThread`status
      ensures Links() && CurrentAt() && AllReady() && Saved() && Queued() <= old(Queued())
      ensures WellFormed(old(View()))
      ensures if old(currentThread.status) == Dead
              then old(cur).At? && View() == Die(old(View())) && old(currentThread) !in Queued()
                   && (old(currentProcess) in procs <==> |old(lists)[old(cur).p]| > 1)
              else View() == Tick(old(View()))
    {
      hide Links, Tick, Die, Reaped, Without, Succ, SuccProc, LastContext, BirthContext;
      CurrentQueued();
      ghost var ls, ps, queued := lists, procs, Queued();
      LinksAreStale();
      RingShape();
      if currentThread.status == Dead {
        LeaveDead();
        assert forall t :: t in Queued() ==> t in queued;
        AdvanceDead(ls, ps);
      } else {
        LeaveAlive();
        Advance();
      }
    }

    /** The end of `schedule`: the new current thread is marked running. */
    method Dispatch() returns (resumed: Context)
      requires Links() && CurrentAt() && AllReady() && Saved()
      modifies currentThread`status
      ensures Valid() && currentThread.status == Running && Due(currentThread) == Some(resumed)
    {
      hide ThreadLinks, ProcList, ThreadsOf;
      CurrentQueued();
      if currentThread.status == Ready {
        currentThread.status := Running;
      }
      resumed := currentThread.context;
    }

    lemma CurrentQueued()
      requires Links() && CurrentAt()
      ensures if cur == Idle then currentThread == idleThread else currentThread in Queued()
      ensures idleThread !in Queued()
    {
      Members();
    }

    /** The list part of `create_thread`. */
    method AddThread(ghost p: nat, proc: Process, thread: Thread)
      requires Links() && CurrentAt() && p < |procs| && proc == procs[p]
      requires thread !in Queued() && thread != idleThread && thread.parent == proc && thread.next == null
      modifies this`lists, proc`threads, Queued()`next
      ensures Links() && CurrentAt() && lists == old(lists)[p := old(lists)[p] + [thread]]
      ensures Queued() == old(Queued()) + {thread}
    {
      hide ThreadLinks, ProcList, ThreadsOf;
      Members();
      Distinct();
      RingShape();
      ghost var ls := lists;
      assert forall t :: 0 <= t < |ls[p]| ==> ls[p][t] in Queued();
      AppendThread(proc, thread, lists[p]);
      assert forall q :: 0 <= q < |procs| && q != p ==> ThreadLinks(procs[q], ls[q]);
      lists := lists[p := lists[p] + [thread]];
      AppendedMembers(ls, p, thread);
    }

    /** `create_thread`, for a process with the given threads, queued or not. */
    static method CreateThread(proc: Process, context: Context, ghost list: seq<Thread>) returns (thread: Thread)
      requires if list == [] then proc.threads == null else ThreadLinks(proc, list)
      modifies proc`threads, list`next
      ensures fresh(thread) && thread.status == Ready && thread.context == context
      ensures ThreadLinks(proc, list + [thread])
    {
      hide ThreadLinks;
      thread := new Thread(proc, context);
      AppendThread(proc, thread, list);
    }

    /** The same within the queue: a thread added to a queued process. */
    method CreateQueuedThread(ghost p: nat, proc: Process, context: Context) returns (thread: Thread)
      requires Valid() && p < |procs| && proc == procs[p]
      modifies this`lists, this`history, proc`threads, Queued()`next
      ensures Valid() && fresh(thread) && lists == old(lists)[p := old(lists)[p] + [thread]]
      ensures history == old(history) + [Born(thread, context)]
    {
      hide Links, CurrentAt, LastContext, BirthContext;
      CurrentQueued();
      ghost var queued := Queued();
      thread := new Thread(proc, context);
      AddThread(p, proc, thread);
      RecordBirth(thread, queued);
    }

    /** The end of `create_proc`: a process with one thread enters the queue. */
    method AddProc(proc: Process, thread: Thread)
      requires Links() && CurrentAt() && proc !in procs && proc != idleProc && ThreadLinks(proc, [thread])
      requires thread !in Queued() && thread != idleThread
      modifies this`headProc, this`procs, this`lists, this`cur, proc`next
      ensures Links() && CurrentAt() && procs == [proc] + old(procs)
      ensures lists == [[thread]] + old(lists) && View() == Spawn(old(View()), thread)
      ensures Queued() == old(Queued()) + {thread}
    {
      hide ThreadLinks, ProcList, ThreadsOf;
      ghost var ls, ps := lists, procs;
      assert forall i :: 0 <= i < |ps| ==> ThreadLinks(ps[i], ls[i]);
      Enqueue(proc);
      lists := [[thread]] + lists;
      cur := Spawn(Ring(ls, cur), thread).cur;
      PrependLinked(ps, ls, proc, thread);
      PrependedMembers(ls, thread);
    }

    static lemma PrependLinked(ps: seq<Process>, ls: seq<seq<Thread>>, proc: Process, thread: Thread)
      requires |ps| == |ls| && ThreadLinks(proc, [thread])
      requires forall i :: 0 <= i < |ps| ==> ThreadLinks(ps[i], ls[i])
      ensures forall i :: 0 <= i <= |ps| ==> ThreadLinks(([proc] + ps)[i], ([[thread]] + ls)[i])
    {
      hide ThreadLinks;
    }

    /** `create_proc`: a process with one thread, in front of the queue if asked
        for; otherwise nothing that is queued changes. */
    method CreateProc(context: Context, addToQueue: bool) returns (proc: Process)
      requires Valid()
      modifies this`headProc, this`procs, this`lists, this`cur, this`history
      ensures Valid() && fresh(proc) && proc.threads != null && fresh(proc.threads)
      ensures ThreadLinks(proc, [proc.threads]) && proc.threads.status == Ready && proc.threads.context == context
      ensures addToQueue ==> procs == [proc] + old(procs) && View() == Spawn(old(View()), proc.threads)
      ensures addToQueue ==> history == old(history) + [Born(proc.threads, context)]
      ensures !addToQueue ==> procs == old(procs) && View() == old(View()) && history == old(history) && proc.next == null
    {
      hide Links, CurrentAt, Spawn, LastContext, BirthContext;
      CurrentQueued();
      ghost var queued := Queued();
      proc := new Process();
      var thread := CreateThread(proc, context, []);
      assert [] + [thread] == [thread];
      if addToQueue {
        AddProc(proc, thread);
        RecordBirth(thread, queued);
      }
    }

    /** The new thread enters the history; the others are as they were. */
    method RecordBirth(thread: Thread, ghost others: set<Thread>)
      requires Links() && CurrentAt() && Queued() == others + {thread}
      requires thread.status == Ready && thread != idleThread && thread != currentThread && thread !in others
      requires forall t :: t in others && t != currentThread ==> t.status == Ready
      requires forall t :: t in others && t != currentThread ==> LastContext(history, t) == Some(t.context)
      requires idleThread.status != Dead && (currentThread != idleThread ==> idleThread.status == Ready)
      requires BirthContext(history, idleThread) == Some(idleThread.context)
      modifies this`history
      ensures Valid() && history == old(history) + [Born(thread, thread.context)]
    {
      hide Links, CurrentAt, ThreadsOf, LastContext, BirthContext;
      ghost var h := history;
      history := history + [Born(thread, thread.context)];
      BornContexts(h, thread, thread.context);
    }

    /** The last lines of `create_proc`. */
    method Enqueue(proc: Process)
      requires ProcLinks() && proc !in procs && proc != idleProc
      modifies this`headProc, this`procs, proc`next
      ensures ProcLinks() && procs == [proc] + old(procs)
    {
      if headProc == null {
        proc.next := null;
      } else {
        proc.next := headProc;
      }
      headProc := proc;
      ghost var ps := procs;
      procs := [proc] + procs;
      forall i | 0 <= i < |procs|
        ensures procs[i].next == SuccProc(procs, i)
      {
        if i > 0 {
          assert procs[i] == ps[i - 1];
        }
      }
    }

    static lemma PrependedMembers(ls: seq<seq<Thread>>, thread: Thread)
      ensures ThreadsOf([[thread]] + ls) == ThreadsOf(ls) + {thread}
    {
      var ms := [[thread]] + ls;
      forall p, t | 0 <= p < |ls| && 0 <= t < |ls[p]|
        ensures ls[p][t] in ThreadsOf(ms)
      {
        assert ms[p + 1][t] == ls[p][t];
      }
      assert ms[0][0] == thread;
      forall p, t | 0 <= p < |ms| && 0 <= t < |ms[p]|
        ensures ms[p][t] in ThreadsOf(ls) + {thread}
      {
        if p > 0 {
          assert ls[p - 1][t] == ms[p][t];
        }
      }
    }

    lemma BornContexts(h: seq<Record>, thread: Thread, context: Context)
      requires history == h + [Born(thread, context)]
      ensures LastContext(history, thread) == Some(context)
      ensures forall t: Thread :: t != thread ==> LastContext(history, t) == LastContext(h, t)
                                                  && BirthContext(history, t) == BirthContext(h, t)
    {
      forall t: Thread
        ensures LastContext(history, t) == if t == thread then Some(context) else LastContext(h, t)
        ensures t != thread ==> BirthContext(history, t) == BirthContext(h, t)
      {
        LastContextAppend(h, Born(thread, context), t);
      }
    }

    static lemma AppendedMembers(ls: seq<seq<Thread>>, p: nat, thread: Thread)
      requires p < |ls|
      ensures ThreadsOf(ls[p := ls[p] + [thread]]) == ThreadsOf(ls) + {thread}
    {
      var ms := ls[p := ls[p] + [thread]];
      forall q, t | 0 <= q < |ls| && 0 <= t < |ls[q]|
        ensures ls[q][t] in ThreadsOf(ms)
      {
        assert ms[q][t] == ls[q][t];
      }
      assert ms[p][|ls[p]|] == thread;
      forall q, t | 0 <= q < |ms| && 0 <= t < |ms[q]|
        ensures ms[q][t] in ThreadsOf(ls) + {thread}
      {
        if t < |ls[q]| {
          assert ls[q][t] == ms[q][t];
        }
      }
    }
  }
}
