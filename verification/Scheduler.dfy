/**
 The scheduler: one run queue for each CPU, ordered by run time and then by process
 id.  Each call is one atomic step.
 */
module Scheduler {
  import opened Sequences

  const NCPU := 4
  const SLICE_LEN := 1

  datatype ProcState = UNUSED | RUNNABLE | RUNNING | SLEEPING | DEEPSLEEPING | ZOMBIE

  /** A process: the idle process of a CPU, or an ordinary one named by its pid. */
  datatype Proc = Idle(cpu: nat) | User(pid: nat)

  // ----- run queues: the in-order contents of the trees -----

  /** The order of the run queue. */
  predicate Before(rt: map<Proc, nat>, p: nat, q: nat)
    requires User(p) in rt && User(q) in rt
  {
    rt[User(p)] < rt[User(q)] || (rt[User(p)] == rt[User(q)] && p < q)
  }

  ghost predicate Known(rt: map<Proc, nat>, q: seq<nat>) {
    forall p :: p in q ==> User(p) in rt
  }

  ghost predicate Sorted(rt: map<Proc, nat>, q: seq<nat>)
    requires Known(rt, q)
  {
    forall i, j :: 0 <= i < j < |q| ==> Before(rt, q[i], q[j])
  }

  function Enqueue(rt: map<Proc, nat>, q: seq<nat>, p: nat): seq<nat>
    requires Known(rt, q) && User(p) in rt
  {
    if q == [] then [p]
    else if Before(rt, p, q[0]) then [p] + q
    else [q[0]] + Enqueue(rt, q[1..], p)
  }

  lemma {:induction false} EnqueueMembers(rt: map<Proc, nat>, q: seq<nat>, p: nat)
    requires Known(rt, q) && User(p) in rt
    ensures Known(rt, Enqueue(rt, q, p)) && forall x :: x in Enqueue(rt, q, p) <==> x in q || x == p
  {
    if q != [] && !Before(rt, p, q[0]) {
      EnqueueMembers(rt, q[1..], p);
      assert forall x :: x in q <==> x == q[0] || x in q[1..];
    }
  }

  lemma {:induction false} EnqueueSorted(rt: map<Proc, nat>, q: seq<nat>, p: nat)
    requires Known(rt, q) && User(p) in rt && Sorted(rt, q) && p !in q
    ensures Known(rt, Enqueue(rt, q, p)) && Sorted(rt, Enqueue(rt, q, p))
  {
    EnqueueMembers(rt, q, p);
    if q != [] && !Before(rt, p, q[0]) {
      EnqueueMembers(rt, q[1..], p);
      EnqueueSorted(rt, q[1..], p);
      var t := Enqueue(rt, q[1..], p);
      forall j | 0 <= j < |t| ensures Before(rt, q[0], t[j]) {
        assert t[j] in t;
        if t[j] != p {
          var i :| 0 <= i < |q[1..]| && q[1..][i] == t[j];
          assert Before(rt, q[0], q[i + 1]);
        }
      }
    }
  }

  // ----- one step of one CPU, seen from outside -----

  /** The processes that take turns on a CPU, with their run times, and the one that runs. */
  datatype Turn = Turn(runtime: map<nat, nat>, running: nat)

  /** A timer tick: the running process has used its slice, and the least key runs next. */
  ghost predicate TickStep(c: Turn, c': Turn) {
    && c.running in c.runtime && c'.running in c'.runtime
    && c'.runtime == c.runtime[c.running := c.runtime[c.running] + SLICE_LEN]
    && forall q :: q in c'.runtime ==> LeastKey(c', q)
  }

  ghost predicate LeastKey(c: Turn, q: nat)
    requires c.running in c.runtime && q in c.runtime
  {
    c.runtime[c.running] < c.runtime[q] || (c.runtime[c.running] == c.runtime[q] && c.running <= q)
  }

  /** All run times are v or v + 1, and the running process is at v. */
  ghost predicate Even(c: Turn, v: nat) {
    && c.running in c.runtime && c.runtime[c.running] == v
    && forall q :: q in c.runtime ==> c.runtime[q] == v || c.runtime[q] == v + 1
  }

  ghost predicate FirstOf(c: Turn, v: nat) {
    forall q :: q in c.runtime && c.runtime[q] == v ==> c.running <= q
  }

  /** After a tick the run times are still within one slice of each other. */
  lemma {:induction false} TickEven(c: Turn, c': Turn, v: nat) returns (w: nat)
    requires Even(c, v) && TickStep(c, c')
    ensures Even(c', w) && FirstOf(c', w) && v <= w <= v + 1
    ensures w == v <==> exists q :: q in c.runtime && q != c.running && c.runtime[q] == v
    ensures c'.runtime.Keys == c.runtime.Keys
  {
    w := c'.runtime[c'.running];
    assert forall q :: q in c'.runtime ==> LeastKey(c', q);
    assert c'.runtime[c.running] == v + 1;
    assert LeastKey(c', c.running);
    if q :| q in c.runtime && q != c.running && c.runtime[q] == v {
      assert LeastKey(c', q);
    }
  }

  /** The processes still to run in this round, and those with a smaller pid. */
  ghost function Round(c: Turn, v: nat): set<nat> {
    set q | q in c.runtime && c.runtime[q] == v
  }

  ghost function Smaller(c: Turn, p: nat): set<nat> {
    set q | q in c.runtime && q < p
  }

  /** How many ticks pass before p runs. */
  ghost function Wait(c: Turn, v: nat, p: nat): nat
    requires p in c.runtime
  {
    if c.runtime[p] == v then |Round(c, v) * Smaller(c, p)| else |Round(c, v)| + |Smaller(c, p)|
  }

  lemma {:induction false} WaitStep(c: Turn, c': Turn, v: nat, p: nat) returns (w: nat)
    requires Even(c, v) && FirstOf(c, v) && TickStep(c, c') && p in c.runtime && p != c.running
    ensures Even(c', w) && FirstOf(c', w) && p in c'.runtime && Wait(c, v, p) == Wait(c', w, p) + 1
    ensures c'.runtime.Keys == c.runtime.Keys
  {
    w := TickEven(c, c', v);
    assert Smaller(c', p) == Smaller(c, p);
    var r := c.running;
    assert r in Round(c, v);
    if c.runtime[p] == v {
      assert Round(c', v) * Smaller(c', p) == Round(c, v) * Smaller(c, p) - {r};
      assert r in Round(c, v) * Smaller(c, p);
    } else if w == v {
      assert Round(c', v) == Round(c, v) - {r};
    } else {
      assert Round(c, v) == {r};
      assert Round(c', w) * Smaller(c', p) == Smaller(c', p);
    }
  }

  lemma {:induction false} WaitOver(c: Turn, v: nat, p: nat)
    requires Even(c, v) && FirstOf(c, v) && p in c.runtime && Wait(c, v, p) == 0
    ensures c.running == p
  {
    assert c.running in Round(c, v);
    assert c.running < p ==> c.running in Round(c, v) * Smaller(c, p);
  }

  /** A process waits for fewer than twice as many ticks as there are processes. */
  lemma {:induction false} WaitBound(c: Turn, v: nat, p: nat)
    requires Even(c, v) && p in c.runtime
    ensures Wait(c, v, p) <= 2 * |c.runtime.Keys| - 2
  {
    var all := c.runtime.Keys;
    SubsetSize(Smaller(c, p), all - {p});
    if c.runtime[p] == v {
      SubsetSize(Round(c, v) * Smaller(c, p), Smaller(c, p));
    } else {
      SubsetSize(Round(c, v), all - {p});
    }
  }

  /** A run of one CPU: ticks only. */
  ghost predicate Ticks(run: seq<Turn>) {
    forall i :: 0 <= i < |run| - 1 ==> TickStep(run[i], run[i + 1])
  }

  lemma {:induction false} RunsAfterWait(run: seq<Turn>, v: nat, p: nat)
    requires Ticks(run) && |run| > 0 && Even(run[0], v) && FirstOf(run[0], v) && p in run[0].runtime
    requires Wait(run[0], v, p) < |run|
    ensures run[Wait(run[0], v, p)].running == p
    decreases |run|
  {
    if Wait(run[0], v, p) == 0 {
      WaitOver(run[0], v, p);
    } else if run[0].running == p {
      RunningWaitsNot(run[0], v, p);
    } else {
      assert TickStep(run[0], run[1]);
      var w := WaitStep(run[0], run[1], v, p);
      var rest := run[1..];
      forall i | 0 <= i < |rest| - 1 ensures TickStep(rest[i], rest[i + 1]) {
        assert TickStep(run[i + 1], run[i + 2]);
      }
      RunsAfterWait(rest, w, p);
    }
  }

  lemma {:induction false} RunningWaitsNot(c: Turn, v: nat, p: nat)
    requires Even(c, v) && FirstOf(c, v) && c.running == p
    ensures p in c.runtime && Wait(c, v, p) == 0
  {
    assert Round(c, v) * Smaller(c, p) == {};
  }

  /** In every run of ticks the run times stay within one slice of each other. */
  lemma {:induction false} RuntimesStayEven(run: seq<Turn>, v: nat, i: nat) returns (w: nat)
    requires Ticks(run) && i < |run| && Even(run[0], v)
    ensures Even(run[i], w) && (i > 0 ==> FirstOf(run[i], w)) && run[i].runtime.Keys == run[0].runtime.Keys
  {
    if i == 0 {
      w := v;
    } else {
      var u := RuntimesStayEven(run, v, i - 1);
      assert TickStep(run[i - 1], run[i]);
      w := TickEven(run[i - 1], run[i], u);
    }
  }

  /**
   Fairness.  From any moment of a run that started with equal run times, every
   process runs again within 2N ticks, N being the number of processes.
   */
  lemma {:induction false} Fair(run: seq<Turn>, v: nat, i: nat, p: nat) returns (k: nat)
    requires Ticks(run) && |run| > 0 && run[0].running in run[0].runtime && p in run[0].runtime
    requires forall q :: q in run[0].runtime ==> run[0].runtime[q] == v
    requires i + 2 * |run[0].runtime.Keys| < |run|
    ensures i < k <= i + 2 * |run[0].runtime.Keys| && run[k].running == p
  {
    var w := RuntimesStayEven(run, v, i + 1);
    WaitBound(run[i + 1], w, p);
    var rest := run[i + 1..];
    forall j | 0 <= j < |rest| - 1 ensures TickStep(rest[j], rest[j + 1]) {
      assert TickStep(run[i + 1 + j], run[i + 1 + j + 1]);
    }
    RunsAfterWait(rest, w, p);
    k := i + 1 + Wait(run[i + 1], w, p);
  }

  // ----- the scheduler's state -----

  lemma {:induction false} SortedTail(rt: map<Proc, nat>, q: seq<nat>)
    requires Known(rt, q) && Sorted(rt, q) && q != []
    ensures Known(rt, q[1..]) && Sorted(rt, q[1..]) && forall x :: x in q[1..] <==> x in q && x != q[0]
  {
    forall x | x in q && x != q[0] ensures x in q[1..] {
      var i :| 0 <= i < |q| && q[i] == x;
      assert q[1..][i - 1] == x;
    }
    assert forall i :: 0 < i < |q| ==> Before(rt, q[0], q[i]);
  }

  lemma {:induction false} HeadIsLeast(rt: map<Proc, nat>, q: seq<nat>, x: nat)
    requires Known(rt, q) && Sorted(rt, q) && x in q
    ensures x == q[0] || Before(rt, q[0], x)
  {
    var i :| 0 <= i < |q| && q[i] == x;
  }

  /** The CPU that a process runs on. */
  function CpuOf(p: Proc): nat {
    match p
    case Idle(c) => c
    case User(pid) => pid % NCPU
  }

  ghost predicate QueueOk(state: map<Proc, ProcState>, rt: map<Proc, nat>, q: seq<nat>, c: nat) {
    && Known(rt, q) && Sorted(rt, q)
    && forall p: nat :: p in q <==> User(p) in state && state[User(p)] == RUNNABLE && p % NCPU == c
  }

  /** The state of the scheduler. */
  datatype Snap = Snap(state: map<Proc, ProcState>, runtime: map<Proc, nat>, running: seq<Proc>, rq: seq<seq<nat>>)

  ghost predicate Shape(s: Snap) {
    && |s.running| == NCPU && |s.rq| == NCPU && s.state.Keys == s.runtime.Keys
    && (forall p :: p in s.state ==> CpuOf(p) < NCPU)
    && forall c :: 0 <= c < NCPU ==> Idle(c) in s.state
  }

  /** Exactly one process runs on each CPU. */
  ghost predicate RunningOk(s: Snap)
    requires Shape(s)
  {
    && (forall c :: 0 <= c < NCPU ==> s.running[c] in s.state && CpuOf(s.running[c]) == c)
    && forall p :: p in s.state ==> (s.state[p] == RUNNING <==> s.running[CpuOf(p)] == p)
  }

  /** An idle process is always ready to run. */
  ghost predicate IdleOk(s: Snap)
    requires Shape(s)
  {
    forall c :: 0 <= c < NCPU ==> s.state[Idle(c)] == RUNNABLE || s.state[Idle(c)] == RUNNING
  }

  /** The run queues hold exactly the ordinary runnable processes, each on the CPU of its pid, in order. */
  ghost predicate QueuesOk(s: Snap)
    requires Shape(s)
  {
    forall c :: 0 <= c < NCPU ==> QueueOk(s.state, s.runtime, s.rq[c], c)
  }

  ghost predicate Ok(s: Snap) {
    Shape(s) && RunningOk(s) && IdleOk(s) && QueuesOk(s)
  }

  /** The running process of CPU c moves to state st: its queue then, and who runs next. */
  ghost function QueueThen(s: Snap, c: nat, st: ProcState): seq<nat>
    requires c < |s.running| && c < |s.rq|
  {
    var p := s.running[c];
    if st == RUNNABLE && p.User? && p in s.runtime && Known(s.runtime, s.rq[c]) then Enqueue(s.runtime, s.rq[c], p.pid) else s.rq[c]
  }

  ghost function NextOf(q: seq<nat>, c: nat): Proc {
    if q != [] then User(q[0]) else Idle(c)
  }

  ghost function Switched(s: Snap, c: nat, st: ProcState): Snap
    requires c < |s.running| && c < |s.rq|
  {
    var q := QueueThen(s, c, st);
    var next := NextOf(q, c);
    s.(state := s.state[s.running[c] := st][next := RUNNING], running := s.running[c := next],
       rq := s.rq[c := if q == [] then q else Without(q, q[0])])
  }

  lemma {:induction false} QueueOf(s: Snap, c: nat)
    requires Ok(s) && c < NCPU
    ensures |s.running| == NCPU && |s.rq| == NCPU && s.state.Keys == s.runtime.Keys
    ensures QueueOk(s.state, s.runtime, s.rq[c], c) && s.running[c] in s.state && CpuOf(s.running[c]) == c
    ensures s.state[s.running[c]] == RUNNING && s.running[c] in s.runtime && Known(s.runtime, s.rq[c])
  {
  }

  lemma {:induction false} QueueThenOk(s: Snap, c: nat, st: ProcState)
    requires Ok(s) && c < NCPU && st != RUNNING
    ensures QueueOk(s.state[s.running[c] := st], s.runtime, QueueThen(s, c, st), c)
  {
    QueueOf(s, c);
    hide Ok, QueueOk, Enqueue;
    var p := s.running[c];
    if st == RUNNABLE && p.User? {
      Queued(s.state, s.runtime, s.rq[c], p.pid, c);
    } else {
      Unqueued(s.state, s.runtime, s.rq[c], p, st, c);
    }
  }

  lemma {:induction false} SwitchedQueue(s: Snap, c: nat, st: ProcState)
    requires Ok(s) && c < NCPU && st != RUNNING && (s.running[c].Idle? ==> st == RUNNABLE)
    ensures var s' := Switched(s, c, st); QueueOk(s'.state, s'.runtime, s'.rq[c], c)
    ensures var next := NextOf(QueueThen(s, c, st), c);
            next in s.state && CpuOf(next) == c && s.state[s.running[c] := st][next] == RUNNABLE
  {
    QueueThenOk(s, c, st);
    QueueOf(s, c);
    assert Idle(c) in s.state && (s.state[Idle(c)] == RUNNABLE || s.running[c] == Idle(c));
    hide Ok, QueueOk, Enqueue, QueueThen, Without;
    var q, state1 := QueueThen(s, c, st), s.state[s.running[c] := st];
    if q != [] {
      Dequeued(state1, s.runtime, q, c);
    } else {
      Unqueued(state1, s.runtime, q, Idle(c), RUNNING, c);
    }
  }

  lemma {:induction false} SwitchedOthers(s: Snap, c: nat, st: ProcState, d: nat)
    requires Ok(s) && c < NCPU && d < NCPU && d != c && st != RUNNING && (s.running[c].Idle? ==> st == RUNNABLE)
    ensures var s' := Switched(s, c, st); QueueOk(s'.state, s'.runtime, s'.rq[d], d)
  {
    SwitchedQueue(s, c, st);
    QueueOf(s, c);
    QueueOf(s, d);
    hide Ok, QueueOk, Enqueue, QueueThen, Without;
    Unqueued(s.state, s.runtime, s.rq[d], s.running[c], st, d);
    Unqueued(s.state[s.running[c] := st], s.runtime, s.rq[d], NextOf(QueueThen(s, c, st), c), RUNNING, d);
  }

  lemma {:induction false} SwitchedShape(s: Snap, c: nat, st: ProcState)
    requires Ok(s) && c < NCPU && NextOf(QueueThen(s, c, st), c) in s.state
    ensures Shape(Switched(s, c, st))
  {
    hide QueuesOk, QueueThen, NextOf, CpuOf, Without;
    assert s.running[c] in s.state;
  }

  lemma {:induction false} SwitchedRunning(s: Snap, c: nat, st: ProcState)
    requires Ok(s) && c < NCPU && st != RUNNING && (s.running[c].Idle? ==> st == RUNNABLE)
    requires var next := NextOf(QueueThen(s, c, st), c);
             next in s.state && CpuOf(next) == c && s.state[s.running[c] := st][next] == RUNNABLE
    requires Shape(Switched(s, c, st))
    ensures RunningOk(Switched(s, c, st))
  {
    hide QueuesOk, QueueThen, NextOf, CpuOf, Without;
    var s', next := Switched(s, c, st), NextOf(QueueThen(s, c, st), c);
    forall p | p in s'.state ensures s'.state[p] == RUNNING <==> s'.running[CpuOf(p)] == p {
      if p != next && p != s.running[c] {
        assert s.state[p] == RUNNING <==> s.running[CpuOf(p)] == p;
      }
    }
  }

  /** Scheduling keeps every invariant; the assertion that the next process is runnable never fails. */
  lemma {:induction false} SwitchOk(s: Snap, c: nat, st: ProcState)
    requires Ok(s) && c < NCPU && st != RUNNING && (s.running[c].Idle? ==> st == RUNNABLE)
    ensures Ok(Switched(s, c, st))
  {
    SwitchedQueue(s, c, st);
    SwitchedShape(s, c, st);
    SwitchedRunning(s, c, st);
    var s' := Switched(s, c, st);
    assert IdleOk(s') by {
      hide QueuesOk, QueueThen, Without;
    }
    hide QueueOk, Switched, RunningOk, IdleOk;
    forall d | 0 <= d < NCPU ensures QueueOk(s'.state, s'.runtime, s'.rq[d], d) {
      if d != c {
        SwitchedOthers(s, c, st, d);
      }
    }
  }

  /** Process p becomes runnable. */
  ghost function Woken(s: Snap, p: Proc): Snap
    requires CpuOf(p) < |s.rq|
  {
    var c := CpuOf(p);
    s.(state := s.state[p := RUNNABLE],
       rq := if p.User? && p in s.runtime && Known(s.runtime, s.rq[c]) then s.rq[c := Enqueue(s.runtime, s.rq[c], p.pid)] else s.rq)
  }

  lemma {:induction false} WakeOk(s: Snap, p: Proc)
    requires Ok(s) && p in s.state && s.state[p] != RUNNING && s.state[p] != RUNNABLE
    ensures CpuOf(p) < NCPU && |s.rq| == NCPU && Ok(Woken(s, p))
  {
    var c := CpuOf(p);
    QueueOf(s, c);
    assert p.User?;
    var s' := Woken(s, p);
    assert Shape(s') && IdleOk(s') && RunningOk(s') by {
      hide QueuesOk, QueueOk, Enqueue;
    }
    hide Shape, IdleOk, RunningOk, QueueOk, Enqueue;
    forall d | 0 <= d < NCPU ensures QueueOk(s'.state, s'.runtime, s'.rq[d], d) {
      QueueOf(s, d);
      if d == c {
        Queued(s.state, s.runtime, s.rq[c], p.pid, c);
      } else {
        Unqueued(s.state, s.runtime, s.rq[d], p, RUNNABLE, d);
      }
    }
  }

  /** Who runs next: an ordinary process that is ready, with the least key of all that are. */
  lemma {:induction false} SwitchPicksLeast(s: Snap, c: nat, st: ProcState, p: nat)
    requires Ok(s) && c < NCPU && st != RUNNING
    requires User(p) in s.state && p % NCPU == c && s.state[s.running[c] := st][User(p)] == RUNNABLE
    ensures var next := NextOf(QueueThen(s, c, st), c); next.User? && Leads(s.runtime, next.pid, p)
  {
    QueueThenOk(s, c, st);
    QueueOf(s, c);
    hide Ok, QueueOk, QueueThen, Leads;
    FirstLeads(s.state[s.running[c] := st], s.runtime, QueueThen(s, c, st), c, p);
  }

  /** Process p takes turns on CPU c. */
  ghost predicate InTurn(s: Snap, c: nat, p: Proc) {
    p in s.state && p in s.runtime && p.User? && p.pid % NCPU == c && (s.state[p] == RUNNABLE || s.state[p] == RUNNING)
  }

  /** The processes that take turns on CPU c, with their run times. */
  ghost function Turns(s: Snap, c: nat): Turn
    requires c < |s.running| && s.running[c].User?
  {
    Turn(map p | p in s.state && InTurn(s, c, p) :: p.pid := s.runtime[p], s.running[c].pid)
  }

  lemma {:induction false} TurnsAt(s: Snap, c: nat, p: nat)
    requires c < |s.running| && s.running[c].User?
    ensures p in Turns(s, c).runtime <==> InTurn(s, c, User(p))
    ensures p in Turns(s, c).runtime ==> Turns(s, c).runtime[p] == s.runtime[User(p)]
  {
  }

  /** The run time of the running process of CPU c grows by a slice. */
  ghost function Charged(s: Snap, c: nat): Snap
    requires c < |s.running| && s.running[c] in s.runtime
  {
    s.(runtime := s.runtime[s.running[c] := s.runtime[s.running[c]] + SLICE_LEN])
  }

  lemma {:induction false} ChargeOk(s: Snap, c: nat)
    requires Ok(s) && c < NCPU
    ensures s.running[c] in s.runtime && Ok(Charged(s, c))
  {
    QueueOf(s, c);
    var s' := Charged(s, c);
    assert Shape(s') && IdleOk(s') && RunningOk(s') by {
      hide QueuesOk, QueueOk;
    }
    hide Shape, IdleOk, RunningOk, QueueOk;
    forall d | 0 <= d < NCPU ensures QueueOk(s'.state, s'.runtime, s'.rq[d], d) {
      QueueOf(s, d);
      KeyKept(s.state, s.runtime, s'.runtime, s.rq[d], d, s.running[c]);
    }
  }

  /** A process in turn that is not running is runnable once the running one is, too. */
  lemma {:induction false} InTurnReady(s: Snap, c: nat, p: nat)
    requires Ok(s) && c < NCPU && InTurn(s, c, User(p))
    ensures s.state[s.running[c] := RUNNABLE][User(p)] == RUNNABLE
  {
    assert s.state[User(p)] == RUNNING <==> s.running[CpuOf(User(p))] == User(p);
  }

  lemma {:induction false} SwitchedTurn(s: Snap, c: nat, p: nat)
    requires Ok(s) && c < NCPU && s.running[c].User?
    ensures InTurn(Switched(s, c, RUNNABLE), c, User(p)) <==> InTurn(s, c, User(p))
  {
    SwitchedQueue(s, c, RUNNABLE);
    QueueOf(s, c);
    hide Ok, QueueOk, QueueThen, Without;
  }

  /** The running process of CPU c, its time charged, hands over. */
  ghost predicate TickOf(s: Snap, s1: Snap, s': Snap, c: nat) {
    && Ok(s) && Ok(s1) && c < NCPU && c < |s.running| && s.running[c].User? && s.running[c] in s.runtime
    && s1 == Charged(s, c) && c < |s1.rq| && s' == Switched(s1, c, RUNNABLE)
  }

  lemma {:induction false} TickRunning(s: Snap, s1: Snap, s': Snap, c: nat)
    requires TickOf(s, s1, s', c)
    ensures c < |s'.running| && s'.running[c] == NextOf(QueueThen(s1, c, RUNNABLE), c) && s'.running[c].User?
    ensures InTurn(s, c, s.running[c]) && InTurn(s', c, s'.running[c]) && s'.runtime == s1.runtime
  {
    var r := s.running[c].pid;
    QueueOf(s, c);
    QueueOf(s1, c);
    hide Ok, QueueOk, QueueThen, Without;
    assert InTurn(s1, c, User(r));
    InTurnReady(s1, c, r);
    SwitchPicksLeast(s1, c, RUNNABLE, r);
    SwitchedQueue(s1, c, RUNNABLE);
  }

  lemma {:induction false} TickRuntime(s: Snap, s1: Snap, s': Snap, c: nat, p: nat)
    requires TickOf(s, s1, s', c) && c < |s'.running| && s'.running[c].User?
    ensures var t, t' := Turns(s, c), Turns(s', c);
            && (p in t'.runtime <==> p in t.runtime)
            && (p in t'.runtime ==> t'.runtime[p] == if p == t.running then t.runtime[p] + SLICE_LEN else t.runtime[p])
  {
    hide Ok, Turns;
    TurnsAt(s, c, p);
    TurnsAt(s', c, p);
    SwitchedTurn(s1, c, p);
    TurnsRunning(s, c);
    TickRunning(s, s1, s', c);
    hide QueueThen, Switched;
  }

  lemma {:induction false} TurnsRunning(s: Snap, c: nat)
    requires c < |s.running| && s.running[c].User?
    ensures Turns(s, c).running == s.running[c].pid
  {
  }

  lemma {:induction false} TickLeast(s: Snap, s1: Snap, s': Snap, c: nat, q: nat)
    requires TickOf(s, s1, s', c) && c < |s'.running| && s'.running[c].User? && q in Turns(s', c).runtime
    ensures Turns(s', c).running in Turns(s', c).runtime && LeastKey(Turns(s', c), q)
  {
    hide Ok, Turns, QueueThen;
    TickRunning(s, s1, s', c);
    TurnsRunning(s', c);
    TurnsAt(s', c, s'.running[c].pid);
    TurnsAt(s', c, q);
    SwitchedTurn(s1, c, q);
    InTurnReady(s1, c, q);
    SwitchPicksLeast(s1, c, RUNNABLE, q);
    hide Switched;
  }

  /** On a CPU that runs an ordinary process, a tick is a step of the turns. */
  lemma {:induction false} TickTurns(s: Snap, c: nat)
    requires Ok(s) && c < NCPU && s.running[c].User?
    ensures s.running[c] in s.runtime && Ok(Charged(s, c))
    ensures var s' := Switched(Charged(s, c), c, RUNNABLE); s'.running[c].User? && TickStep(Turns(s, c), Turns(s', c))
  {
    hide Ok, Switched, QueueThen, Turns, InTurn, LeastKey;
    ChargeOk(s, c);
    QueueOf(s, c);
    var s1 := Charged(s, c);
    var s' := Switched(s1, c, RUNNABLE);
    TickRunning(s, s1, s', c);
    TurnsRunning(s, c);
    TurnsAt(s, c, s.running[c].pid);
    var t, t' := Turns(s, c), Turns(s', c);
    TurnsRunning(s', c);
    TurnsAt(s', c, t'.running);
    forall p: nat
      ensures p in t'.runtime <==> p in t.runtime
      ensures p in t'.runtime ==> t'.runtime[p] == if p == t.running then t.runtime[p] + SLICE_LEN else t.runtime[p]
    {
      TickRuntime(s, s1, s', c, p);
    }
    assert t'.runtime == t.runtime[t.running := t.runtime[t.running] + SLICE_LEN];
    forall q | q in t'.runtime ensures LeastKey(t', q) {
      TickLeast(s, s1, s', c, q);
    }
  }

  // ----- all CPUs together -----

  /** A timer tick on CPU c. */
  ghost predicate OneTick(s: Snap, s': Snap, c: nat) {
    && Ok(s) && c < NCPU && c < |s.running| && c < |s.rq| && s.running[c] in s.runtime
    && s' == Switched(Charged(s, c), c, RUNNABLE)
  }

  /** Nothing that concerns CPU d has changed. */
  ghost predicate SameOn(s: Snap, s': Snap, d: nat) {
    && d < |s.running| && d < |s'.running| && d < |s.rq| && d < |s'.rq|
    && s'.running[d] == s.running[d] && s'.rq[d] == s.rq[d]
    && (s.running[d].User? ==> Turns(s', d) == Turns(s, d))
  }

  lemma {:induction false} SameTurns(s: Snap, s': Snap, d: nat)
    requires d < |s.running| && d < |s'.running| && s'.running[d] == s.running[d] && s.running[d].User?
    requires forall p: Proc :: CpuOf(p) == d ==>
               && (p in s'.state <==> p in s.state) && (p in s.state ==> s'.state[p] == s.state[p])
               && (p in s'.runtime <==> p in s.runtime) && (p in s.runtime ==> s'.runtime[p] == s.runtime[p])
    ensures Turns(s', d) == Turns(s, d)
  {
    forall p: nat
      ensures p in Turns(s', d).runtime <==> p in Turns(s, d).runtime
      ensures p in Turns(s, d).runtime ==> Turns(s', d).runtime[p] == Turns(s, d).runtime[p]
    {
      assert CpuOf(User(p)) == p % NCPU;
      TurnsAt(s, d, p);
      TurnsAt(s', d, p);
    }
    assert Turns(s', d).runtime == Turns(s, d).runtime;
  }

  /** The charge of CPU c concerns no other CPU. */
  lemma {:induction false} ChargedElsewhere(s: Snap, c: nat, d: nat)
    requires Ok(s) && c < NCPU && d < NCPU && d != c
    ensures s.running[c] in s.runtime && SameOn(s, Charged(s, c), d)
  {
    QueueOf(s, c);
    QueueOf(s, d);
    hide Ok, Turns, QueueOk;
    if s.running[d].User? {
      SameTurns(s, Charged(s, c), d);
    }
  }

  /** A switch on CPU c concerns no other CPU. */
  lemma {:induction false} SwitchedElsewhere(s: Snap, c: nat, d: nat)
    requires Ok(s) && c < NCPU && d < NCPU && d != c
    ensures SameOn(s, Switched(s, c, RUNNABLE), d)
  {
    QueueOf(s, c);
    QueueOf(s, d);
    SwitchedQueue(s, c, RUNNABLE);
    hide Ok, Turns, QueueOk, QueueThen, NextOf, Without;
    if s.running[d].User? {
      SameTurns(s, Switched(s, c, RUNNABLE), d);
    }
  }

  lemma {:induction false} TickElsewhere(s: Snap, s': Snap, c: nat, d: nat)
    requires OneTick(s, s', c) && d < NCPU && d != c
    ensures SameOn(s, s', d)
  {
    ChargeOk(s, c);
    ChargedElsewhere(s, c, d);
    SwitchedElsewhere(Charged(s, c), c, d);
    hide Ok, Turns, Switched, Charged;
  }

  /** A run in which the CPUs tick in the order cs. */
  ghost predicate TickRun(run: seq<Snap>, cs: seq<nat>) {
    |run| == |cs| + 1 && forall i :: 0 <= i < |cs| ==> OneTick(run[i], run[i + 1], cs[i])
  }

  /** How often CPU c ticks. */
  ghost function TicksOf(cs: seq<nat>, c: nat): nat {
    if cs == [] then 0 else TicksOf(cs[..|cs| - 1], c) + if cs[|cs| - 1] == c then 1 else 0
  }

  lemma {:induction false} TicksMono(cs: seq<nat>, c: nat, k: nat)
    requires k <= |cs|
    ensures TicksOf(cs[..k], c) <= TicksOf(cs, c)
    decreases |cs|
  {
    if k < |cs| {
      assert cs[..|cs| - 1][..k] == cs[..k];
      TicksMono(cs[..|cs| - 1], c, k);
    } else {
      assert cs[..k] == cs;
    }
  }

  /** ts are the turns of CPU c in a run: one at the start, and one after each of its own ticks. */
  ghost predicate Projects(run: seq<Snap>, cs: seq<nat>, c: nat, ts: seq<Turn>) {
    && |run| == |cs| + 1 && |ts| == TicksOf(cs, c) + 1
    && forall k :: 0 <= k < |run| ==> TurnAt(run[k], c, ts, TicksOf(cs[..k], c))
  }

  ghost predicate TurnAt(s: Snap, c: nat, ts: seq<Turn>, n: nat) {
    c < |s.running| && s.running[c].User? && n < |ts| && ts[n] == Turns(s, c)
  }

  lemma {:induction false} ProjectsMore(run: seq<Snap>, cs: seq<nat>, c: nat, ts: seq<Turn>, ts': seq<Turn>)
    requires |run| == |cs| + 1 && cs != [] && Projects(run[..|cs|], cs[..|cs| - 1], c, ts) && ts <= ts'
    requires |ts'| == TicksOf(cs, c) + 1 && TurnAt(run[|cs|], c, ts', TicksOf(cs, c))
    ensures Projects(run, cs, c, ts')
  {
    hide Turns, TicksOf;
    var n := |cs|;
    forall k | 0 <= k < |run| ensures TurnAt(run[k], c, ts', TicksOf(cs[..k], c)) {
      if k < n {
        assert cs[..n - 1][..k] == cs[..k];
        assert TurnAt(run[..n][k], c, ts, TicksOf(cs[..n - 1][..k], c));
      } else {
        assert cs[..k] == cs;
      }
    }
  }

  lemma {:induction false} TicksMore(ts: seq<Turn>, t: Turn)
    requires ts != [] && Ticks(ts) && TickStep(ts[|ts| - 1], t)
    ensures Ticks(ts + [t])
  {
    hide TickStep;
  }

  lemma {:induction false} LastTurn(run: seq<Snap>, cs: seq<nat>, c: nat, ts: seq<Turn>)
    requires Projects(run, cs, c, ts)
    ensures TurnAt(run[|cs|], c, ts, TicksOf(cs, c))
  {
    hide TurnAt;
    assert cs[..|cs|] == cs;
  }

  /** What the ticks of the other CPUs leave of a run is a run of ticks of CPU c. */
  lemma {:induction false} Projection(run: seq<Snap>, cs: seq<nat>, c: nat) returns (ts: seq<Turn>)
    requires TickRun(run, cs) && c < NCPU && c < |run[0].running| && run[0].running[c].User?
    ensures Projects(run, cs, c, ts) && Ticks(ts)
    decreases |cs|
  {
    hide OneTick, Turns, TickStep, SameOn, Ticks, Projects;
    var n := |cs|;
    if n == 0 {
      ts := [Turns(run[0], c)];
      NoTicks(run, c);
    } else {
      assert OneTick(run[n - 1], run[n], cs[n - 1]);
      ts := Projection(run[..n], cs[..n - 1], c);
      LastTurn(run[..n], cs[..n - 1], c, ts);
      ghost var ts1 := ts;
      if cs[n - 1] == c {
        LastTick(run[n - 1], run[n], c);
        ProjectsSize(run[..n], cs[..n - 1], c, ts);
        TicksMore(ts, Turns(run[n], c));
        ts := ts + [Turns(run[n], c)];
      } else {
        TickElsewhere(run[n - 1], run[n], cs[n - 1], c);
        SameTurn(run[n - 1], run[n], c);
        ProjectsSize(run[..n], cs[..n - 1], c, ts);
      }
      ProjectsMore(run, cs, c, ts1, ts);
    }
  }

  lemma {:induction false} ProjectsSize(run: seq<Snap>, cs: seq<nat>, c: nat, ts: seq<Turn>)
    requires Projects(run, cs, c, ts)
    ensures |ts| == TicksOf(cs, c) + 1
  {
  }

  lemma {:induction false} NoTicks(run: seq<Snap>, c: nat)
    requires |run| == 1 && c < |run[0].running| && run[0].running[c].User?
    ensures Projects(run, [], c, [Turns(run[0], c)]) && Ticks([Turns(run[0], c)])
  {
    hide Turns, TickStep;
    var none: seq<nat> := [];
    assert none[..0] == none;
  }

  lemma {:induction false} LastTick(s: Snap, s': Snap, c: nat)
    requires OneTick(s, s', c) && s.running[c].User?
    ensures c < |s'.running| && s'.running[c].User? && TickStep(Turns(s, c), Turns(s', c))
  {
    TickTurns(s, c);
    QueueOf(s, c);
    hide Ok, Turns, TickStep, QueueThen, NextOf, Without;
  }

  lemma {:induction false} SameTurn(s: Snap, s': Snap, d: nat)
    requires SameOn(s, s', d) && s.running[d].User?
    ensures d < |s'.running| && s'.running[d].User? && Turns(s', d) == Turns(s, d)
  {
  }

  /** The moment of the m-th tick of CPU c. */
  lemma {:induction false} MomentOf(cs: seq<nat>, c: nat, m: nat) returns (k: nat)
    requires m <= TicksOf(cs, c)
    ensures k <= |cs| && TicksOf(cs[..k], c) == m
    decreases |cs|
  {
    k := |cs|;
    assert cs[..k] == cs;
    if m < TicksOf(cs, c) {
      k := MomentOf(cs[..|cs| - 1], c, m);
      assert cs[..|cs| - 1][..k] == cs[..k];
    }
  }

  /**
   Fairness on every CPU.  In a run where all CPUs tick in any order, and the processes of
   CPU c started with equal run times, each of them runs again, from any moment on, within
   2N ticks of CPU c, N being their number.
   */
  lemma {:induction false} FairOnEveryCpu(run: seq<Snap>, cs: seq<nat>, c: nat, v: nat, i: nat, p: nat) returns (k: nat)
    requires TickRun(run, cs) && c < NCPU && Ok(run[0]) && c < |run[0].running| && run[0].running[c].User?
    requires p in Turns(run[0], c).runtime && forall q :: q in Turns(run[0], c).runtime ==> Turns(run[0], c).runtime[q] == v
    requires i < |run| && TicksOf(cs[..i], c) + 2 * |Turns(run[0], c).runtime.Keys| <= TicksOf(cs, c)
    ensures i < k < |run| && c < |run[k].running| && run[k].running[c] == User(p)
    ensures TicksOf(cs[..k], c) <= TicksOf(cs[..i], c) + 2 * |Turns(run[0], c).runtime.Keys|
  {
    hide Ok, OneTick, Turns, TickStep;
    var ts := Projection(run, cs, c);
    assert cs[..0] == [];
    assert TurnAt(run[0], c, ts, TicksOf(cs[..0], c));
    FirstTurn(run[0], c);
    var m := Fair(ts, v, TicksOf(cs[..i], c), p);
    k := MomentOf(cs, c, m);
    assert TurnAt(run[k], c, ts, TicksOf(cs[..k], c));
    TurnsRunning(run[k], c);
    if k <= i {
      assert cs[..i][..k] == cs[..k];
      TicksMono(cs[..i], c, k);
    }
  }

  lemma {:induction false} FirstTurn(s: Snap, c: nat)
    requires Ok(s) && c < NCPU && c < |s.running| && s.running[c].User?
    ensures Turns(s, c).running in Turns(s, c).runtime
  {
    QueueOf(s, c);
    hide Ok, QueueOk;
    TurnsRunning(s, c);
    TurnsAt(s, c, s.running[c].pid);
  }

  lemma {:induction false} QueueCreated(state: map<Proc, ProcState>, rt: map<Proc, nat>, q: seq<nat>, c: nat, pid: nat)
    requires QueueOk(state, rt, q, c) && User(pid) !in state && User(pid) !in rt
    ensures QueueOk(state[User(pid) := UNUSED], rt[User(pid) := 0], q, c)
  {
    var rt' := rt[User(pid) := 0];
    assert Known(rt', q);
    forall i, j | 0 <= i < j < |q| ensures Before(rt', q[i], q[j]) {
      assert q[i] in q && q[j] in q;
      assert Before(rt, q[i], q[j]);
    }
  }

  lemma {:induction false} CreateOk(s: Snap, pid: nat)
    requires Ok(s) && User(pid) !in s.state
    ensures Ok(s.(state := s.state[User(pid) := UNUSED], runtime := s.runtime[User(pid) := 0]))
  {
    var s' := s.(state := s.state[User(pid) := UNUSED], runtime := s.runtime[User(pid) := 0]);
    hide QueueOk;
    CreateShape(s, s', pid);
    assert User(pid) !in s.runtime;
    hide RunningOk, IdleOk;
    forall c | 0 <= c < NCPU ensures QueueOk(s'.state, s'.runtime, s'.rq[c], c) {
      assert QueueOk(s.state, s.runtime, s.rq[c], c);
      QueueCreated(s.state, s.runtime, s.rq[c], c, pid);
    }
  }

  lemma {:induction false} CreateShape(s: Snap, s': Snap, pid: nat)
    requires Shape(s) && RunningOk(s) && IdleOk(s) && User(pid) !in s.state
    requires s' == s.(state := s.state[User(pid) := UNUSED], runtime := s.runtime[User(pid) := 0])
    ensures Shape(s') && RunningOk(s') && IdleOk(s')
  {
    assert Shape(s');
    forall p | p in s'.state ensures s'.state[p] == RUNNING <==> s'.running[CpuOf(p)] == p {
      assert s.running[CpuOf(p)] in s.state;
    }
  }

  lemma {:induction false} QueueReaped(state: map<Proc, ProcState>, rt: map<Proc, nat>, q: seq<nat>, c: nat, pid: nat)
    requires QueueOk(state, rt, q, c) && User(pid) in state && state[User(pid)] == ZOMBIE
    ensures QueueOk(state - {User(pid)}, rt - {User(pid)}, q, c)
  {
    var rt' := rt - {User(pid)};
    assert pid !in q;
    assert Known(rt', q);
    forall i, j | 0 <= i < j < |q| ensures Before(rt', q[i], q[j]) {
      assert q[i] in q && q[j] in q;
      assert Before(rt, q[i], q[j]);
    }
  }

  lemma {:induction false} ReapOk(s: Snap, pid: nat)
    requires Ok(s) && User(pid) in s.state && s.state[User(pid)] == ZOMBIE
    ensures Ok(s.(state := s.state - {User(pid)}, runtime := s.runtime - {User(pid)}))
  {
    hide QueueOk;
    var s' := s.(state := s.state - {User(pid)}, runtime := s.runtime - {User(pid)});
    ReapShape(s, s', pid);
    hide RunningOk, IdleOk;
    forall c | 0 <= c < NCPU ensures QueueOk(s'.state, s'.runtime, s'.rq[c], c) {
      assert QueueOk(s.state, s.runtime, s.rq[c], c);
      QueueReaped(s.state, s.runtime, s.rq[c], c, pid);
    }
  }

  lemma {:induction false} ReapShape(s: Snap, s': Snap, pid: nat)
    requires Shape(s) && RunningOk(s) && IdleOk(s) && User(pid) in s.state && s.state[User(pid)] == ZOMBIE
    requires s' == s.(state := s.state - {User(pid)}, runtime := s.runtime - {User(pid)})
    ensures Shape(s') && RunningOk(s') && IdleOk(s')
  {
    assert Shape(s');
    forall c | 0 <= c < NCPU ensures s'.running[c] in s'.state && CpuOf(s'.running[c]) == c {
      assert s.state[s.running[c]] == RUNNING;
    }
    forall p | p in s'.state ensures s'.state[p] == RUNNING <==> s'.running[CpuOf(p)] == p {
      assert p in s.state;
    }
  }

  /** Process p is ready on CPU c once the running process there has moved to state st. */
  ghost predicate Ready(s: Snap, c: nat, st: ProcState, p: nat) {
    && c < |s.running| && User(p) in s.state && p % 4 == c
    && (if s.running[c] == User(p) then st == RUNNABLE else s.state[User(p)] == RUNNABLE)
  }

  /** The process that ran on CPU c is in state st, unless it runs again, and nothing else has changed. */
  ghost predicate Moved(s: Snap, s': Snap, c: nat, st: ProcState) {
    && |s'.running| == |s.running| == |s'.rq| == |s.rq| == 4 && c < 4 && s'.runtime == s.runtime && s'.state.Keys == s.state.Keys
    && var p, next := s.running[c], s'.running[c];
    && p in s.state && next in s.state && s'.state[next] == RUNNING && (next != p ==> s'.state[p] == st)
    && (forall q :: q in s.state && q != p && q != next ==> s'.state[q] == s.state[q])
    && forall d :: 0 <= d < 4 && d != c ==> s'.running[d] == s.running[d] && s'.rq[d] == s.rq[d]
  }

  /**
   The process next is the ready one with the least run time, and of these the least pid, or
   the idle process if none is ready.
   */
  ghost predicate Picked(s: Snap, next: Proc, c: nat, st: ProcState) {
    && (next == Idle(c) || (next.User? && Ready(s, c, st, next.pid)))
    && forall q :: Ready(s, c, st, q) ==>
         && next.User? && User(q) in s.runtime && next in s.runtime
         && (s.runtime[next] < s.runtime[User(q)] || (s.runtime[next] == s.runtime[User(q)] && next.pid <= q))
  }

  lemma {:induction false} SwitchMoves(s: Snap, c: nat, st: ProcState)
    requires Ok(s) && c < NCPU && st != RUNNING && (s.running[c].Idle? ==> st == RUNNABLE)
    ensures c < |s.running| && c < |s.rq| && Moved(s, Switched(s, c, st), c, st)
  {
    hide Ok, QueueOk, QueueThen, Without, NextOf, CpuOf, Known;
    QueueOf(s, c);
    SwitchedQueue(s, c, st);
  }

  lemma {:induction false} SwitchPicks(s: Snap, c: nat, st: ProcState)
    requires Ok(s) && c < NCPU && st != RUNNING && (s.running[c].Idle? ==> st == RUNNABLE)
    ensures c < |s.running| && c < |s.rq| && Switched(s, c, st).running[c] == NextOf(QueueThen(s, c, st), c)
    ensures Picked(s, NextOf(QueueThen(s, c, st), c), c, st)
  {
    hide Ok, QueueOk, QueueThen, Without, Known;
    QueueOf(s, c);
    SwitchedQueue(s, c, st);
    var next := NextOf(QueueThen(s, c, st), c);
    forall q | Ready(s, c, st, q)
      ensures next.User? && User(q) in s.runtime && next in s.runtime
      ensures s.runtime[next] < s.runtime[User(q)] || (s.runtime[next] == s.runtime[User(q)] && next.pid <= q)
    {
      SwitchPicksLeast(s, c, st, q);
    }
  }

  class Sched {
    var state: map<Proc, ProcState>
    var runtime: map<Proc, nat>
    var killed: set<Proc>
    var running: seq<Proc>
    var rq: seq<seq<nat>>

    ghost function Now(): Snap
      reads this
    {
      Snap(state, runtime, running, rq)
    }

    ghost predicate Valid()
      reads this
    {
      Ok(Now())
    }

    /** A zombie stays one, and a process keeps its key while it is queued. */
    twostate predicate Steady()
      reads this
    {
      && (forall p :: p in old(state) ==> p in state && (old(state[p]) == ZOMBIE ==> state[p] == ZOMBIE))
      && forall p :: p in old(state) && p in old(runtime) && old(state[p]) != RUNNING ==> p in runtime && runtime[p] == old(runtime[p])
    }

    /** At boot every CPU runs its idle process. */
    constructor ()
      ensures Valid() && killed == {} && state.Keys == {Idle(0), Idle(1), Idle(2), Idle(3)}
    {
      state := map[Idle(0) := RUNNING, Idle(1) := RUNNING, Idle(2) := RUNNING, Idle(3) := RUNNING];
      runtime := map[Idle(0) := 0, Idle(1) := 0, Idle(2) := 0, Idle(3) := 0];
      killed := {};
      running := [Idle(0), Idle(1), Idle(2), Idle(3)];
      rq := [[], [], [], []];
      new;
      BootOk(Now());
    }

    /** A new process, not yet started, under a pid that no process has. */
    method Create(pid: nat)
      requires Valid() && User(pid) !in state
      modifies this`state, this`runtime, this`killed
      ensures Valid() && Steady() && state == old(state)[User(pid) := UNUSED] && killed == old(killed) - {User(pid)}
      ensures runtime == old(runtime)[User(pid) := 0]
    {
      hide Ok;
      CreateOk(Now(), pid);
      state := state[User(pid) := UNUSED];
      runtime := runtime[User(pid) := 0];
      killed := killed - {User(pid)};
    }

    /** The parent collects a zombie; its pid is free again. */
    method Reap(pid: nat)
      requires Valid() && User(pid) in state && state[User(pid)] == ZOMBIE
      modifies this`state, this`runtime
      ensures Valid() && state == old(state) - {User(pid)} && runtime == old(runtime) - {User(pid)}
    {
      hide Ok;
      ReapOk(Now(), pid);
      state := state - {User(pid)};
      runtime := runtime - {User(pid)};
    }

    /** Wakes a process that sleeps or has not been started; an alert does not wake a deep sleeper. */
    method Activate(p: Proc, onalert: bool) returns (woken: bool)
      requires Valid() && p in state
      modifies this`state, this`rq
      ensures Valid() && Steady()
      ensures woken <==> old(state[p]) in {SLEEPING, UNUSED} || (old(state[p]) == DEEPSLEEPING && !onalert)
      ensures state == if woken then old(state)[p := RUNNABLE] else old(state)
    {
      hide Ok, QueueOk, Enqueue;
      if (onalert && state[p] == DEEPSLEEPING) || state[p] == RUNNING || state[p] == RUNNABLE || state[p] == ZOMBIE {
        return false;
      }
      WakeOk(Now(), p);
      QueueOf(Now(), CpuOf(p));
      ghost var s := Now();
      state := state[p := RUNNABLE];
      if p.User? {
        var c := p.pid % NCPU;
        rq := rq[c := Enqueue(runtime, rq[c], p.pid)];
      }
      assert Now() == Woken(s, p);
      woken := true;
    }

    /** Marks an ordinary process as killed and alerts it; a deep sleeper sleeps on. */
    method Kill(p: Proc)
      requires Valid() && p in state && p.User?
      modifies this`killed, this`state, this`rq
      ensures Valid() && Steady() && killed == old(killed) + {p}
      ensures state == if old(state[p]) in {SLEEPING, UNUSED} then old(state)[p := RUNNABLE] else old(state)
    {
      hide Ok;
      killed := killed + {p};
      var woken := Activate(p, true);
    }

    /**
     The running process of CPU c moves to state st and the ready process with the
     least key runs, the idle one if there is none.  A killed process only leaves to
     become a zombie.
     */
    method Schedule(c: nat, st: ProcState)
      requires Valid() && c < NCPU && st != RUNNING && (running[c].Idle? ==> st == RUNNABLE)
      modifies this`state, this`running, this`rq
      ensures Valid() && Steady()
      ensures Now() == if old(running[c]) in killed && st != ZOMBIE then old(Now()) else Switched(old(Now()), c, st)
      ensures old(running[c]) !in killed || st == ZOMBIE ==>
                c < |running| && Moved(old(Now()), Now(), c, st) && Picked(old(Now()), running[c], c, st)
      ensures old(running[c]) !in killed || st == ZOMBIE ==>
                && running[c] in state && state[running[c]] == RUNNING && old(running[c]) in state
                && (running[c] != old(running[c]) ==> state[old(running[c])] == st)
                && forall p :: p in old(state) && p != running[c] && p != old(running[c]) ==> p in state && state[p] == old(state)[p]
    {
      hide Ok, QueueOk, Enqueue, Without, Picked;
      ghost var s := Now();
      QueueOf(s, c);
      var this' := running[c];
      if this' in killed && st != ZOMBIE {
        return;
      }
      SwitchOk(s, c, st);
      SwitchedQueue(s, c, st);
      if st == RUNNABLE && this'.User? {
        rq := rq[c := Enqueue(runtime, rq[c], this'.pid)];
      }
      state := state[this' := st];
      var next := if rq[c] != [] then User(rq[c][0]) else Idle(c);
      assert state[next] == RUNNABLE;
      running := running[c := next];
      state := state[next := RUNNING];
      if next.User? {
        rq := rq[c := Without(rq[c], next.pid)];
      }
      assert Now() == Switched(s, c, st);
      SwitchMoves(s, c, st);
      SwitchPicks(s, c, st);
    }

    /** A timer tick on CPU c: its running process has used up a slice.  No other CPU is concerned. */
    method Tick(c: nat)
      requires Valid() && c < NCPU
      modifies this`state, this`running, this`rq, this`runtime
      ensures Valid() && Steady() && c < |running| == |old(running)| && old(running[c]) in old(runtime)
      ensures runtime == old(runtime)[old(running[c]) := old(runtime)[old(running[c])] + 1]
      ensures old(running[c]) in killed ==> Now() == Charged(old(Now()), c)
      ensures old(running[c]) !in killed ==> OneTick(old(Now()), Now(), c)
      ensures forall d :: 0 <= d < NCPU && d != c ==> SameOn(old(Now()), Now(), d)
      ensures old(running[c]).User? && old(running[c]) !in killed ==>
                running[c].User? && TickStep(Turns(old(Now()), c), Turns(Now(), c))
    {
      hide Ok, Switched, Turns, TickStep, SameOn;
      ghost var s := Now();
      QueueOf(s, c);
      ChargeOk(s, c);
      if running[c].User? {
        TickTurns(s, c);
      }
      runtime := runtime[running[c] := runtime[running[c]] + SLICE_LEN];
      assert Now() == Charged(s, c);
      Schedule(c, RUNNABLE);
      QueueOf(Now(), c);
      forall d | 0 <= d < NCPU && d != c ensures SameOn(s, Now(), d) {
        if s.running[c] in killed {
          ChargedElsewhere(s, c, d);
        } else {
          TickElsewhere(s, Now(), c, d);
        }
      }
    }
  }

  lemma {:induction false} BootOk(s: Snap)
    requires s.state == map[Idle(0) := RUNNING, Idle(1) := RUNNING, Idle(2) := RUNNING, Idle(3) := RUNNING]
    requires s.runtime == map[Idle(0) := 0, Idle(1) := 0, Idle(2) := 0, Idle(3) := 0]
    requires s.running == [Idle(0), Idle(1), Idle(2), Idle(3)] && s.rq == [[], [], [], []]
    ensures Ok(s)
  {
    assert Shape(s);
    forall c | 0 <= c < NCPU ensures s.running[c] == Idle(c) && s.rq[c] == [] {
    }
    forall c | 0 <= c < NCPU ensures QueueOk(s.state, s.runtime, s.rq[c], c) {
    }
  }

  /** p comes no later than q in the order of the run queue. */
  ghost predicate Leads(rt: map<Proc, nat>, p: nat, q: nat) {
    User(p) in rt && User(q) in rt && (p == q || Before(rt, p, q))
  }

  lemma {:induction false} FirstLeads(state: map<Proc, ProcState>, rt: map<Proc, nat>, q: seq<nat>, c: nat, p: nat)
    requires QueueOk(state, rt, q, c) && User(p) in state && state[User(p)] == RUNNABLE && p % NCPU == c
    ensures q != [] && Leads(rt, q[0], p)
  {
    assert p in q;
    HeadIsLeast(rt, q, p);
  }

  /** A state change that makes no ordinary process of this CPU runnable or unrunnable. */
  lemma {:induction false} Unqueued(state: map<Proc, ProcState>, rt: map<Proc, nat>, q: seq<nat>, p: Proc, st: ProcState, c: nat)
    requires QueueOk(state, rt, q, c) && p in state
    requires p.User? && p.pid % NCPU == c ==> state[p] != RUNNABLE && st != RUNNABLE
    ensures QueueOk(state[p := st], rt, q, c)
  {
  }

  /** The first process of a queue leaves it to run. */
  lemma {:induction false} Dequeued(state: map<Proc, ProcState>, rt: map<Proc, nat>, q: seq<nat>, c: nat)
    requires QueueOk(state, rt, q, c) && q != []
    ensures q[0] in q && User(q[0]) in state && state[User(q[0])] == RUNNABLE && q[0] % NCPU == c
    ensures QueueOk(state[User(q[0]) := RUNNING], rt, Without(q, q[0]), c)
  {
    assert q[0] in q;
    SortedTail(rt, q);
  }

  /** Run time passes only for a process that is not queued. */
  lemma {:induction false} KeyKept(state: map<Proc, ProcState>, rt: map<Proc, nat>, rt': map<Proc, nat>, q: seq<nat>, c: nat, p: Proc)
    requires QueueOk(state, rt, q, c) && p in state && state[p] == RUNNING && p in rt && rt' == rt[p := rt[p] + SLICE_LEN]
    ensures QueueOk(state, rt', q, c)
  {
    forall i, j | 0 <= i < j < |q| ensures Known(rt', q) && Before(rt', q[i], q[j]) {
      assert q[i] in q && q[j] in q;
      assert Before(rt, q[i], q[j]);
    }
  }

  /** A process that becomes runnable is queued in its place. */
  lemma {:induction false} Queued(state: map<Proc, ProcState>, rt: map<Proc, nat>, q: seq<nat>, p: nat, c: nat)
    requires QueueOk(state, rt, q, c) && User(p) in state && state[User(p)] != RUNNABLE && p % NCPU == c && User(p) in rt
    ensures QueueOk(state[User(p) := RUNNABLE], rt, Enqueue(rt, q, p), c)
  {
    EnqueueMembers(rt, q, p);
    EnqueueSorted(rt, q, p);
  }
}
