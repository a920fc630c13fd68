/**
 The run queue of a CPU as the kernel keeps it: a red-black tree whose comparison reads
 run times that change while processes are queued.  It refines the sorted sequence that
 the scheduler's invariants speak of.
 */
module RunQueue {
  import opened RbShape
  import opened Sequences
  import RbTree
  import Scheduler

  type Times = map<Scheduler.Proc, nat>

  /** The tree node inside the process with this pid. */
  function NodeOf(pid: nat): Ptr {
    pid + 1
  }

  function PidOf(n: Ptr): nat {
    if n == NULL then 0 else n - 1
  }

  function Pids(s: seq<Ptr>): (q: seq<nat>)
    ensures |q| == |s| && forall i :: 0 <= i < |s| ==> q[i] == PidOf(s[i])
  {
    seq(|s|, i requires 0 <= i < |s| => PidOf(s[i]))
  }

  function Time(rt: Times, n: Ptr): nat {
    var p := Scheduler.User(PidOf(n));
    if p in rt then rt[p] else 0
  }

  /** The comparison of two nodes, under the run times of this moment. */
  predicate KeyLess(rt: Times, x: Ptr, y: Ptr) {
    Time(rt, x) < Time(rt, y) || (Time(rt, x) == Time(rt, y) && x < y)
  }

  function Less(rt: Times): (Ptr, Ptr) -> bool {
    (x: Ptr, y: Ptr) => KeyLess(rt, x, y)
  }

  lemma {:induction false} LessIsOrder(rt: Times)
    ensures StrictWeakOrder(Less(rt)) && forall x, y :: Equivalent(Less(rt), x, y) ==> x == y
  {
    hide Time;
  }

  /** Processes compare as their nodes do. */
  lemma {:induction false} LessIsBefore(rt: Times, x: Ptr, y: Ptr)
    requires x != NULL && y != NULL && Scheduler.User(PidOf(x)) in rt && Scheduler.User(PidOf(y)) in rt
    ensures Less(rt)(x, y) <==> Scheduler.Before(rt, PidOf(x), PidOf(y))
  {
  }

  /** The nodes of queued processes. */
  ghost predicate Queued(rt: Times, s: seq<Ptr>) {
    forall x :: x in s ==> x != NULL && Scheduler.User(PidOf(x)) in rt
  }

  lemma {:induction false} PidsKnown(rt: Times, s: seq<Ptr>)
    requires Queued(rt, s)
    ensures Scheduler.Known(rt, Pids(s))
    ensures forall pid: nat :: pid in Pids(s) <==> NodeOf(pid) in s
  {
    forall pid: nat ensures pid in Pids(s) <==> NodeOf(pid) in s {
      if pid in Pids(s) {
        var i :| 0 <= i < |s| && Pids(s)[i] == pid;
        assert s[i] in s;
      }
      if NodeOf(pid) in s {
        var i :| 0 <= i < |s| && s[i] == NodeOf(pid);
        assert Pids(s)[i] == pid;
      }
    }
  }

  lemma {:induction false} PidsSorted(rt: Times, s: seq<Ptr>)
    requires Queued(rt, s) && Sorted(Less(rt), s)
    ensures Scheduler.Known(rt, Pids(s)) && Scheduler.Sorted(rt, Pids(s)) && Distinct(Pids(s))
  {
    PidsKnown(rt, s);
    hide Less, Pids;
    forall i, j | 0 <= i < j < |s| ensures Scheduler.Before(rt, Pids(s)[i], Pids(s)[j]) {
      assert s[i] in s && s[j] in s;
      LessIsBefore(rt, s[i], s[j]);
    }
    assert forall i, j :: 0 <= i < j < |s| ==> Scheduler.Before(rt, Pids(s)[i], Pids(s)[j]);
  }

  /** The scheduler's queue takes a process in at the only place where it is in order. */
  lemma {:induction false} EnqueueAt(rt: Times, q: seq<nat>, p: nat, k: nat)
    requires Scheduler.Known(rt, q) && Scheduler.User(p) in rt && k <= |q|
    requires forall i :: 0 <= i < k ==> Scheduler.Before(rt, q[i], p)
    requires k < |q| ==> Scheduler.Before(rt, p, q[k])
    ensures Scheduler.Enqueue(rt, q, p) == q[..k] + [p] + q[k..]
  {
    if k > 0 {
      assert forall i :: 0 <= i < k - 1 ==> q[1..][i] == q[i + 1];
      EnqueueAt(rt, q[1..], p, k - 1);
    }
  }

  /** Node n lies in order between the first k nodes of s and the others. */
  ghost predicate Place(rt: Times, s: seq<Ptr>, n: Ptr, k: nat) {
    k <= |s| && (forall i :: 0 <= i < k ==> Less(rt)(s[i], n)) && (k < |s| ==> Less(rt)(n, s[k]))
  }

  lemma {:induction false} InsertedPlace(rt: Times, s: seq<Ptr>, s': seq<Ptr>, n: Ptr) returns (k: nat)
    requires Inserted(s, s', n) && Sorted(Less(rt), s')
    ensures k <= |s| && s' == s[..k] + [n] + s[k..] && Place(rt, s, n, k)
  {
    hide Less;
    k :| 0 <= k <= |s| && s' == s[..k] + [n] + s[k..];
    assert s'[k] == n && forall i :: 0 <= i < k ==> s'[i] == s[i];
    assert k < |s| ==> s'[k + 1] == s[k];
  }

  lemma {:induction false} InsertedIsEnqueue(rt: Times, s: seq<Ptr>, s': seq<Ptr>, pid: nat)
    requires Queued(rt, s) && Scheduler.User(pid) in rt && Inserted(s, s', NodeOf(pid)) && Sorted(Less(rt), s')
    ensures Queued(rt, s') && Scheduler.Known(rt, Pids(s)) && Pids(s') == Scheduler.Enqueue(rt, Pids(s), pid)
  {
    hide Less, Pids, Inserted, Sorted, Scheduler.Enqueue, Scheduler.Known, Scheduler.Before;
    PidsKnown(rt, s);
    var k := InsertedPlace(rt, s, s', NodeOf(pid));
    var q := Pids(s);
    forall i | 0 <= i < |s| ensures Less(rt)(s[i], NodeOf(pid)) <==> Scheduler.Before(rt, q[i], pid) {
      assert s[i] in s;
      LessIsBefore(rt, s[i], NodeOf(pid));
    }
    if k < |s| {
      assert s[k] in s;
      LessIsBefore(rt, NodeOf(pid), s[k]);
    }
    EnqueueAt(rt, q, pid, k);
    assert Pids(s') == q[..k] + [pid] + q[k..];
  }

  lemma {:induction false} RemovedIsWithout(s: seq<Ptr>, s': seq<Ptr>, pid: nat)
    requires Removed(s, s', NodeOf(pid)) && Distinct(Pids(s))
    ensures Pids(s') == Without(Pids(s), pid) && forall x :: x in s' ==> x in s
  {
    hide Distinct, Without, Pids;
    var k :| 0 <= k < |s| && s[k] == NodeOf(pid) && s' == s[..k] + s[k + 1..];
    assert Pids(s)[k] == pid;
    WithoutAt(Pids(s), k);
    assert Pids(s') == Pids(s)[..k] + Pids(s)[k + 1..];
  }

  /** Nodes of processes other than those of q are not touched. */
  ghost predicate OthersKept(m: Memory, m': Memory, q: seq<nat>) {
    forall n :: n in m && n != NULL && PidOf(n) !in q ==> n in m' && m'[n] == m[n]
  }

  lemma {:induction false} OthersOf(m: Memory, m': Memory, s: seq<Ptr>, k: set<Ptr>, q: seq<nat>)
    requires Except(m, m', k) && (forall x :: x in k ==> x in s || PidOf(x) in q) && forall x :: x in s ==> PidOf(x) in q
    ensures OthersKept(m, m', q)
  {
  }

  lemma {:induction false} PidsHold(s: seq<Ptr>)
    ensures forall x :: x in s ==> PidOf(x) in Pids(s)
  {
    forall x | x in s ensures PidOf(x) in Pids(s) {
      var i :| 0 <= i < |s| && s[i] == x;
      assert Pids(s)[i] == PidOf(x);
    }
  }

  class RunQueue {
    const tree: RbTree.RbTree

    /** The queued processes, in the order of the tree. */
    ghost function Queue(): seq<nat>
      reads tree
    {
      Pids(InOrder(tree.tree))
    }

    ghost predicate Valid(rt: Times)
      reads tree
    {
      tree.Valid(Less(rt)) && Queued(rt, InOrder(tree.tree))
    }

    constructor (ghost rt: Times, mem: Memory)
      ensures Valid(rt) && fresh(tree) && Queue() == [] && tree.mem == mem
    {
      LessIsOrder(rt);
      tree := new RbTree.RbTree(Less(rt), mem);
    }

    /** The scheduler's view of a queue: in order, with every process known. */
    lemma {:induction false} InOrderOfTime(rt: Times)
      requires Valid(rt)
      ensures Scheduler.Known(rt, Queue()) && Scheduler.Sorted(rt, Queue()) && Distinct(Queue())
    {
      PidsSorted(rt, InOrder(tree.tree));
    }

    /** Run times of processes that are not queued may change. */
    lemma {:induction false} TimesChanged(rt: Times, rt': Times)
      requires Valid(rt)
      requires forall p :: p in Queue() ==> Scheduler.User(p) in rt && Scheduler.User(p) in rt' && rt'[Scheduler.User(p)] == rt[Scheduler.User(p)]
      ensures Valid(rt')
    {
      var s := InOrder(tree.tree);
      PidsKnown(rt, s);
      LessIsOrder(rt');
      forall x | x in s ensures x != NULL && Scheduler.User(PidOf(x)) in rt' && Time(rt', x) == Time(rt, x) {
        assert NodeOf(PidOf(x)) == x;
        assert PidOf(x) in Queue();
      }
      tree.OrderChanged(Less(rt), Less(rt'));
    }

    /** Queues a process that is not queued. */
    method Put(rt: Times, pid: nat)
      requires Valid(rt) && Scheduler.User(pid) in rt && pid !in Queue() && NodeOf(pid) in tree.mem
      modifies tree
      ensures Valid(rt) && Scheduler.Known(rt, old(Queue())) && Queue() == Scheduler.Enqueue(rt, old(Queue()), pid)
      ensures tree.mem.Keys == old(tree.mem.Keys) && OthersKept(old(tree.mem), tree.mem, old(Queue()) + [pid])
    {
      ghost var s := InOrder(tree.tree);
      PidsKnown(rt, s);
      LessIsOrder(rt);
      NodesInOrder(tree.tree);
      ghost var m := tree.mem;
      PidsHold(s);
      var r := tree.Insert(NodeOf(pid), Less(rt));
      OthersOf(m, tree.mem, s, old(Nodes(tree.tree)) + {NodeOf(pid)}, Pids(s) + [pid]);
      InsertedIsEnqueue(rt, s, InOrder(tree.tree), pid);
    }

    /** The process to run next: the first one queued, or the idle process of CPU c. */
    method PickNext(ghost rt: Times, c: nat) returns (next: Scheduler.Proc)
      requires Valid(rt)
      ensures next == Scheduler.NextOf(Queue(), c)
    {
      ghost var s := InOrder(tree.tree);
      var n, steps := tree.First(Less(rt));
      if n == NULL {
        return Scheduler.Idle(c);
      }
      assert s[0] in s;
      next := Scheduler.User(PidOf(n));
    }

    /** Takes a process out of the queue. */
    method Take(ghost rt: Times, pid: nat)
      requires Valid(rt) && pid in Queue()
      modifies tree
      ensures Valid(rt) && Queue() == Without(old(Queue()), pid)
      ensures tree.mem.Keys == old(tree.mem.Keys) && OthersKept(old(tree.mem), tree.mem, old(Queue()))
    {
      ghost var s := InOrder(tree.tree);
      PidsKnown(rt, s);
      PidsSorted(rt, s);
      NodesInOrder(tree.tree);
      ghost var m := tree.mem;
      PidsHold(s);
      tree.Erase(NodeOf(pid), Less(rt));
      OthersOf(m, tree.mem, s, old(Nodes(tree.tree)), Pids(s));
      RemovedIsWithout(s, InOrder(tree.tree), pid);
    }
  }

  lemma {:induction false} NodesInOrder(t: Tree)
    ensures forall x :: x in Nodes(t) <==> x in InOrder(t)
  {
    if t.Branch? {
      NodesInOrder(t.l);
      NodesInOrder(t.r);
    }
  }
}
