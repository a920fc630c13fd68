/** Counting semaphores.  Each section under the semaphore's lock is one atomic step. */
module Semaphore {
  import opened Sequences

  datatype Answer = Granted | Blocked

  ghost function Positive(v: int): nat {
    if v > 0 then v else 0
  }

  lemma {:induction false} NoneSet(s: seq<nat>)
    ensures SetOf(s[..0]) == {}
  {
  }

  lemma {:induction false} SetOfMore(s: seq<nat>, k: nat)
    requires k < |s|
    ensures SetOf(s[..k + 1]) == SetOf(s[..k]) + {s[k]}
  {
    assert s[..k + 1] == s[..k] + [s[k]];
  }

  /**
   A semaphore: its value, the sleepers, oldest first, and those woken that have not
   yet taken the lock again.  The counters are for the proofs.
   */
  class Semaphore {
    var val: int
    var sleepers: seq<nat>
    var woken: set<nat>
    ghost const initial: nat
    ghost var posts: nat
    ghost var grants: nat

    /** As many sleep as the value is below zero, and tokens are neither lost nor made. */
    ghost predicate Valid()
      reads this
    {
      && |sleepers| == Positive(-val) && Distinct(sleepers)
      && (forall p :: p in sleepers ==> p !in woken)
      && initial + posts == grants + Positive(val)
    }

    constructor (n: nat)
      ensures Valid() && initial == n && val == n && sleepers == [] && woken == {}
    {
      val, sleepers, woken, initial, posts, grants := n, [], {}, n, 0, 0;
    }

    /** Takes a token if there is one. */
    method Get() returns (ok: bool)
      requires Valid()
      modifies this`val, this`grants
      ensures Valid() && (ok <==> old(val) > 0)
      ensures val == (if ok then old(val) - 1 else old(val)) && grants == old(grants) + (if ok then 1 else 0)
    {
      ok := false;
      if val > 0 {
        val, ok := val - 1, true;
        grants := grants + 1;
      }
    }

    /** Takes all tokens there are. */
    method GetAll() returns (n: nat)
      requires Valid()
      modifies this`val, this`grants
      ensures Valid() && n == (if old(val) > 0 then old(val) else 0) && grants == old(grants) + n && val == old(val) - n
    {
      n := 0;
      if val > 0 {
        n := val;
        grants := grants + n;
        val := 0;
      }
    }

    /** Adds a token; if anyone sleeps, the one that has slept longest gets it. */
    method Post()
      requires Valid()
      modifies this`val, this`sleepers, this`woken, this`posts, this`grants
      ensures Valid() && val == old(val) + 1 && posts == old(posts) + 1
      ensures old(sleepers) == [] ==> sleepers == [] && woken == old(woken) && grants == old(grants)
      ensures old(sleepers) != [] ==>
                sleepers == old(sleepers)[1..] && woken == old(woken) + {old(sleepers)[0]} && grants == old(grants) + 1
    {
      val := val + 1;
      posts := posts + 1;
      if val <= 0 {
        assert sleepers != [];
        var p := sleepers[0];
        woken := woken + {p};
        sleepers := sleepers[1..];
        grants := grants + 1;
      }
    }

    /** Wakes every sleeper, counts them, and leaves the tokens that were free. */
    method PostAll() returns (n: nat)
      requires Valid()
      modifies this`val, this`sleepers, this`woken, this`posts, this`grants
      ensures Valid() && sleepers == [] && n == |old(sleepers)| && val == (if old(val) > 0 then old(val) else 0)
      ensures woken == old(woken) + SetOf(old(sleepers))
      ensures posts == old(posts) + n + 1 && grants == old(grants) + n + 1
    {
      hide SetOf;
      ghost var s := sleepers;
      n := 0;
      NoneSet(s);
      Post();
      if s != [] {
        SetOfMore(s, 0);
      }
      var got := Get();
      while !got
        invariant Valid() && n <= |s|
        invariant got ==> n == |s| && sleepers == [] && val == (if old(val) > 0 then old(val) else 0)
        invariant !got ==> n < |s| && sleepers == s[n + 1..] && val == old(val) + n + 1
        invariant posts == old(posts) + n + 1 && grants == old(grants) + n + 1
        invariant woken == old(woken) + SetOf(s[..if got then n else n + 1])
        decreases !got, |s| - n
      {
        Post();
        n := n + 1;
        if n < |s| {
          SetOfMore(s, n);
        }
        got := Get();
      }
      assert s[..|s|] == s;
    }

    /** The first half of a wait: take a token, or go to sleep behind those already asleep. */
    method WaitBegin(p: nat) returns (a: Answer)
      requires Valid() && p !in sleepers && p !in woken
      modifies this`val, this`sleepers, this`grants
      ensures Valid() && val == old(val) - 1 && (a == Granted <==> old(val) > 0)
      ensures a == Granted ==> sleepers == old(sleepers) && grants == old(grants) + 1
      ensures a == Blocked ==> sleepers == old(sleepers) + [p] && grants == old(grants)
    {
      val := val - 1;
      if val >= 0 {
        grants := grants + 1;
        return Granted;
      }
      sleepers := sleepers + [p];
      a := Blocked;
    }

    /**
     The second half: a waiter that was given a token leaves with it; one that was
     alerted instead leaves the list without, and the order of the others stays.
     */
    method WaitEnd(p: nat) returns (got: bool)
      requires Valid() && (p in sleepers || p in woken)
      modifies this`val, this`sleepers, this`woken
      ensures Valid() && (got <==> old(p in woken)) && p !in sleepers && p !in woken
      ensures got ==> woken == old(woken) - {p} && sleepers == old(sleepers) && val == old(val)
      ensures !got ==> woken == old(woken) && val == old(val) + 1 <= 0 && grants == old(grants)
      ensures !got ==> exists k :: 0 <= k < |old(sleepers)| && old(sleepers)[k] == p
                                   && sleepers == old(sleepers)[..k] + old(sleepers)[k + 1..]
    {
      got := p in woken;
      if !got {
        val := val + 1;
        assert val <= 0;
        ghost var k :| 0 <= k < |sleepers| && sleepers[k] == p;
        WithoutAt(sleepers, k);
        WithoutDistinct(sleepers, k);
        sleepers := Without(sleepers, p);
      } else {
        woken := woken - {p};
      }
    }
  }
}
