/**
 The block cache above the log: resident blocks, the in-memory header, the quota
 of each operation of the current group, and the commit that the last operation
 runs.  Each method is one step under the cache and log locks.
 */
module Cache {
  import opened Bytes
  import opened Wal

  const OP_MAX_NUM_BLOCKS := 40
  const EVICTION_THRESHOLD := 1024

  datatype CachedBlock = CachedBlock(no: nat, acquired: bool, pinned: bool, data: Block)

  // ----- the circular list of resident blocks, from its head -----

  ghost predicate OneEach(s: seq<CachedBlock>) {
    forall i, j :: 0 <= i < j < |s| ==> s[i].no != s[j].no
  }

  datatype Found = Absent | Present(b: CachedBlock)

  /** The first block of the list with number n. */
  ghost function Lookup(s: seq<CachedBlock>, n: nat): Found {
    if s == [] then Absent else if s[0].no == n then Present(s[0]) else Lookup(s[1..], n)
  }

  lemma {:induction false} LookupAt(s: seq<CachedBlock>, i: nat)
    requires OneEach(s) && i < |s|
    ensures Lookup(s, s[i].no) == Present(s[i])
  {
    if i > 0 {
      assert s[0].no != s[i].no;
      assert s[1..][i - 1] == s[i];
      LookupAt(s[1..], i - 1);
    }
  }

  lemma {:induction false} LookupIndex(s: seq<CachedBlock>, n: nat) returns (i: nat)
    ensures i <= |s| && (forall j :: 0 <= j < i ==> s[j].no != n)
    ensures i < |s| ==> s[i].no == n && Lookup(s, n) == Present(s[i])
    ensures i == |s| ==> Lookup(s, n) == Absent
  {
    if s == [] || s[0].no == n {
      i := 0;
    } else {
      i := LookupIndex(s[1..], n);
      i := i + 1;
    }
  }

  /** The list with its head moved just past index i. */
  function Rotate(s: seq<CachedBlock>, i: nat): seq<CachedBlock>
    requires i < |s|
  {
    s[i + 1..] + s[..i + 1]
  }

  lemma {:induction false} RotateLookup(s: seq<CachedBlock>, i: nat)
    requires i < |s| && OneEach(s)
    ensures OneEach(Rotate(s, i)) && forall n :: Lookup(Rotate(s, i), n) == Lookup(s, n)
  {
    var r := Rotate(s, i);
    forall n ensures Lookup(r, n) == Lookup(s, n) {
      var j := LookupIndex(s, n);
      var k := LookupIndex(r, n);
      if j < |s| {
        var a := if j > i then j - i - 1 else j + |s| - i - 1;
        assert r[a] == s[j];
        LookupAt(r, a);
      }
    }
  }

  lemma {:induction false} UpdateLookup(s: seq<CachedBlock>, i: nat, b: CachedBlock)
    requires i < |s| && OneEach(s) && b.no == s[i].no
    ensures var r := s[i := b];
            OneEach(r) && forall n :: Lookup(r, n) == if n == b.no then Present(b) else Lookup(s, n)
  {
    var r := s[i := b];
    LookupAt(r, i);
    forall n | n != b.no ensures Lookup(r, n) == Lookup(s, n) {
      var j := LookupIndex(s, n);
      var k := LookupIndex(r, n);
      assert j < |s| ==> r[j] == s[j];
      assert k < |s| ==> r[k] == s[k];
    }
  }

  lemma {:induction false} RemoveLookup(s: seq<CachedBlock>, i: nat)
    requires i < |s| && OneEach(s)
    ensures var r := s[..i] + s[i + 1..];
            OneEach(r) && forall n :: Lookup(r, n) == if n == s[i].no then Absent else Lookup(s, n)
  {
    var r := s[..i] + s[i + 1..];
    forall n ensures Lookup(r, n) == if n == s[i].no then Absent else Lookup(s, n) {
      var j := LookupIndex(s, n);
      var k := LookupIndex(r, n);
      assert k < |r| ==> r[k] == s[if k < i then k else k + 1];
      if j < |s| && j != i {
        var a := if j < i then j else j - 1;
        assert r[a] == s[j];
        LookupAt(r, a);
      }
    }
  }

  lemma {:induction false} AppendLookup(s: seq<CachedBlock>, b: CachedBlock)
    requires OneEach(s) && Lookup(s, b.no).Absent?
    ensures var r := s + [b];
            OneEach(r) && forall n :: Lookup(r, n) == if n == b.no then Present(b) else Lookup(s, n)
  {
    var r := s + [b];
    var i := LookupIndex(s, b.no);
    assert r[|s|] == b;
    LookupAt(r, |s|);
    forall n | n != b.no ensures Lookup(r, n) == Lookup(s, n) {
      var j := LookupIndex(s, n);
      var k := LookupIndex(r, n);
      assert j < |s| ==> r[j] == s[j];
      assert k < |r| ==> k < |s| && r[k] == s[k];
    }
  }

  lemma {:induction false} HeadMoved(s: seq<CachedBlock>, i: nat, b: CachedBlock)
    requires i < |s| && OneEach(s)
    ensures Rotate(s[i := b], i) == s[i + 1..] + s[..i] + [b] && forall j :: 0 <= j < |s| && s[j].no == s[i].no ==> j == i
  {
    assert s[i := b][i + 1..] == s[i + 1..] && s[i := b][..i + 1] == s[..i] + [b];
  }

  /** Some block is neither pinned nor held. */
  ghost predicate SomeIdle(s: seq<CachedBlock>) {
    exists i :: 0 <= i < |s| && !s[i].pinned && !s[i].acquired
  }

  /** Block v is the first idle one when the search starts after the head and ends with it. */
  ghost predicate FirstIdle(s: seq<CachedBlock>, v: int) {
    && 0 <= v < |s| && !s[v].pinned && !s[v].acquired
    && forall j :: 0 < j < (if v == 0 then |s| else v) ==> s[j].pinned || s[j].acquired
  }

  lemma {:induction false} IdleIs(s: seq<CachedBlock>, v: nat)
    ensures FirstIdle(s, v) ==> SomeIdle(s)
    ensures (forall i :: 0 <= i < |s| ==> s[i].pinned || s[i].acquired) ==> !SomeIdle(s)
  {
  }

  /** The quotas that the operations of the group have used up. */
  ghost function Spent(ops: seq<nat>): int {
    if ops == [] then 0 else Spent(ops[..|ops| - 1]) + OP_MAX_NUM_BLOCKS - ops[|ops| - 1]
  }

  lemma {:induction false} SpentUpdate(ops: seq<nat>, i: nat, rm: nat)
    requires i < |ops|
    ensures Spent(ops[i := rm]) == Spent(ops) + ops[i] - rm
  {
    var n := |ops| - 1;
    if i == n {
      assert ops[i := rm][..n] == ops[..n];
    } else {
      assert ops[i := rm][..n] == ops[..n][i := rm];
      SpentUpdate(ops[..n], i, rm);
    }
  }

  lemma {:induction false} SpentBound(ops: seq<nat>)
    requires forall i :: 0 <= i < |ops| ==> ops[i] <= OP_MAX_NUM_BLOCKS
    ensures 0 <= Spent(ops) <= OP_MAX_NUM_BLOCKS * |ops|
  {
    if ops != [] {
      SpentBound(ops[..|ops| - 1]);
    }
  }

  /**
   Nothing reserves log room: a lone operation always fits the header, but two
   operations within their quotas can need more entries than it has.
   */
  lemma {:induction false} QuotasMayOverflow(rm: nat)
    requires rm <= OP_MAX_NUM_BLOCKS
    ensures Spent([rm]) <= LOG_MAX_SIZE
    ensures Spent([rm, 0]) > LOG_MAX_SIZE <==> rm < 17
  {
    assert [rm][..0] == [] && [rm, 0][..1] == [rm];
  }

  lemma {:induction false} SpentAll(n: nat)
    ensures Spent(seq(n, _ => 0)) == OP_MAX_NUM_BLOCKS * n
  {
    if n > 0 {
      SpentAll(n - 1);
      assert seq<nat>(n, _ => 0)[..n - 1] == seq(n - 1, _ => 0);
    }
  }

  /** The quotas of n operations keep their group within room exactly if n full quotas do. */
  lemma {:induction false} QuotasFit(n: nat, room: nat)
    ensures OP_MAX_NUM_BLOCKS * n <= room <==>
            forall ops: seq<nat> :: |ops| == n && (forall i :: 0 <= i < n ==> ops[i] <= OP_MAX_NUM_BLOCKS) ==> Spent(ops) <= room
  {
    forall ops: seq<nat> | |ops| == n && (forall i :: 0 <= i < n ==> ops[i] <= OP_MAX_NUM_BLOCKS)
      ensures Spent(ops) <= OP_MAX_NUM_BLOCKS * n
    {
      SpentBound(ops);
    }
    SpentAll(n);
    var all: seq<nat> := seq(n, _ => 0);
    assert |all| == n && forall i :: 0 <= i < n ==> all[i] <= OP_MAX_NUM_BLOCKS;
  }

  // ----- the numbers in use in a header -----

  ghost predicate InHeader(h: Header, n: nat) {
    exists i :: 0 <= i < h.num && i < |h.blockNo| && h.blockNo[i] == n
  }

  lemma {:induction false} AppendHeader(h: Header, h': Header, no: nat, m: nat)
    requires h.num < |h.blockNo| && |h'.blockNo| == |h.blockNo| && h'.num == h.num + 1
    requires h'.blockNo[h.num] == no && forall i :: 0 <= i < h.num ==> h'.blockNo[i] == h.blockNo[i]
    ensures InHeader(h', m) <==> m == no || InHeader(h, m)
  {
    if InHeader(h, m) {
      var e :| 0 <= e < h.num && e < |h.blockNo| && h.blockNo[e] == m;
      assert h'.blockNo[e] == m;
    }
    if InHeader(h', m) && m != no {
      var e :| 0 <= e < h'.num && e < |h'.blockNo| && h'.blockNo[e] == m;
      assert h.blockNo[e] == m;
    }
  }

  /** g is the group of the header with the contents of the resident copies. */
  ghost predicate IsGroup(h: Header, s: seq<CachedBlock>, g: seq<DeviceWrite>) {
    && |g| == h.num <= |h.blockNo|
    && forall i :: 0 <= i < |g| ==>
         var f := Lookup(s, h.blockNo[i]); f.Present? && g[i] == DeviceWrite(h.blockNo[i], f.b.data)
  }

  ghost function GroupOf(h: Header, s: seq<CachedBlock>): seq<DeviceWrite>
    requires h.num <= |h.blockNo|
  {
    seq(h.num, i requires 0 <= i < h.num =>
      DeviceWrite(h.blockNo[i], if Lookup(s, h.blockNo[i]).Present? then Lookup(s, h.blockNo[i]).b.data else seq(512, _ => 0)))
  }

  ghost function PinnedIn(f: Found): Found {
    if f.Absent? then f else Present(f.b.(pinned := true))
  }

  ghost function Unpinned(f: Found): Found {
    if f.Absent? then f else Present(f.b.(pinned := false, acquired := false))
  }

  /** A commit of a group that fits installs it and changes no view. */
  lemma {:induction false} FittingCommit(a: LogArea, d: Disk, h: Header, g: seq<DeviceWrite>, s: seq<CachedBlock>, s': seq<CachedBlock>)
    requires GroupFor(a, d, h, g) && IsGroup(h, s, g) && InRange(g, |d|) && UnpinnedTo(h, h.num, s, s')
    requires forall i, j :: 0 <= i < j < h.num ==> h.blockNo[i] != h.blockNo[j]
    ensures Reaches(a, |d|, h) && |g| == h.num && CommitTrace(a, d, h, g) == CommitWrites(a, h, g)
    ensures var d' := Apply(d, CommitTrace(a, d, h, g));
            && (forall n: nat :: n < |d| && !a.Holds(n) ==>
                  (if Lookup(s', n).Present? then Lookup(s', n).b.data else d'[n]) ==
                  (if Lookup(s, n).Present? then Lookup(s, n).b.data else d[n]))
            && forall n: nat :: n < |d| && InHeader(h, n) ==> Lookup(s, n).Present? && d'[n] == Lookup(s, n).b.data
  {
    TraceIsCommit(a, d, h, g);
    CommitInstalls(a, d, h, g);
    HomesOnly(a, h);
    hide Lookup, InHeader, UnpinnedTo, IsGroup, Quiet, CommitTrace, CommitWrites, Reaches, Apply;
    CommittedViews(a, d, Apply(d, CommitTrace(a, d, h, g)), h, g, s, s');
  }

  /** No block of a fitting group is in the log area. */
  lemma {:induction false} HomesOnly(a: LogArea, h: Header)
    requires forall i :: 0 <= i < h.num && i < |h.blockNo| ==> !a.Holds(h.blockNo[i])
    ensures forall n: nat :: InHeader(h, n) ==> !a.Holds(n)
  {
  }

  lemma {:induction false} ReplayNone(a: LogArea, d: Disk, h: Header)
    requires Reaches(a, |d|, h)
    ensures ReplayWrites(a, d, h, 0) == [] && Apply(d, []) == d
  {
  }

  lemma {:induction false} GroupSize(h: Header, s: seq<CachedBlock>, g: seq<DeviceWrite>)
    requires IsGroup(h, s, g)
    ensures |g| == h.num <= |h.blockNo|
  {
  }

  /** s' is the list s with the first i blocks of the header unpinned. */
  ghost predicate UnpinnedTo(h: Header, i: Word, s: seq<CachedBlock>, s': seq<CachedBlock>) {
    forall n :: Lookup(s', n) ==
      if InHeader(Header(i, h.blockNo), n) then Unpinned(Lookup(s, n)) else Lookup(s, n)
  }

  lemma {:induction false} UnpinnedStart(h: Header, s: seq<CachedBlock>)
    ensures UnpinnedTo(h, 0, s, s)
  {
  }

  lemma {:induction false} UnpinnedNext(h: Header, i: Word, s: seq<CachedBlock>, s': seq<CachedBlock>, g: seq<DeviceWrite>)
    requires UnpinnedTo(h, i, s, s') && i < h.num <= |h.blockNo| && IsGroup(h, s, g)
    requires forall a, b :: 0 <= a < b < h.num ==> h.blockNo[a] != h.blockNo[b]
    ensures Lookup(s', h.blockNo[i]) == Lookup(s, h.blockNo[i])
    ensures Lookup(s, h.blockNo[i]).Present? && g[i] == DeviceWrite(h.blockNo[i], Lookup(s, h.blockNo[i]).b.data)
  {
    assert !InHeader(Header(i, h.blockNo), h.blockNo[i]);
  }

  lemma {:induction false} UnpinnedStep(h: Header, i: Word, s: seq<CachedBlock>, s1: seq<CachedBlock>, s2: seq<CachedBlock>)
    requires UnpinnedTo(h, i, s, s1) && i < h.num <= |h.blockNo| && h.num < 0x1_0000_0000_0000_0000
    requires Lookup(s1, h.blockNo[i]) == Lookup(s, h.blockNo[i])
    requires Lookup(s2, h.blockNo[i]) == Unpinned(Lookup(s1, h.blockNo[i]))
    requires forall n :: n != h.blockNo[i] ==> Lookup(s2, n) == Lookup(s1, n)
    ensures UnpinnedTo(h, i + 1, s, s2)
  {
    forall n ensures Lookup(s2, n) == if InHeader(Header(i + 1, h.blockNo), n) then Unpinned(Lookup(s, n)) else Lookup(s, n) {
      AppendHeader(Header(i, h.blockNo), Header(i + 1, h.blockNo), h.blockNo[i], n);
    }
  }

  /** After a commit nothing is pinned. */
  lemma {:induction false} CommittedPins(h: Header, s: seq<CachedBlock>, s': seq<CachedBlock>)
    requires UnpinnedTo(h, h.num, s, s')
    requires forall n :: InHeader(h, n) <==> Lookup(s, n).Present? && Lookup(s, n).b.pinned
    ensures forall n :: !(Lookup(s', n).Present? && Lookup(s', n).b.pinned)
    ensures forall n :: !InHeader(Header(0, h.blockNo), n)
  {
    assert Header(h.num, h.blockNo) == h;
  }

  /** After a commit every view outside the log is unchanged, and the group is on disk. */
  lemma {:induction false} CommittedViews(a: LogArea, d: Disk, d': Disk, h: Header, g: seq<DeviceWrite>,
                                          s: seq<CachedBlock>, s': seq<CachedBlock>)
    requires UnpinnedTo(h, h.num, s, s') && IsGroup(h, s, g) && InRange(g, |d|) && HomeEq(a, d', Apply(d, g))
    requires forall i, j :: 0 <= i < j < h.num ==> h.blockNo[i] != h.blockNo[j]
    ensures forall n: nat :: n < |d| && !a.Holds(n) ==>
              (if Lookup(s', n).Present? then Lookup(s', n).b.data else d'[n]) ==
              (if Lookup(s, n).Present? then Lookup(s, n).b.data else d[n])
    ensures forall n: nat :: n < |d| && !a.Holds(n) && InHeader(h, n) ==>
              Lookup(s, n).Present? && d'[n] == Lookup(s, n).b.data
  {
    assert Header(h.num, h.blockNo) == h;
    forall n: nat | n < |d| && !a.Holds(n)
      ensures InHeader(h, n) ==> Lookup(s, n).Present? && d'[n] == Lookup(s, n).b.data
      ensures !InHeader(h, n) ==> d'[n] == d[n]
    {
      if InHeader(h, n) {
        var i :| 0 <= i < h.num && i < |h.blockNo| && h.blockNo[i] == n;
        assert forall j :: i < j < |g| ==> g[j].no != g[i].no;
        ApplyDistinct(d, g, i);
      } else {
        assert forall i :: 0 <= i < |g| ==> g[i].no != n;
        ApplyUntouched(d, g, n);
      }
    }
  }

  lemma {:induction false} QuietElsewhere(a: LogArea, d: Disk, n: nat, b: Block)
    requires Quiet(a, d) && n < |d| && !a.Holds(n)
    ensures Quiet(a, d[n := b])
  {
  }

  /** Overrun: the code stores past the last entry of the header. */
  datatype SyncResult = Synced | Panic | Overrun

  class BlockCache {
    const area: LogArea
    var disk: Disk
    ghost var trace: seq<DeviceWrite>  // every device write, oldest first
    var blocks: seq<CachedBlock>
    var header: Header
    var contributors: nat
    var ops: seq<nat>  // remaining quota of each operation of the group

    /** Block n is in the current group. */
    ghost predicate Logged(n: nat)
      reads this
    {
      InHeader(header, n)
    }

    /** What the file system sees of block n: the resident copy, or the disk. */
    ghost function View(n: nat): Block
      reads this
      requires n < |disk|
    {
      var f := Lookup(blocks, n);
      if f.Present? then f.b.data else disk[n]
    }

    ghost predicate ListOk()
      reads this
    {
      OneEach(blocks) && forall i :: 0 <= i < |blocks| ==> blocks[i].no < |disk|
    }

    /** Holds between any two steps that are not inside a commit. */
    ghost predicate Valid()
      reads this
    {
      && ListOk() && Quiet(area, disk)
      && |header.blockNo| == LOG_MAX_SIZE && header.num <= LOG_MAX_SIZE
      && (forall i, j :: 0 <= i < j < header.num ==> header.blockNo[i] != header.blockNo[j])
      && (forall n :: Logged(n) <==> Lookup(blocks, n).Present? && Lookup(blocks, n).b.pinned)
      && (forall i :: 0 <= i < |ops| ==> ops[i] <= OP_MAX_NUM_BLOCKS)
      && header.num == Spent(ops) && contributors <= |ops|
    }

    /** Start-up: recovery first, then an empty cache. */
    constructor (area: LogArea, disk: Disk)
      requires HeaderOk(area, disk)
      ensures Valid() && blocks == [] && contributors == 0 && ops == [] && header.num == 0
      ensures this.area == area && trace == RecoveryWrites(area, disk)
      ensures HomeEq(area, this.disk, Apply(disk, LoggedGroup(area, disk)))
    {
      hide Encode, Decode, RecoveryWrites, LoggedGroup, Apply, HeaderOk;
      this.area, this.disk, trace := area, disk, [];
      blocks, contributors, ops := [], 0, [];
      header := Header(0, []);
      new;
      CheckIsRecovery(area, disk);
      Checkpoint();
      FullRecovery(area, disk);
      assert forall n :: !Logged(n);
      assert forall n :: Lookup(blocks, n).Absent?;
    }

    /** The index of the block with number no, or the length of the list. */
    method Fetch(no: nat) returns (i: nat)
      ensures i <= |blocks| && (i < |blocks| ==> blocks[i].no == no)
      ensures i == |blocks| ==> forall j :: 0 <= j < |blocks| ==> blocks[j].no != no
    {
      i := 0;
      while i < |blocks|
        invariant i <= |blocks| && forall j :: 0 <= j < i ==> blocks[j].no != no
      {
        if blocks[i].no == no {
          return;
        }
        i := i + 1;
      }
    }

    /** Drops the first block after the head that nobody holds and no log entry needs. */
    method Evict() returns (evicted: bool, ghost v: nat)
      requires ListOk()
      modifies this`blocks
      ensures ListOk()
      ensures !evicted ==> blocks == old(blocks)
      ensures !evicted <==> forall i :: 0 <= i < |old(blocks)| ==> old(blocks)[i].pinned || old(blocks)[i].acquired
      ensures evicted ==> FirstIdle(old(blocks), v) && blocks == old(blocks)[..v] + old(blocks)[v + 1..]
      ensures evicted ==>
                && v < |old(blocks)| && !old(blocks)[v].pinned && !old(blocks)[v].acquired
                && (forall n :: Lookup(blocks, n) == if n == old(blocks)[v].no then Absent else old(Lookup(blocks, n)))
    {
      var k, n := 0, |blocks|;
      v := 0;
      while k < n
        invariant k <= n == |blocks| && blocks == old(blocks)
        invariant forall j :: 0 < j <= k && j < n ==> blocks[j].pinned || blocks[j].acquired
        invariant k == n > 0 ==> blocks[0].pinned || blocks[0].acquired
      {
        var i := if k + 1 < n then k + 1 else 0;
        if !blocks[i].pinned && !blocks[i].acquired {
          RemoveLookup(blocks, i);
          v := i;
          blocks := blocks[..i] + blocks[i + 1..];
          return true, v;
        }
        k := k + 1;
      }
      return false, v;
    }

    /**
     The held copy of block no.  It is what the file system last saw of the block.  A hit
     moves the head past the block.  A miss adds the block at the end; if there are 1024
     blocks or more, the first one after the head that is neither held nor pinned is
     dropped, if there is one.
     */
    method Acquire(no: nat) returns (data: Block)
      requires ListOk() && no < |disk| && (Lookup(blocks, no).Present? ==> !Lookup(blocks, no).b.acquired)
      modifies this`blocks
      ensures ListOk() && data == old(View(no))
      ensures Lookup(blocks, no).Present? && Lookup(blocks, no).b.data == data && Lookup(blocks, no).b.acquired
      ensures Lookup(blocks, no).b.pinned <==> old(Lookup(blocks, no).Present? && Lookup(blocks, no).b.pinned)
      ensures forall n :: n != no ==>
                Lookup(blocks, n) == old(Lookup(blocks, n)) || (Lookup(blocks, n).Absent? && old(Droppable(no, n)))
      ensures old(Valid()) ==> Valid()
      ensures forall i :: 0 <= i < |old(blocks)| && old(blocks)[i].no == no ==>
                blocks == old(blocks)[i + 1..] + old(blocks)[..i] + [old(blocks)[i].(acquired := true)]
      ensures old(Lookup(blocks, no)).Present? ==> |blocks| == |old(blocks)|
      ensures old(Lookup(blocks, no)).Absent? && |old(blocks)| >= 1024 && SomeIdle(old(blocks)) ==>
                && |blocks| == |old(blocks)|
                && exists v ::
                     FirstIdle(old(blocks), v) && blocks == old(blocks)[..v] + old(blocks)[v + 1..] + [CachedBlock(no, true, false, data)]
      ensures old(Lookup(blocks, no)).Absent? && (|old(blocks)| < 1024 || !SomeIdle(old(blocks))) ==>
                |blocks| == |old(blocks)| + 1 && blocks == old(blocks) + [CachedBlock(no, true, false, data)]
    {
      hide Quiet, InHeader, OneEach, Lookup, FirstIdle, SomeIdle;
      var i := Fetch(no);
      ghost var j := LookupIndex(blocks, no);
      if i < |blocks| {
        LookupAt(blocks, i);
        data := blocks[i].data;
        var b := blocks[i].(acquired := true);
        UpdateLookup(blocks, i, b);
        blocks := blocks[i := b];
        RotateLookup(blocks, i);
        blocks := Rotate(blocks, i);
        HeadMoved(old(blocks), i, b);
        return;
      }
      data := Load(no);
    }

    /** Adds the block no, which is absent, and may drop another one for it. */
    method Load(no: nat) returns (data: Block)
      requires ListOk() && no < |disk| && Lookup(blocks, no).Absent?
      modifies this`blocks
      ensures ListOk() && data == disk[no] && Lookup(blocks, no) == Present(CachedBlock(no, true, false, data))
      ensures forall n :: n != no ==>
                Lookup(blocks, n) == old(Lookup(blocks, n)) || (Lookup(blocks, n).Absent? && old(Droppable(no, n)))
      ensures old(Valid()) ==> Valid()
      ensures |old(blocks)| >= 1024 && SomeIdle(old(blocks)) ==>
                && |blocks| == |old(blocks)|
                && exists v ::
                     FirstIdle(old(blocks), v) && blocks == old(blocks)[..v] + old(blocks)[v + 1..] + [CachedBlock(no, true, false, data)]
      ensures |old(blocks)| < 1024 || !SomeIdle(old(blocks)) ==>
                |blocks| == |old(blocks)| + 1 && blocks == old(blocks) + [CachedBlock(no, true, false, data)]
    {
      hide Quiet, InHeader, OneEach, Lookup, FirstIdle, SomeIdle;
      if |blocks| >= EVICTION_THRESHOLD {
        var evicted;
        ghost var v;
        evicted, v := Evict();
        if evicted {
          LookupAt(old(blocks), v);
        }
        IdleIs(old(blocks), v);
      }
      data := disk[no];
      var b := CachedBlock(no, true, false, data);
      AppendLookup(blocks, b);
      blocks := blocks + [b];
    }

    /** An acquire of block no may drop block n: it misses, and n is neither held nor pinned. */
    ghost predicate Droppable(no: nat, n: nat)
      reads this
    {
      && Lookup(blocks, no).Absent?
      && Lookup(blocks, n).Present? && !Lookup(blocks, n).b.acquired && !Lookup(blocks, n).b.pinned
    }

    /** Sets the flags and the data of one resident block, without moving it in the list. */
    method Update(no: nat, acquired: bool, pinned: bool, data: Block)
      requires ListOk() && Lookup(blocks, no).Present?
      modifies this`blocks
      ensures ListOk() && Lookup(blocks, no) == Present(CachedBlock(no, acquired, pinned, data))
      ensures forall n :: n != no ==> Lookup(blocks, n) == old(Lookup(blocks, n))
      ensures old(Valid() && Lookup(blocks, no).b.pinned == pinned) ==> Valid()
      ensures forall i :: 0 <= i < |old(blocks)| && old(blocks)[i].no == no ==>
                blocks == old(blocks)[i := CachedBlock(no, acquired, pinned, data)]
    {
      hide Quiet, InHeader;
      var i := Fetch(no);
      ghost var j := LookupIndex(blocks, no);
      LookupAt(blocks, i);
      var b := CachedBlock(no, acquired, pinned, data);
      UpdateLookup(blocks, i, b);
      blocks := blocks[i := b];
    }

    /** Starts an operation with a full quota. */
    method BeginOp() returns (ctx: nat)
      requires Valid()
      modifies this`contributors, this`ops
      ensures Valid() && contributors == old(contributors) + 1
      ensures ctx == |old(ops)| && ops == old(ops) + [OP_MAX_NUM_BLOCKS]
    {
      contributors := contributors + 1;
      ctx := |ops|;
      assert (ops + [OP_MAX_NUM_BLOCKS])[..ctx] == ops;
      ops := ops + [OP_MAX_NUM_BLOCKS];
    }

    /**
     Puts the held block no into the group of operation ctx.  A block already in
     the group costs nothing; otherwise it costs one unit of quota, takes the next
     header entry and stays resident until the commit.
     */
    method Sync(ctx: nat, no: nat) returns (r: SyncResult)
      requires Valid() && ctx < |ops| && Lookup(blocks, no).Present?
      requires no < 0x1_0000_0000_0000_0000
      modifies this`blocks, this`header, this`ops
      ensures r.Panic? <==> !old(Logged(no)) && old(ops)[ctx] == 0
      ensures r.Overrun? <==> !old(Logged(no)) && old(ops)[ctx] > 0 && old(header).num == LOG_MAX_SIZE
      ensures !r.Synced? || old(Logged(no)) ==> blocks == old(blocks) && header == old(header) && ops == old(ops)
      ensures Valid() && (r.Synced? ==> Logged(no)) && (forall n :: old(Logged(n)) ==> Logged(n))
      ensures forall n: nat :: n < |disk| ==> View(n) == old(View(n))
      ensures r.Synced? && !old(Logged(no)) ==>
                && old(header).num < 63 == |old(header).blockNo| && ops == old(ops)[ctx := old(ops)[ctx] - 1]
                && header == Header(old(header).num + 1, old(header).blockNo[old(header).num := no])
      ensures forall n :: Lookup(blocks, n) == if n == no && r.Synced? then PinnedIn(old(Lookup(blocks, n))) else old(Lookup(blocks, n))
    {
      hide Quiet, OneEach, Lookup;
      var i := 0;
      while i < header.num
        invariant i <= header.num && forall j :: 0 <= j < i ==> header.blockNo[j] != no
      {
        if header.blockNo[i] == no {
          return Synced;
        }
        i := i + 1;
      }
      assert !Logged(no);
      if ops[ctx] == 0 {
        return Panic;
      }
      r := LogBlock(ctx, no);
    }

    /** A sync without a context: the held block goes straight to the device. */
    method WriteThrough(no: nat)
      requires Valid() && no < |disk| && Lookup(blocks, no).Present?
      modifies this`disk, this`trace
      ensures disk == old(disk)[no := old(View(no))] && trace == old(trace) + [DeviceWrite(no, old(View(no)))]
      ensures !area.Holds(no) ==> Valid()
      ensures forall n: nat :: n < |disk| ==> View(n) == old(View(n))
    {
      hide Lookup, InHeader, OneEach, Decode, HeaderOk;
      var k := Fetch(no);
      ghost var j := LookupIndex(blocks, no);
      LookupAt(blocks, k);
      if !area.Holds(no) {
        QuietElsewhere(area, disk, no, blocks[k].data);
      }
      DevWrite(no, blocks[k].data);
    }

    /** The new header entry, the pin and the unit of quota of a block that joins the group. */
    method LogBlock(ctx: nat, no: nat) returns (r: SyncResult)
      requires Valid() && ctx < |ops| && ops[ctx] > 0 && Lookup(blocks, no).Present? && !Logged(no)
      requires no < 0x1_0000_0000_0000_0000
      modifies this`blocks, this`header, this`ops
      ensures r == if old(header).num == LOG_MAX_SIZE then Overrun else Synced
      ensures r == Overrun ==> blocks == old(blocks) && header == old(header) && ops == old(ops)
      ensures r == Synced ==> old(header).num < 63 == |old(header).blockNo|
                              && header == Header(old(header).num + 1, old(header).blockNo[old(header).num := no])
      ensures Valid() && (r == Synced ==> header.num == old(header.num) + 1 && ops == old(ops)[ctx := old(ops[ctx]) - 1])
      ensures r == Synced ==> forall m :: Logged(m) <==> m == no || old(Logged(m))
      ensures forall n: nat :: n < |disk| ==> View(n) == old(View(n))
      ensures r == Synced ==> forall n :: Lookup(blocks, n) == if n == no then PinnedIn(old(Lookup(blocks, n))) else old(Lookup(blocks, n))
    {
      if header.num == LOG_MAX_SIZE {
        return Overrun;
      }
      r := Synced;
      var n := header.num;
      assert forall i :: 0 <= i < n ==> header.blockNo[i] != no;
      hide Quiet, OneEach, InHeader;
      header := Header(n + 1, header.blockNo[n := no]);
      forall m ensures InHeader(header, m) <==> m == no || InHeader(old(header), m) {
        AppendHeader(old(header), header, no, m);
      }
      ghost var b := Lookup(blocks, no).b;
      var k := Fetch(no);
      ghost var j := LookupIndex(blocks, no);
      LookupAt(blocks, k);
      Update(no, blocks[k].acquired, true, blocks[k].data);
      SpentUpdate(ops, ctx, ops[ctx] - 1);
      ops := ops[ctx := ops[ctx] - 1];
    }

    // ----- commit -----

    method DevWrite(n: nat, b: Block)
      requires n < |disk|
      modifies this`disk, this`trace
      ensures disk == old(disk)[n := b] && trace == old(trace) + [DeviceWrite(n, b)]
    {
      disk := disk[n := b];
      trace := trace + [DeviceWrite(n, b)];
    }

    /** Nobody holds a block of the group, and the device has all the slots. */
    ghost predicate ReadyToCommit()
      reads this
    {
      Valid() && area.start + header.num < |disk| && forall i :: 0 <= i < header.num ==> !Lookup(blocks, header.blockNo[i]).b.acquired
    }

    /** The group fits the log area and leaves the log itself alone. */
    ghost predicate Fits()
      reads this
    {
      header.num + 1 <= area.numBlocks && forall i :: 0 <= i < header.num && i < |header.blockNo| ==> !area.Holds(header.blockNo[i])
    }

    /** Copies one block of the group into a slot of the log and lets go of it. */
    method CopyToLog(no: nat, slot: nat)
      requires ListOk() && slot < |disk| && no < |disk|
      requires Lookup(blocks, no).Present? && !Lookup(blocks, no).b.acquired
      modifies this`disk, this`trace, this`blocks
      ensures ListOk() && Lookup(blocks, no) == Unpinned(old(Lookup(blocks, no)))
      ensures forall n :: n != no ==> Lookup(blocks, n) == old(Lookup(blocks, n))
      ensures disk == old(disk)[slot := old(Lookup(blocks, no)).b.data]
      ensures trace == old(trace) + [DeviceWrite(slot, old(Lookup(blocks, no)).b.data)]
    {
      hide Valid, OneEach;
      ghost var k := LookupIndex(blocks, no);
      var data := Acquire(no);
      DevWrite(slot, data);
      Update(no, true, false, data);
      Update(no, false, false, data);
    }

    /** Copies the group, in header order, into the slots after the header. */
    method WriteLog(ghost g: seq<DeviceWrite>)
      requires ReadyToCommit() && IsGroup(header, blocks, g) && Reaches(area, |disk|, header)
      modifies this`disk, this`trace, this`blocks
      ensures trace == old(trace) + LogWrites(area, g)
      ensures InRange(LogWrites(area, g), |old(disk)|) && disk == Apply(old(disk), LogWrites(area, g))
      ensures ListOk() && UnpinnedTo(header, header.num, old(blocks), blocks)
    {
      hide Quiet, OneEach, InHeader, Lookup;
      ghost var lw := LogWrites(area, g);
      UnpinnedStart(header, blocks);
      var i := 0;
      while i < header.num
        invariant i <= header.num && ListOk() && |disk| == |old(disk)|
        invariant trace == old(trace) + lw[..i] && disk == Apply(old(disk), lw[..i])
        invariant UnpinnedTo(header, i, old(blocks), blocks)
      {
        UnpinnedNext(header, i, old(blocks), blocks, g);
        ghost var s := blocks;
        CopyToLog(header.blockNo[i], area.start + i + 1);
        UnpinnedStep(header, i, old(blocks), s, blocks);
        assert lw[..i + 1][..i] == lw[..i] && lw[..i + 1][i] == lw[i];
        i := i + 1;
      }
      assert lw[..|lw|] == lw;
    }

    /** Installs the group that the disk's log describes, slot by slot, and empties the log. */
    method Checkpoint()
      requires area.start < |disk| && Reaches(area, |disk|, Decode(disk[area.start]))
      modifies this`disk, this`trace, this`header
      ensures trace == old(trace) + CheckWrites(area, old(disk)) && disk == Apply(old(disk), CheckWrites(area, old(disk)))
      ensures header == Decode(old(disk)[area.start]).(num := 0)
    {
      hide Encode, Decode, Apply, ReplayWrites;
      ghost var d := disk;
      header := Decode(disk[area.start]);
      ghost var h := header;
      ReplayNone(area, d, h);
      var i := 0;
      while i < header.num
        invariant i <= header.num && header == h && |disk| == |d|
        invariant trace == old(trace) + ReplayWrites(area, d, h, i) && disk == Apply(d, ReplayWrites(area, d, h, i))
      {
        ReplayNext(area, d, h, i);
        var data := disk[area.start + 1 + i];
        DevWrite(header.blockNo[i], data);
        i := i + 1;
      }
      header := header.(num := 0);
      OneWrite(d, ReplayWrites(area, d, h, h.num), HeaderWrite(area, header));
      DevWrite(area.start, Encode(header));
    }

    /** Writes the log, the header, and the check-point. */
    method Commit(ghost g: seq<DeviceWrite>)
      requires ReadyToCommit() && IsGroup(header, blocks, g) && Reaches(area, |disk|, header)
      modifies this`disk, this`trace, this`blocks, this`header
      ensures trace == old(trace) + CommitTrace(area, old(disk), old(header), g)
      ensures disk == Apply(old(disk), CommitTrace(area, old(disk), old(header), g))
      ensures header == old(header).(num := 0)
      ensures ListOk() && UnpinnedTo(old(header), old(header).num, old(blocks), blocks)
    {
      hide Encode, Decode, Lookup, InHeader, OneEach, UnpinnedTo, IsGroup, LogWrites, CheckWrites;
      ghost var d, h, lw, hw := disk, header, LogWrites(area, g), [HeaderWrite(area, header)];
      GroupSize(header, blocks, g);
      HeadSeals(area, d, h, g);
      ApplyAppend(d, lw, hw);
      assert hw[..0] == [];
      WriteLog(g);
      DevWrite(area.start, Encode(header));
      ghost var e := Apply(d, lw + hw);
      assert disk == e;
      Checkpoint();
      ApplyAppend(d, lw + hw, CheckWrites(area, e));
    }

    /** Commits the group; if it fits the log area, no view changes. */
    method CommitGroup() returns (ghost g: seq<DeviceWrite>)
      requires ReadyToCommit() && contributors == 0
      modifies this`disk, this`trace, this`blocks, this`header, this`ops
      ensures Valid() && header.num == 0 && ops == [] && UnpinnedTo(old(header), old(header).num, old(blocks), blocks)
      ensures IsGroup(old(header), old(blocks), g) && Reaches(area, |old(disk)|, old(header)) && |disk| == |old(disk)|
      ensures trace == old(trace) + CommitTrace(area, old(disk), old(header), g)
      ensures disk == Apply(old(disk), CommitTrace(area, old(disk), old(header), g))
      ensures old(Fits()) ==> GroupFor(area, old(disk), old(header), g)
                              && CommitTrace(area, old(disk), old(header), g) == CommitWrites(area, old(header), g)
      ensures old(Fits()) ==> forall n: nat :: n < |disk| && !area.Holds(n) ==> View(n) == old(View(n))
      ensures old(Fits()) ==> forall n: nat :: n < |disk| && old(Logged(n)) ==> disk[n] == old(View(n))
    {
      hide Lookup, UnpinnedTo, IsGroup, CommitWrites, InHeader, OneEach, Apply, CommitTrace, Reaches, GroupFor, Quiet;
      ghost var h, d, s, fits := header, disk, blocks, Fits();
      g := TakeGroup();
      GroupSize(h, s, g);
      Commit(g);
      ops := [];
      CommitQuiets(area, d, h, g);
      CommittedPins(h, s, blocks);
      if fits {
        FittingCommit(area, d, h, g, s, blocks);
      }
    }

    /**
     Ends an operation.  Only the last one of the group commits.  If the group fits the
     log area, then every block of the group is on disk as the file system sees it, and
     no view has changed.
     */
    method EndOp() returns (ghost g: seq<DeviceWrite>)
      requires contributors > 0 && Valid() && (contributors == 1 ==> ReadyToCommit())
      modifies this
      ensures Valid() && contributors == old(contributors) - 1
      ensures contributors > 0 ==> disk == old(disk) && trace == old(trace) && blocks == old(blocks)
      ensures contributors > 0 ==> header == old(header) && ops == old(ops)
      ensures contributors == 0 ==> header.num == 0 && ops == [] && UnpinnedTo(old(header), old(header).num, old(blocks), blocks)
      ensures contributors == 0 ==>
                && IsGroup(old(header), old(blocks), g) && Reaches(area, |old(disk)|, old(header))
                && trace == old(trace) + CommitTrace(area, old(disk), old(header), g)
                && disk == Apply(old(disk), CommitTrace(area, old(disk), old(header), g))
      ensures contributors == 0 && old(Fits()) ==>
                && GroupFor(area, old(disk), old(header), g)
                && CommitTrace(area, old(disk), old(header), g) == CommitWrites(area, old(header), g)
      ensures |disk| == |old(disk)|
      ensures contributors > 0 || old(Fits()) ==> forall n: nat :: n < |disk| && !area.Holds(n) ==> View(n) == old(View(n))
      ensures contributors == 0 && old(Fits()) ==> forall n: nat :: n < |disk| && old(Logged(n)) ==> disk[n] == old(View(n))
    {
      hide Lookup, UnpinnedTo, IsGroup, CommitWrites, InHeader, OneEach, Apply, CommitTrace, Reaches, GroupFor, Quiet;
      g := [];
      contributors := contributors - 1;
      if contributors > 0 {
        return;
      }
      g := CommitGroup();
    }

    /** The group as it is about to be committed. */
    ghost method TakeGroup() returns (g: seq<DeviceWrite>)
      requires ReadyToCommit()
      ensures IsGroup(header, blocks, g) && Reaches(area, |disk|, header) && InRange(g, |disk|)
      ensures Fits() ==> GroupFor(area, disk, header, g)
    {
      assert forall i :: 0 <= i < header.num ==> Logged(header.blockNo[i]);
      hide OneEach, InHeader;
      forall i | 0 <= i < header.num ensures header.blockNo[i] < |disk| {
        var k := LookupIndex(blocks, header.blockNo[i]);
      }
      g := GroupOf(header, blocks);
    }
  }
}
