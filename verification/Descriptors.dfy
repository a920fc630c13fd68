/**
 Open files: the system-wide file table, the descriptor slots of the processes, and
 the pipes.  A slot that holds no file is not in the slot map.
 */
module Descriptors {
  const NOFILE := 128

  /** One end of a pipe. */
  datatype End = End(pipe: nat, writable: bool)

  datatype Kind = FD_NONE | FD_PIPE(end: End) | FD_INODE(ip: nat)

  datatype File = File(kind: Kind, ref: nat)

  datatype SlotId = SlotId(pid: nat, fd: nat)

  datatype Flags = Flags(readopen: bool, writeopen: bool)

  /** What a last close gives back. */
  datatype Release = Nothing | PutInode(ip: nat) | ClosePipe(end: End)

  /** CloseWild: the code indexes outside the slots of the process. */
  datatype CloseResult = CloseWild | CloseFailed | CloseDone(release: Release)

  datatype PipeResult = PipePanic | PipeFailed | PipeMade(fd0: nat, fd1: nat)

  type Slots = map<SlotId, nat>

  // ----- reference counts -----

  ghost function Holders(slots: Slots, f: nat): set<SlotId> {
    set s | s in slots && slots[s] == f
  }

  /** Every file is referred to as often as its count says, extra being the references in hand. */
  ghost predicate RefsOk(files: seq<File>, slots: Slots, extra: multiset<nat>) {
    && (forall s :: s in slots ==> slots[s] < |files| && s.fd < NOFILE)
    && (forall f :: f in extra ==> f < |files|)
    && forall f :: 0 <= f < |files| ==> files[f].ref == |Holders(slots, f)| + extra[f]
  }

  /** A file has a type exactly if it has references, except the new ones, which get theirs last. */
  ghost predicate KindsOk(files: seq<File>, untyped: set<nat>) {
    forall f :: 0 <= f < |files| ==>
      if f in untyped then files[f] == File(FD_NONE, 1) else files[f].kind == FD_NONE <==> files[f].ref == 0
  }

  lemma {:induction false} SlotAdded(slots: Slots, s: SlotId, f: nat, g: nat)
    requires s !in slots
    ensures |Holders(slots[s := f], g)| == |Holders(slots, g)| + if g == f then 1 else 0
  {
    if g == f {
      assert Holders(slots[s := f], g) == Holders(slots, g) + {s};
    } else {
      assert Holders(slots[s := f], g) == Holders(slots, g);
    }
  }

  lemma {:induction false} SlotRemoved(slots: Slots, s: SlotId, g: nat)
    requires s in slots
    ensures |Holders(slots - {s}, g)| == |Holders(slots, g)| - if g == slots[s] then 1 else 0
  {
    if g == slots[s] {
      assert Holders(slots - {s}, g) == Holders(slots, g) - {s};
    } else {
      assert Holders(slots - {s}, g) == Holders(slots, g);
    }
  }

  /** A reference in hand is put into a free slot. */
  lemma {:induction false} Installed(files: seq<File>, slots: Slots, extra: multiset<nat>, s: SlotId, f: nat)
    requires RefsOk(files, slots, extra) && s !in slots && s.fd < NOFILE && f in extra
    ensures RefsOk(files, slots[s := f], extra - multiset{f})
  {
    hide Holders;
    forall g | 0 <= g < |files| ensures files[g].ref == |Holders(slots[s := f], g)| + (extra - multiset{f})[g] {
      SlotAdded(slots, s, f, g);
    }
  }

  /** A slot is emptied and its reference is in hand. */
  lemma {:induction false} Removed(files: seq<File>, slots: Slots, extra: multiset<nat>, s: SlotId)
    requires RefsOk(files, slots, extra) && s in slots
    ensures slots[s] < |files| && RefsOk(files, slots - {s}, extra + multiset{slots[s]})
  {
    hide Holders;
    forall g | 0 <= g < |files| ensures files[g].ref == |Holders(slots - {s}, g)| + (extra + multiset{slots[s]})[g] {
      SlotRemoved(slots, s, g);
    }
  }

  lemma {:induction false} Counted(files: seq<File>, slots: Slots, extra: multiset<nat>, f: nat, x: File)
    requires RefsOk(files, slots, extra) && f < |files|
    requires x.ref == files[f].ref + 1
    ensures RefsOk(files[f := x], slots, extra + multiset{f})
  {
    hide Holders;
  }

  lemma {:induction false} Uncounted(files: seq<File>, slots: Slots, extra: multiset<nat>, f: nat, x: File)
    requires RefsOk(files, slots, extra) && f in extra && f < |files| && x.ref == files[f].ref - 1
    ensures RefsOk(files[f := x], slots, extra - multiset{f})
  {
    hide Holders;
  }

  // ----- inode references -----

  ghost function InodeFiles(files: seq<File>, ip: nat): set<nat> {
    set f | 0 <= f < |files| && files[f].kind == FD_INODE(ip)
  }

  /** Every reference taken over by opening an inode has been given back once or is held by one open file. */
  ghost predicate InodesOk(files: seq<File>, taken: multiset<nat>, given: multiset<nat>) {
    forall ip: nat :: taken[ip] == given[ip] + |InodeFiles(files, ip)|
  }

  /** The inode reference that a release gives back. */
  ghost function Puts(r: Release): multiset<nat> {
    if r.PutInode? then multiset{r.ip} else multiset{}
  }

  ghost function PutsOf(rs: seq<Release>): multiset<nat> {
    if rs == [] then multiset{} else PutsOf(rs[..|rs| - 1]) + Puts(rs[|rs| - 1])
  }

  lemma {:induction false} PutsMore(rs: seq<Release>, r: Release)
    ensures PutsOf(rs + [r]) == PutsOf(rs) + Puts(r)
  {
    assert (rs + [r])[..|rs|] == rs;
  }

  lemma {:induction false} PutsNone()
    ensures PutsOf([]) == multiset{} && ClosesOf([]) == multiset{}
  {
  }

  /** The pipe end that a release closes. */
  ghost function Closes(r: Release): multiset<End> {
    if r.ClosePipe? then multiset{r.end} else multiset{}
  }

  ghost function ClosesOf(rs: seq<Release>): multiset<End> {
    if rs == [] then multiset{} else ClosesOf(rs[..|rs| - 1]) + Closes(rs[|rs| - 1])
  }

  lemma {:induction false} ClosesMore(rs: seq<Release>, r: Release)
    ensures ClosesOf(rs + [r]) == ClosesOf(rs) + Closes(r)
  {
    assert (rs + [r])[..|rs|] == rs;
  }

  ghost predicate SameKinds(files: seq<File>, files': seq<File>) {
    |files| == |files'| && forall f :: 0 <= f < |files| ==> files'[f].kind == files[f].kind
  }

  /** Files may have changed their counts and those that are no inode files their types. */
  lemma {:induction false} InodesKept(files: seq<File>, files': seq<File>, taken: multiset<nat>, given: multiset<nat>)
    requires InodesOk(files, taken, given) && |files'| == |files|
    requires forall f :: 0 <= f < |files| ==>
               files'[f].kind == files[f].kind || (!files'[f].kind.FD_INODE? && !files[f].kind.FD_INODE?)
    ensures InodesOk(files', taken, given)
  {
    forall ip: nat ensures InodeFiles(files', ip) == InodeFiles(files, ip) {
    }
  }

  lemma {:induction false} InodeTaken(files: seq<File>, taken: multiset<nat>, given: multiset<nat>, f: nat, ip: nat, x: File)
    requires InodesOk(files, taken, given) && f < |files| && !files[f].kind.FD_INODE? && x.kind == FD_INODE(ip)
    ensures InodesOk(files[f := x], taken + multiset{ip}, given)
  {
    forall i: nat ensures (taken + multiset{ip})[i] == given[i] + |InodeFiles(files[f := x], i)| {
      assert InodeFiles(files[f := x], i) == if i == ip then InodeFiles(files, i) + {f} else InodeFiles(files, i);
    }
  }

  lemma {:induction false} InodeGiven(files: seq<File>, taken: multiset<nat>, given: multiset<nat>, f: nat, ip: nat)
    requires InodesOk(files, taken, given) && f < |files| && files[f].kind == FD_INODE(ip)
    ensures InodesOk(files[f := File(FD_NONE, 0)], taken, given + multiset{ip})
  {
    forall i: nat ensures taken[i] == (given + multiset{ip})[i] + |InodeFiles(files[f := File(FD_NONE, 0)], i)| {
      assert InodeFiles(files[f := File(FD_NONE, 0)], i) == if i == ip then InodeFiles(files, i) - {f} else InodeFiles(files, i);
    }
  }

  // ----- pipes -----

  predicate IsOpen(x: Flags, writable: bool) {
    if writable then x.writeopen else x.readopen
  }

  /** The open ends are exactly those some file stands for, one file each. */
  ghost predicate EndsOk(files: seq<File>, ends: map<End, nat>) {
    && (forall e :: e in ends ==> ends[e] < |files| && files[ends[e]].kind == FD_PIPE(e))
    && forall f :: 0 <= f < |files| && files[f].kind.FD_PIPE? ==> files[f].kind.end in ends && ends[files[f].kind.end] == f
  }

  /**
   A pipe's flags say which of its ends are open; a pipe exists while an end is open;
   each pipe that was made either exists or has been freed, and not both.
   */
  ghost predicate FlagsOk(pipes: map<nat, Flags>, ends: map<End, nat>, freed: set<nat>, made: nat) {
    && (forall e :: e in ends ==> e.pipe in pipes)
    && (forall p, w :: p in pipes ==> (IsOpen(pipes[p], w) <==> End(p, w) in ends))
    && (forall p :: p in pipes ==> pipes[p].readopen || pipes[p].writeopen)
    && (forall p :: p in pipes ==> p < made && p !in freed)
    && forall p :: p in freed <==> 0 <= p < made && p !in pipes
  }

  lemma {:induction false} EndsKept(files: seq<File>, ends: map<End, nat>, f: nat, x: File)
    requires EndsOk(files, ends) && f < |files|
    requires x.kind == files[f].kind || (!x.kind.FD_PIPE? && !files[f].kind.FD_PIPE?)
    ensures EndsOk(files[f := x], ends)
  {
  }

  function ClosedFlags(x: Flags, writable: bool): Flags {
    if writable then x.(writeopen := false) else x.(readopen := false)
  }

  /** The pipes after one end has been closed. */
  function ClosedPipes(pipes: map<nat, Flags>, e: End): map<nat, Flags>
    requires e.pipe in pipes
  {
    var x := ClosedFlags(pipes[e.pipe], e.writable);
    if x.readopen || x.writeopen then pipes[e.pipe := x] else pipes - {e.pipe}
  }

  lemma {:induction false} EndsClosed(files: seq<File>, ends: map<End, nat>, f: nat, e: End)
    requires EndsOk(files, ends) && f < |files| && files[f].kind == FD_PIPE(e)
    ensures e in ends && EndsOk(files[f := File(FD_NONE, 0)], ends - {e})
  {
  }

  lemma {:induction false} FlagsClosed(pipes: map<nat, Flags>, ends: map<End, nat>, freed: set<nat>, made: nat, e: End)
    requires FlagsOk(pipes, ends, freed, made) && e in ends
    ensures e.pipe in pipes && e.pipe !in freed && IsOpen(pipes[e.pipe], e.writable)
    ensures FlagsOk(ClosedPipes(pipes, e), ends - {e}, if e.pipe in ClosedPipes(pipes, e) then freed else freed + {e.pipe}, made)
  {
    var pipes', ends', other := ClosedPipes(pipes, e), ends - {e}, End(e.pipe, !e.writable);
    assert IsOpen(pipes[e.pipe], !e.writable) <==> other in ends;
    forall p, w | p in pipes' ensures IsOpen(pipes'[p], w) <==> End(p, w) in ends' {
      OneEndClosed(pipes, ends, e, p, w);
    }
    hide IsOpen;
    forall d | d in ends' ensures d.pipe in pipes' {
      assert d.pipe == e.pipe ==> d == other;
    }
  }

  lemma {:induction false} OneEndClosed(pipes: map<nat, Flags>, ends: map<End, nat>, e: End, p: nat, w: bool)
    requires e.pipe in pipes && p in ClosedPipes(pipes, e) && (p in pipes ==> (IsOpen(pipes[p], w) <==> End(p, w) in ends))
    ensures IsOpen(ClosedPipes(pipes, e)[p], w) <==> End(p, w) in ends - {e}
  {
  }

  lemma {:induction false} FlagsMade(pipes: map<nat, Flags>, ends: map<End, nat>, freed: set<nat>, made: nat, f: nat, g: nat)
    requires FlagsOk(pipes, ends, freed, made)
    ensures made !in pipes && made !in freed && End(made, false) !in ends && End(made, true) !in ends
    ensures FlagsOk(pipes[made := Flags(true, true)], ends[End(made, false) := f][End(made, true) := g], freed, made + 1)
  {
    var pipes', ends' := pipes[made := Flags(true, true)], ends[End(made, false) := f][End(made, true) := g];
    forall p, w | p in pipes' ensures IsOpen(pipes'[p], w) <==> End(p, w) in ends' {
      if p != made {
        assert IsOpen(pipes[p], w) <==> End(p, w) in ends;
      }
    }
  }

  lemma {:induction false} EndsMade(files: seq<File>, ends: map<End, nat>, e: End, f: nat, x: File)
    requires EndsOk(files, ends) && f < |files| && !files[f].kind.FD_PIPE? && e !in ends && x.kind == FD_PIPE(e)
    ensures EndsOk(files[f := x], ends[e := f])
  {
  }

  // ----- the tables -----

  class Tables {
    var files: seq<File>
    var slots: Slots
    var pipes: map<nat, Flags>
    var made: nat
    ghost var ends: map<End, nat>
    ghost var freed: set<nat>
    ghost var taken: multiset<nat>
    ghost var given: multiset<nat>

    /** The state while a call holds the references extra and has not yet typed the files untyped. */
    ghost predicate Holding(extra: multiset<nat>, untyped: set<nat>)
      reads this
    {
      && RefsOk(files, slots, extra) && KindsOk(files, untyped) && EndsOk(files, ends) && FlagsOk(pipes, ends, freed, made)
      && InodesOk(files, taken, given)
    }

    /** Between calls no reference is in hand. */
    ghost predicate Valid()
      reads this
    {
      Holding(multiset{}, {})
    }

    constructor (nfile: nat)
      ensures Valid() && slots == map[] && |files| == nfile && taken == multiset{} && given == multiset{}
    {
      files := seq(nfile, _ => File(FD_NONE, 0));
      slots, pipes, made, ends, freed := map[], map[], 0, map[], {};
      taken, given := multiset{}, multiset{};
      new;
      forall ip: nat ensures |InodeFiles(files, ip)| == 0 {
        assert InodeFiles(files, ip) == {};
      }
      forall f | 0 <= f < nfile ensures files[f].ref == |Holders(slots, f)| {
        assert Holders(slots, f) == {};
      }
    }

    /** Takes the first free file of the table, if there is one. */
    method FileAlloc(ghost extra: multiset<nat>, ghost untyped: set<nat>) returns (ok: bool, f: nat)
      requires Holding(extra, untyped)
      modifies this`files
      ensures ok <==> exists g :: 0 <= g < |old(files)| && old(files)[g].ref == 0
      ensures !ok ==> files == old(files)
      ensures ok ==> f < |old(files)| && old(files)[f] == File(FD_NONE, 0) && files == old(files)[f := File(FD_NONE, 1)]
      ensures ok ==> f !in untyped && Holding(extra + multiset{f}, untyped + {f})
      ensures ok ==> forall g :: 0 <= g < f ==> old(files)[g].ref != 0
    {
      hide RefsOk, EndsOk, FlagsOk, InodesOk;
      f := 0;
      while f < |files|
        invariant 0 <= f <= |files| && files == old(files) && forall g :: 0 <= g < f ==> files[g].ref != 0
      {
        if files[f].ref == 0 {
          Counted(files, slots, extra, f, File(FD_NONE, 1));
          EndsKept(files, ends, f, File(FD_NONE, 1));
          InodesKept(files, files[f := File(FD_NONE, 1)], taken, given);
          files := files[f := files[f].(ref := 1)];
          return true, f;
        }
        f := f + 1;
      }
      ok := false;
    }

    /** Takes one more reference to an open file. */
    method FileDup(f: nat, ghost extra: multiset<nat>)
      requires Holding(extra, {}) && f < |files| && files[f].ref >= 1
      modifies this`files
      ensures files == old(files)[f := old(files)[f].(ref := old(files)[f].ref + 1)] && Holding(extra + multiset{f}, {})
    {
      hide RefsOk, EndsOk, FlagsOk, InodesOk;
      ghost var x := files[f].(ref := files[f].ref + 1);
      Counted(files, slots, extra, f, x);
      EndsKept(files, ends, f, x);
      InodesKept(files, files[f := x], taken, given);
      files := files[f := files[f].(ref := files[f].ref + 1)];
    }

    /** The first free slot of the process, if there is one. */
    method FreeSlot(pid: nat) returns (ok: bool, fd: nat)
      ensures ok <==> exists i :: 0 <= i < NOFILE && SlotId(pid, i) !in slots
      ensures ok ==> fd < NOFILE && SlotId(pid, fd) !in slots && forall i :: 0 <= i < fd ==> SlotId(pid, i) in slots
    {
      fd := 0;
      while fd < NOFILE
        invariant 0 <= fd <= NOFILE && forall i :: 0 <= i < fd ==> SlotId(pid, i) in slots
      {
        if SlotId(pid, fd) !in slots {
          return true, fd;
        }
        fd := fd + 1;
      }
      ok := false;
    }

    /** Puts a reference in hand into the first free slot of the process, if there is one. */
    method FdAlloc(pid: nat, f: nat, ghost extra: multiset<nat>, ghost untyped: set<nat>) returns (ok: bool, fd: nat)
      requires Holding(extra, untyped) && f in extra
      modifies this`slots
      ensures ok <==> exists i :: 0 <= i < NOFILE && SlotId(pid, i) !in old(slots)
      ensures !ok ==> slots == old(slots)
      ensures ok ==> fd < NOFILE && SlotId(pid, fd) !in old(slots) && slots == old(slots)[SlotId(pid, fd) := f]
      ensures ok ==> Holding(extra - multiset{f}, untyped)
      ensures ok ==> forall i :: 0 <= i < fd ==> SlotId(pid, i) in old(slots)
    {
      hide RefsOk, KindsOk, EndsOk, FlagsOk, InodesOk;
      ok, fd := FreeSlot(pid);
      if ok {
        Installed(files, slots, extra, SlotId(pid, fd), f);
        slots := slots[SlotId(pid, fd) := f];
      }
    }

    /**
     Gives up a reference in hand.  The last one frees the file and releases its inode
     or its end of the pipe; a pipe is freed when its second end goes.
     */
    method FileClose(f: nat, ghost extra: multiset<nat>, ghost untyped: set<nat>) returns (r: Release)
      requires Holding(extra, untyped) && f in extra && f < |files|
      modifies this`files, this`pipes, this`ends, this`freed, this`given
      ensures Holding(extra - multiset{f}, untyped - {f}) && old(files)[f].ref >= 1 && given == old(given) + Puts(r)
      ensures Closed(old(files), old(pipes), old(freed), files, pipes, freed, f, r)
      ensures multiset(old(ends).Keys) == multiset(ends.Keys) + Closes(r)
    {
      hide RefsOk, KindsOk, EndsOk, FlagsOk, Released, InodesOk, EndsLeft;
      HeldOnce(files, slots, extra, f);
      KindsClosed(files, untyped, f);
      var ff := files[f];
      if ff.ref > 1 {
        ghost var x := ff.(ref := ff.ref - 1);
        Uncounted(files, slots, extra, f, x);
        EndsKept(files, ends, f, x);
        InodesKept(files, files[f := x], taken, given);
        files := files[f := ff.(ref := ff.ref - 1)];
        return Nothing;
      }
      Uncounted(files, slots, extra, f, File(FD_NONE, 0));
      LastGone(files, ends, taken, given, f);
      files := files[f := File(FD_NONE, 0)];
      r := Release(ff.kind);
    }

    /** Gives back what a file that has gone stood for. */
    method Release(kind: Kind) returns (r: Release)
      requires FlagsOk(pipes, ends, freed, made) && (kind.FD_PIPE? ==> kind.end in ends)
      modifies this`pipes, this`ends, this`freed, this`given
      ensures FlagsOk(pipes, ends, freed, made) && ends == EndsLeft(old(ends), kind)
      ensures given == old(given) + Owed(kind) && Puts(r) == Owed(kind)
      ensures multiset(old(ends).Keys) == multiset(ends.Keys) + Closes(r)
      ensures Released(old(pipes), old(freed), pipes, freed, kind, r)
    {
      hide FlagsOk, ClosedPipes;
      r := Nothing;
      if kind.FD_PIPE? {
        PipeClose(kind.end);
        r := ClosePipe(kind.end);
      } else if kind.FD_INODE? {
        r := PutInode(kind.ip);
        given := given + multiset{kind.ip};
      }
    }

    /** Closes an end of a pipe, and frees the pipe if the other one is closed already. */
    method PipeClose(e: End)
      requires FlagsOk(pipes, ends, freed, made) && e in ends
      modifies this`pipes, this`ends, this`freed
      ensures FlagsOk(pipes, ends, freed, made) && ends == old(ends) - {e}
      ensures e.pipe in old(pipes) && e.pipe !in old(freed) && pipes == ClosedPipes(old(pipes), e)
      ensures freed == if e.pipe in pipes then old(freed) else old(freed) + {e.pipe}
      ensures var x := Flags(old(pipes)[e.pipe].readopen && e.writable, old(pipes)[e.pipe].writeopen && !e.writable);
              pipes == if x.readopen || x.writeopen then old(pipes)[e.pipe := x] else old(pipes) - {e.pipe}
    {
      FlagsClosed(pipes, ends, freed, made, e);
      hide FlagsOk;
      var x := ClosedFlags(pipes[e.pipe], e.writable);
      if x.readopen || x.writeopen {
        pipes := pipes[e.pipe := x];
      } else {
        pipes := pipes - {e.pipe};
        freed := freed + {e.pipe};
      }
      ends := ends - {e};
    }

    // ----- the system calls -----

    /** Gives a new file, in a slot or in hand, its type. */
    method SetInode(f: nat, ip: nat)
      requires Holding(multiset{}, {f}) && f < |files|
      modifies this`files, this`taken
      ensures Valid() && files == old(files)[f := File(FD_INODE(ip), 1)] && taken == old(taken) + multiset{ip}
    {
      hide EndsOk, FlagsOk, InodesOk;
      EndsKept(files, ends, f, File(FD_INODE(ip), 1));
      InodeTaken(files, taken, given, f, ip, File(FD_INODE(ip), 1));
      files := files[f := files[f].(kind := FD_INODE(ip))];
      taken := taken + multiset{ip};
    }

    /** Gives up a new file that has no type yet. */
    method GiveUp(f: nat)
      requires Holding(multiset{f}, {f}) && f < |files| && files[f] == File(FD_NONE, 1)
      modifies this`files, this`pipes, this`ends, this`freed, this`given
      ensures Valid() && files == old(files)[f := File(FD_NONE, 0)]
      ensures pipes == old(pipes) && freed == old(freed) && given == old(given)
    {
      hide Holding;
      var r := FileClose(f, multiset{f}, {f});
      assert multiset{f} - multiset{f} == multiset{} && {f} - {f} == {};
    }

    /** Opens an inode, whose reference the caller holds: it goes to the file, or stays with the caller on failure. */
    method Open(pid: nat, ip: nat) returns (ok: bool, fd: nat)
      requires Valid()
      modifies this
      ensures Valid() && pipes == old(pipes) && freed == old(freed) && made == old(made) && given == old(given)
      ensures taken == if ok then old(taken) + multiset{ip} else old(taken)
      ensures ok <==> (exists g :: 0 <= g < |old(files)| && old(files)[g].ref == 0)
                      && exists i :: 0 <= i < NOFILE && SlotId(pid, i) !in old(slots)
      ensures !ok ==> files == old(files) && slots == old(slots)
      ensures ok ==> fd < NOFILE && SlotId(pid, fd) !in old(slots) && SlotId(pid, fd) in slots
      ensures ok ==> var f := slots[SlotId(pid, fd)];
                && slots == old(slots)[SlotId(pid, fd) := f] && f < |old(files)| && old(files)[f].ref == 0
                && files == old(files)[f := File(FD_INODE(ip), 1)]
                && (forall g :: 0 <= g < f ==> old(files)[g].ref != 0) && forall i :: 0 <= i < fd ==> SlotId(pid, i) in old(slots)
    {
      hide Holding;
      fd := 0;
      var f;
      ok, f := FileAlloc(multiset{}, {});
      if !ok {
        return;
      }
      assert multiset{} + multiset{f} == multiset{f} && {} + {f} == {f};
      ok, fd := FdAlloc(pid, f, multiset{f}, {f});
      if !ok {
        GiveUp(f);
        assert files == old(files);
        return;
      }
      assert multiset{f} - multiset{f} == multiset{};
      SetInode(f, ip);
    }

    /** Makes another slot refer to the file of slot fd. */
    method Dup(pid: nat, fd: int) returns (ok: bool, fd': nat)
      requires Valid()
      modifies this`files, this`slots
      ensures Valid()
      ensures ok <==> 0 <= fd < NOFILE && SlotId(pid, fd) in old(slots) && exists i :: 0 <= i < NOFILE && SlotId(pid, i) !in old(slots)
      ensures !ok ==> slots == old(slots) && files == old(files)
      ensures ok ==> fd' < NOFILE && SlotId(pid, fd') !in old(slots)
                     && slots == old(slots)[SlotId(pid, fd') := old(slots)[SlotId(pid, fd)]]
      ensures ok ==> var f := old(slots)[SlotId(pid, fd)];
                f < |old(files)| && files == old(files)[f := old(files)[f].(ref := old(files)[f].ref + 1)]
      ensures ok ==> forall i :: 0 <= i < fd' ==> SlotId(pid, i) in old(slots)
    {
      hide RefsOk, KindsOk, EndsOk, FlagsOk, InodesOk;
      fd' := 0;
      if fd < 0 || fd >= NOFILE || SlotId(pid, fd) !in slots {
        return false, 0;
      }
      var f := slots[SlotId(pid, fd)];
      ok, fd' := FreeSlot(pid);
      if !ok {
        return;
      }
      CopiedSlot(files, slots, ends, taken, given, SlotId(pid, fd), SlotId(pid, fd'));
      slots := slots[SlotId(pid, fd') := f];
      files := files[f := files[f].(ref := files[f].ref + 1)];
    }

    /** Makes a pipe between two new files in hand. */
    method MakePipe(f0: nat, f1: nat)
      requires f0 != f1 && Holding(multiset{f0, f1}, {f0, f1}) && f0 < |files| && f1 < |files|
      modifies this`files, this`pipes, this`made, this`ends
      ensures Holding(multiset{f0, f1}, {}) && made == old(made) + 1
      ensures files == old(files)[f0 := File(FD_PIPE(End(old(made), false)), 1)][f1 := File(FD_PIPE(End(old(made), true)), 1)]
      ensures old(made) !in old(pipes) && old(made) !in freed && pipes == old(pipes)[old(made) := Flags(true, true)]
    {
      hide RefsOk, KindsOk, EndsOk, FlagsOk, InodesOk;
      FlagsMade(pipes, ends, freed, made, f0, f1);
      var p := made;
      var x0, x1 := File(FD_PIPE(End(p, false)), 1), File(FD_PIPE(End(p, true)), 1);
      TypedTwo(files, f0, f1, x0, x1);
      EndsMade(files, ends, End(p, false), f0, x0);
      EndsMade(files[f0 := x0], ends[End(p, false) := f0], End(p, true), f1, x1);
      SameRefs(files, files[f0 := x0][f1 := x1], slots, multiset{f0, f1});
      InodesKept(files, files[f0 := x0][f1 := x1], taken, given);
      files := files[f0 := x0][f1 := x1];
      pipes := pipes[p := Flags(true, true)];
      ends := ends[End(p, false) := f0][End(p, true) := f1];
      made := made + 1;
    }

    /** Takes two new files and makes a pipe between them; panics exactly without two free files or memory for the pipe. */
    method PipeAlloc(memory: bool) returns (ok: bool, f0: nat, f1: nat)
      requires Valid()
      modifies this`files, this`pipes, this`made, this`ends
      ensures ok <==> TwoFiles(old(files)) && memory
      ensures ok ==> && Holding(multiset{f0, f1}, {}) && made == old(made) + 1
                     && f0 != f1 && f0 < |old(files)| && f1 < |old(files)|
                     && old(files)[f0] == File(FD_NONE, 0) && old(files)[f1] == File(FD_NONE, 0)
                     && files == old(files)[f0 := File(FD_PIPE(End(old(made), false)), 1)][f1 := File(FD_PIPE(End(old(made), true)), 1)]
                     && old(made) !in old(pipes) && old(made) !in freed && pipes == old(pipes)[old(made) := Flags(true, true)]
                     && (forall g :: 0 <= g < f0 ==> old(files)[g].ref != 0) && f0 < f1
                     && forall g :: f0 < g < f1 ==> old(files)[g].ref != 0
    {
      hide Holding, TwoFiles;
      f1 := 0;
      ok, f0 := FileAlloc(multiset{}, {});
      if !ok {
        NoTwoFiles(files);
        return;
      }
      SecondFile(old(files), f0, files);
      ok, f1 := FileAlloc(multiset{} + multiset{f0}, {} + {f0});
      if !ok {
        return;
      }
      if !memory {
        return false, f0, f1;
      }
      assert multiset{} + multiset{f0} + multiset{f1} == multiset{f0, f1} && {} + {f0} + {f1} == {f0, f1};
      MakePipe(f0, f1);
    }

    /**
     Makes a pipe and two slots for its ends.  It panics exactly without two free files or
     memory for the pipe, and otherwise fails exactly without two free slots; the pipe is then freed again.
     */
    method Pipe2(pid: nat, memory: bool) returns (r: PipeResult)
      requires Valid()
      modifies this
      ensures r == PipePanic <==> !TwoFiles(old(files)) || !memory
      ensures r == PipeFailed <==> TwoFiles(old(files)) && memory && !TwoSlots(old(slots), pid)
      ensures r != PipePanic ==> Valid() && made == old(made) + 1 && taken == old(taken) && given == old(given)
      ensures r == PipeFailed ==> slots == old(slots) && files == old(files) && pipes == old(pipes) && freed == old(freed) + {old(made)}
      ensures r.PipeMade? ==> var s0, s1 := SlotId(pid, r.fd0), SlotId(pid, r.fd1);
                && s0 != s1 && s0 !in old(slots) && s1 !in old(slots) && s0 in slots && s1 in slots
                && slots == old(slots)[s0 := slots[s0]][s1 := slots[s1]] && freed == old(freed)
                && pipes == old(pipes)[old(made) := Flags(true, true)]
                && slots[s0] < |old(files)| && slots[s1] < |old(files)| && slots[s0] != slots[s1]
                && old(files)[slots[s0]].ref == 0 && old(files)[slots[s1]].ref == 0
                && files == old(files)[slots[s0] := File(FD_PIPE(End(old(made), false)), 1)]
                                      [slots[s1] := File(FD_PIPE(End(old(made), true)), 1)]
      ensures r.PipeMade? ==> r.fd0 < r.fd1 && forall i :: 0 <= i < r.fd1 && i != r.fd0 ==> SlotId(pid, i) in old(slots)
    {
      hide Holding, TwoFiles, TwoSlots;
      var ok, f0, f1 := PipeAlloc(memory);
      if !ok {
        return PipePanic;
      }
      var fd0, fd1;
      ok, fd0 := FdAlloc(pid, f0, multiset{f0, f1}, {});
      if !ok {
        NoTwoSlots(slots, pid);
        PipeUndone(f0, f1);
        assert files == old(files) && pipes == old(pipes);
        return PipeFailed;
      }
      assert multiset{f0, f1} - multiset{f0} == multiset{f1} && multiset{f1} - multiset{f1} == multiset{};
      SecondSlot(old(slots), pid, fd0, f0);
      ok, fd1 := FdAlloc(pid, f1, multiset{f1}, {});
      if !ok {
        TakeBack(SlotId(pid, fd0), f0, f1);
        PipeUndone(f0, f1);
        assert slots == old(slots) && files == old(files) && pipes == old(pipes);
        return PipeFailed;
      }
      r := PipeMade(fd0, fd1);
    }

    /** Takes the first end's reference out of its slot again. */
    method TakeBack(s: SlotId, f0: nat, f1: nat)
      requires Holding(multiset{f1}, {}) && s in slots && slots[s] == f0
      modifies this`slots
      ensures Holding(multiset{f0, f1}, {}) && slots == old(slots) - {s}
    {
      hide RefsOk, KindsOk, EndsOk, FlagsOk, InodesOk;
      Removed(files, slots, multiset{f1}, s);
      assert multiset{f1} + multiset{f0} == multiset{f0, f1};
      slots := slots - {s};
    }

    /** Closes both ends of a pipe just made. */
    method PipeUndone(f0: nat, f1: nat)
      requires Holding(multiset{f0, f1}, {}) && f0 != f1 && f0 < |files| && f1 < |files| && made > 0
      requires files[f0] == File(FD_PIPE(End(made - 1, false)), 1) && files[f1] == File(FD_PIPE(End(made - 1, true)), 1)
      requires made - 1 in pipes && pipes[made - 1] == Flags(true, true)
      modifies this`files, this`pipes, this`ends, this`freed, this`given
      ensures given == old(given)
      ensures Valid() && files == old(files)[f0 := File(FD_NONE, 0)][f1 := File(FD_NONE, 0)]
      ensures pipes == old(pipes) - {made - 1} && freed == old(freed) + {made - 1}
    {
      hide Holding;
      assert multiset{f0, f1} - multiset{f0} == multiset{f1} && multiset{f1} - multiset{f1} == multiset{};
      assert {} - {f0} == {} && {} - {f1} == {};
      var r := FileClose(f0, multiset{f0, f1}, {});
      r := FileClose(f1, multiset{f1}, {});
    }

    /** Empties a slot; the file goes with its last slot. */
    method Close(pid: nat, fd: int) returns (r: CloseResult)
      requires Valid()
      modifies this
      ensures r == CloseWild <==> fd < 0 || fd >= NOFILE
      ensures r == CloseFailed <==> 0 <= fd < NOFILE && SlotId(pid, fd) !in old(slots)
      ensures !r.CloseDone? ==> slots == old(slots) && files == old(files) && pipes == old(pipes) && given == old(given)
      ensures !r.CloseDone? ==> freed == old(freed) && ends == old(ends)
      ensures r.CloseDone? ==> given == old(given) + Puts(r.release)
      ensures r.CloseDone? ==> multiset(old(ends).Keys) == multiset(ends.Keys) + Closes(r.release)
      ensures Valid() && taken == old(taken) && OnlyFreed(old(files), files) && made == old(made) && old(freed) <= freed
      ensures r.CloseDone? ==> && slots == old(slots) - {SlotId(pid, fd)} && old(slots)[SlotId(pid, fd)] < |old(files)|
                               && Closed(old(files), old(pipes), old(freed), files, pipes, freed, old(slots)[SlotId(pid, fd)], r.release)
    {
      hide RefsOk, KindsOk, EndsOk, FlagsOk, InodesOk, Closed, OnlyFreed;
      NoneFreed(files);
      if fd < 0 || fd >= NOFILE {
        return CloseWild;
      }
      var s := SlotId(pid, fd);
      if s !in slots {
        return CloseFailed;
      }
      var f := slots[s];
      Removed(files, slots, multiset{}, s);
      slots := slots - {s};
      assert multiset{} + multiset{f} == multiset{f} && multiset{f} - multiset{f} == multiset{} && {} - {f} == {};
      var release := FileClose(f, multiset{f}, {});
      OneFreed(old(files), old(pipes), old(freed), files, pipes, freed, f, release);
      r := CloseDone(release);
    }

    /**
     A process exits: all its slots are emptied, and no other slot.  A file that no slot is
     left for is free, the others keep their types, and exactly the inode references and
     the pipe ends of the files that have gone are given back, each once.
     */
    method Exit(pid: nat) returns (rs: seq<Release>)
      requires Valid()
      modifies this
      ensures Valid() && (forall fd :: SlotId(pid, fd) !in slots) && |files| == |old(files)|
      ensures OthersSame(old(slots), slots, pid)
      ensures forall f :: 0 <= f < |files| ==> files[f].kind == if Holders(slots, f) == {} then FD_NONE else old(files)[f].kind
      ensures taken == old(taken) && given == old(given) + PutsOf(rs)
      ensures forall ip: nat :: PutsOf(rs)[ip] == |InodeFiles(old(files), ip)| - |InodeFiles(files, ip)|
      ensures made == old(made) && forall p :: p in freed <==> p in old(freed) || (p in old(pipes) && p !in pipes)
      ensures forall e :: ClosesOf(rs)[e] == (if EndOpen(old(files), e) then 1 else 0) - (if EndOpen(files, e) then 1 else 0)
    {
      hide Holding, Closed, Puts, PutsOf, Closes, ClosesOf, InodeFiles, OthersSame, OnlyFreed, EndOpen;
      EndsAreFiles();
      FreedPipes();
      InodesBalance();
      PutsNone();
      NoneFreed(files);
      OthersSelf(slots, pid);
      rs := [];
      var i := 0;
      while i < NOFILE
        invariant 0 <= i <= NOFILE && Valid() && forall fd :: 0 <= fd < i ==> SlotId(pid, fd) !in slots
        invariant OthersSame(old(slots), slots, pid) && OnlyFreed(old(files), files)
        invariant taken == old(taken) && given == old(given) + PutsOf(rs) && made == old(made) && old(freed) <= freed
        invariant multiset(old(ends).Keys) == multiset(ends.Keys) + ClosesOf(rs)
      {
        ghost var before, files1 := slots, files;
        var r := Close(pid, i);
        OthersStep(old(slots), before, pid, i);
        FreedTwice(old(files), files1, files);
        if r.CloseDone? {
          PutsMore(rs, r.release);
          ClosesMore(rs, r.release);
          rs := rs + [r.release];
        }
        i := i + 1;
      }
      SlotBounds();
      InodesBalance();
      EndsAreFiles();
      FreedPipes();
      EndsGone(old(ends).Keys, ends.Keys, ClosesOf(rs));
      NoHolder(old(files));
    }

    lemma {:induction false} EndsAreFiles()
      requires Valid()
      ensures forall e :: e in ends <==> EndOpen(files, e)
    {
      hide RefsOk, KindsOk, FlagsOk, InodesOk;
      forall e ensures e in ends <==> EndOpen(files, e) {
        if EndOpen(files, e) {
          var f :| 0 <= f < |files| && files[f].kind == FD_PIPE(e);
        }
      }
    }

    /** The flags of a pipe say which of its ends some file stands for. */
    lemma {:induction false} FlagsAreEnds(p: nat)
      requires Valid() && p in pipes
      ensures pipes[p].readopen <==> EndOpen(files, End(p, false))
      ensures pipes[p].writeopen <==> EndOpen(files, End(p, true))
    {
      EndsAreFiles();
      hide RefsOk, KindsOk, EndsOk, InodesOk, EndOpen;
      assert IsOpen(pipes[p], false) <==> End(p, false) in ends;
      assert IsOpen(pipes[p], true) <==> End(p, true) in ends;
    }

    /** A pipe that was made is there or has been freed. */
    lemma {:induction false} FreedPipes()
      requires Valid()
      ensures forall p :: p in freed <==> 0 <= p < made && p !in pipes
      ensures forall p :: p in pipes ==> p < made
    {
      hide RefsOk, KindsOk, EndsOk, InodesOk;
    }

    lemma {:induction false} InodesBalance()
      requires Valid()
      ensures forall ip: nat :: taken[ip] == given[ip] + |InodeFiles(files, ip)|
    {
    }

    /** A file has a type, and then the one it had, exactly if some slot refers to it. */
    lemma {:induction false} NoHolder(files0: seq<File>)
      requires Valid() && OnlyFreed(files0, files)
      ensures |files| == |files0|
      ensures forall f :: 0 <= f < |files| ==> files[f].kind == if Holders(slots, f) == {} then FD_NONE else files0[f].kind
    {
      hide EndsOk, FlagsOk, InodesOk, Holders;
      forall f | 0 <= f < |files| ensures files[f].kind == if Holders(slots, f) == {} then FD_NONE else files0[f].kind {
        assert files[f].ref == |Holders(slots, f)|;
      }
    }

    lemma {:induction false} SlotBounds()
      requires Valid()
      ensures forall s :: s in slots ==> s.fd < NOFILE
    {
    }

    /** A child gets a slot for every slot of its parent, to the same file. */
    method Fork(parent: nat, child: nat)
      requires Valid() && parent != child && forall fd :: SlotId(child, fd) !in slots
      modifies this`files, this`slots
      ensures Valid()
      ensures forall fd: nat :: (SlotId(child, fd) in slots <==> SlotId(parent, fd) in old(slots))
                           && (SlotId(child, fd) in slots ==> slots[SlotId(child, fd)] == old(slots)[SlotId(parent, fd)])
      ensures OthersSame(old(slots), slots, child) && SameKinds(old(files), files)
    {
      hide RefsOk, KindsOk, EndsOk, FlagsOk, InodesOk;
      SlotBounds();
      var i := 0;
      while i < NOFILE
        invariant 0 <= i <= NOFILE && Valid()
        invariant forall fd: nat :: SlotId(child, fd) in slots <==> SlotId(parent, fd) in old(slots) && fd < i
        invariant forall fd: nat :: SlotId(child, fd) in slots ==> slots[SlotId(child, fd)] == old(slots)[SlotId(parent, fd)]
        invariant OthersSame(old(slots), slots, child) && SameKinds(old(files), files)
      {
        var s := SlotId(parent, i);
        if s in slots {
          CopiedSlot(files, slots, ends, taken, given, s, SlotId(child, i));
          files := files[slots[s] := files[slots[s]].(ref := files[slots[s]].ref + 1)];
          slots := slots[SlotId(child, i) := slots[s]];
        }
        i := i + 1;
      }
    }
  }

  lemma {:induction false} SameRefs(files: seq<File>, files': seq<File>, slots: Slots, extra: multiset<nat>)
    requires RefsOk(files, slots, extra) && |files'| == |files| && forall f :: 0 <= f < |files| ==> files'[f].ref == files[f].ref
    ensures RefsOk(files', slots, extra)
  {
    hide Holders;
  }

  lemma {:induction false} EndsGone(before: set<End>, after: set<End>, gone: multiset<End>)
    requires multiset(before) == multiset(after) + gone
    ensures forall e :: gone[e] == (if e in before then 1 else 0) - (if e in after then 1 else 0)
  {
    forall e ensures gone[e] == (if e in before then 1 else 0) - (if e in after then 1 else 0) {
      assert multiset(before)[e] == (multiset(after) + gone)[e];
    }
  }

  /** Some file stands for the end e of a pipe. */
  ghost predicate EndOpen(files: seq<File>, e: End) {
    exists f :: 0 <= f < |files| && files[f].kind == FD_PIPE(e)
  }

  /** The slots of every process but pid are the same. */
  ghost predicate OthersSame(slots: Slots, slots': Slots, pid: nat) {
    forall s: SlotId :: s.pid != pid ==> (s in slots <==> s in slots') && (s in slots ==> slots[s] == slots'[s])
  }

  lemma {:induction false} OthersSelf(slots: Slots, pid: nat)
    ensures OthersSame(slots, slots, pid)
  {
  }

  lemma {:induction false} OthersStep(slots: Slots, slots': Slots, pid: nat, fd: nat)
    requires OthersSame(slots, slots', pid)
    ensures OthersSame(slots, slots' - {SlotId(pid, fd)}, pid)
  {
  }

  /** A file has its type still or is free. */
  ghost predicate OnlyFreed(files: seq<File>, files': seq<File>) {
    |files| == |files'| && forall f :: 0 <= f < |files| ==> files'[f].kind == files[f].kind || files'[f].kind == FD_NONE
  }

  lemma {:induction false} NoneFreed(files: seq<File>)
    ensures OnlyFreed(files, files)
  {
  }

  lemma {:induction false} OneFreed(files: seq<File>, pipes: map<nat, Flags>, freed: set<nat>,
                                       files': seq<File>, pipes': map<nat, Flags>, freed': set<nat>, f: nat, r: Release)
    requires f < |files| && Closed(files, pipes, freed, files', pipes', freed', f, r)
    ensures OnlyFreed(files, files') && freed <= freed'
  {
    hide ClosedPipes;
  }

  lemma {:induction false} FreedTwice(files: seq<File>, files': seq<File>, files'': seq<File>)
    requires OnlyFreed(files, files') && OnlyFreed(files', files'')
    ensures OnlyFreed(files, files'')
  {
  }

  /** A free slot takes a new reference to the file of slot s. */
  lemma {:induction false} CopiedSlot(files: seq<File>, slots: Slots, ends: map<End, nat>,
                                         taken: multiset<nat>, given: multiset<nat>, s: SlotId, t: SlotId)
    requires RefsOk(files, slots, multiset{}) && KindsOk(files, {}) && EndsOk(files, ends) && InodesOk(files, taken, given)
    requires s in slots && t !in slots && t.fd < NOFILE
    ensures var f := slots[s];
            && f < |files| && files[f].ref >= 1
            && RefsOk(files[f := files[f].(ref := files[f].ref + 1)], slots[t := f], multiset{})
            && KindsOk(files[f := files[f].(ref := files[f].ref + 1)], {})
            && EndsOk(files[f := files[f].(ref := files[f].ref + 1)], ends)
            && InodesOk(files[f := files[f].(ref := files[f].ref + 1)], taken, given)
  {
    hide InodesOk;
    var f := slots[s];
    assert s in Holders(slots, f);
    var x := files[f].(ref := files[f].ref + 1);
    hide Holders;
    Counted(files, slots, multiset{}, f, x);
    assert multiset{} + multiset{f} == multiset{f} && multiset{f} - multiset{f} == multiset{};
    Installed(files[f := x], slots, multiset{f}, t, f);
    EndsKept(files, ends, f, x);
    InodesKept(files, files[f := x], taken, given);
  }

  /** Two files of the table are free. */
  ghost predicate TwoFiles(files: seq<File>) {
    exists f, g :: 0 <= f < g < |files| && files[f].ref == 0 && files[g].ref == 0
  }

  /** Two slots of the process are free. */
  ghost predicate TwoSlots(slots: Slots, pid: nat) {
    exists i, j :: 0 <= i < j < NOFILE && SlotId(pid, i) !in slots && SlotId(pid, j) !in slots
  }

  lemma {:induction false} NoTwoFiles(files: seq<File>)
    requires forall f :: 0 <= f < |files| ==> files[f].ref != 0
    ensures !TwoFiles(files)
  {
  }

  lemma {:induction false} NoTwoSlots(slots: Slots, pid: nat)
    requires forall i :: 0 <= i < NOFILE ==> SlotId(pid, i) in slots
    ensures !TwoSlots(slots, pid)
  {
  }

  /** With one free file taken, another one is left exactly if there were two. */
  lemma {:induction false} SecondFile(files: seq<File>, f: nat, files': seq<File>)
    requires f < |files| == |files'| && files[f].ref == 0 && files'[f].ref != 0
    requires forall g :: 0 <= g < |files| && g != f ==> files'[g] == files[g]
    ensures TwoFiles(files) <==> exists g :: 0 <= g < |files'| && files'[g].ref == 0
  {
    if g :| 0 <= g < |files'| && files'[g].ref == 0 {
      assert files[g].ref == 0;
    }
    if g, h :| 0 <= g < h < |files| && files[g].ref == 0 && files[h].ref == 0 {
      assert files'[if g == f then h else g].ref == 0;
    }
  }

  lemma {:induction false} SecondSlot(slots: Slots, pid: nat, i: nat, f: nat)
    requires i < NOFILE && SlotId(pid, i) !in slots
    ensures TwoSlots(slots, pid) <==> exists j :: 0 <= j < NOFILE && SlotId(pid, j) !in slots[SlotId(pid, i) := f]
  {
    if j :| 0 <= j < NOFILE && SlotId(pid, j) !in slots[SlotId(pid, i) := f] {
      assert SlotId(pid, j) !in slots;
    }
    if j, k :| 0 <= j < k < NOFILE && SlotId(pid, j) !in slots && SlotId(pid, k) !in slots {
      var l := if j == i then k else j;
      assert SlotId(pid, l) !in slots[SlotId(pid, i) := f];
    }
  }

  lemma {:induction false} KindsClosed(files: seq<File>, untyped: set<nat>, f: nat)
    requires KindsOk(files, untyped) && f < |files| && files[f].ref >= 1
    ensures KindsOk(files[f := if files[f].ref > 1 then files[f].(ref := files[f].ref - 1) else File(FD_NONE, 0)], untyped - {f})
  {
  }

  /** Two new files in hand get their types. */
  lemma {:induction false} TypedTwo(files: seq<File>, f: nat, g: nat, x: File, y: File)
    requires f < |files| && g < |files| && f != g && KindsOk(files, {f, g})
    requires x.kind != FD_NONE && y.kind != FD_NONE && x.ref != 0 && y.ref != 0
    ensures files[f] == File(FD_NONE, 1) && files[g] == File(FD_NONE, 1) && KindsOk(files[f := x][g := y], {})
  {
  }

  lemma {:induction false} HeldOnce(files: seq<File>, slots: Slots, extra: multiset<nat>, f: nat)
    requires RefsOk(files, slots, extra) && f in extra && f < |files|
    ensures files[f].ref >= 1
  {
  }

  /** One reference to file f has gone: the file's object is released exactly with the last one. */
  ghost predicate Closed(files: seq<File>, pipes: map<nat, Flags>, freed: set<nat>,
                         files': seq<File>, pipes': map<nat, Flags>, freed': set<nat>, f: nat, r: Release)
    requires f < |files|
  {
    var x := files[f];
    if x.ref > 1 then r == Nothing && files' == files[f := x.(ref := x.ref - 1)] && pipes' == pipes && freed' == freed
    else
      files' == files[f := File(FD_NONE, 0)] && Released(pipes, freed, pipes', freed', x.kind, r)
  }

  /** The inode is put, or the pipe end closed and a pipe without ends freed, and nothing else. */
  ghost predicate Released(pipes: map<nat, Flags>, freed: set<nat>, pipes': map<nat, Flags>, freed': set<nat>, kind: Kind, r: Release) {
    match kind
    case FD_NONE => r == Nothing && pipes' == pipes && freed' == freed
    case FD_INODE(ip) => r == PutInode(ip) && pipes' == pipes && freed' == freed
    case FD_PIPE(e) =>
      && r == ClosePipe(e) && e.pipe in pipes && pipes' == ClosedPipes(pipes, e)
      && e.pipe !in freed && freed' == if e.pipe in pipes' then freed else freed + {e.pipe}
  }

  ghost function EndsLeft(ends: map<End, nat>, kind: Kind): map<End, nat> {
    if kind.FD_PIPE? then ends - {kind.end} else ends
  }

  /** The inode reference that a file of this type holds. */
  ghost function Owed(kind: Kind): multiset<nat> {
    if kind.FD_INODE? then multiset{kind.ip} else multiset{}
  }

  /** A file has gone with its last reference. */
  lemma {:induction false} LastGone(files: seq<File>, ends: map<End, nat>, taken: multiset<nat>, given: multiset<nat>, f: nat)
    requires f < |files| && EndsOk(files, ends) && InodesOk(files, taken, given)
    ensures files[f].kind.FD_PIPE? ==> files[f].kind.end in ends
    ensures EndsOk(files[f := File(FD_NONE, 0)], EndsLeft(ends, files[f].kind))
    ensures InodesOk(files[f := File(FD_NONE, 0)], taken, given + Owed(files[f].kind))
  {
    hide EndsOk, InodesOk;
    match files[f].kind
    case FD_NONE =>
      EndsKept(files, ends, f, File(FD_NONE, 0));
      InodesKept(files, files[f := File(FD_NONE, 0)], taken, given);
      assert given + multiset{} == given;
    case FD_INODE(ip) =>
      EndsKept(files, ends, f, File(FD_NONE, 0));
      InodeGiven(files, taken, given, f, ip);
    case FD_PIPE(e) =>
      EndsClosed(files, ends, f, e);
      InodesKept(files, files[f := File(FD_NONE, 0)], taken, given);
      assert given + multiset{} == given;
  }
}
