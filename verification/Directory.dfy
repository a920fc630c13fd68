/**
 Directories: a file of 16-byte entries, each a 16-bit inode number and a name of
 14 bytes.  An entry with inode number 0 is free.
 */
module Directory {
  import opened Bytes
  import opened FileBlocks
  import opened Inode

  const FILE_NAME_MAX_LENGTH := 14
  const DIRENT_SIZE := 16
  const INODE_DIRECTORY := 1

  /** The 14 bytes at a name pointer. */
  type Name = s: seq<byte> | |s| == FILE_NAME_MAX_LENGTH witness seq(FILE_NAME_MAX_LENGTH, _ => 0)

  type Entry = s: seq<byte> | |s| == DIRENT_SIZE witness seq(DIRENT_SIZE, _ => 0)

  /** The text of a name: its bytes before the first zero. */
  function Text(s: seq<byte>): seq<byte> {
    if s == [] || s[0] == 0 then [] else [s[0]] + Text(s[1..])
  }

  function InodeNo(e: Entry): nat {
    var low: nat, high: nat := e[0], e[1];
    low + 256 * high
  }

  function NameOf(e: Entry): Name {
    e[2..]
  }

  function MakeEntry(no: nat, name: Name): Entry {
    [no % 256, no / 256 % 256] + name
  }

  /** An entry: the number in bytes 0 and 1, low byte first, and the name in bytes 2 to 15. */
  lemma {:induction false} EntryBytes(e: Entry, no: nat, name: Name)
    ensures InodeNo(e) == (e[0] as int) + 256 * (e[1] as int) && NameOf(e) == e[2..16]
    ensures MakeEntry(no, name)[0] == no % 256 && MakeEntry(no, name)[1] == no / 256 % 256
    ensures forall i :: 0 <= i < 14 ==> MakeEntry(no, name)[2 + i] == name[i]
  {
  }

  /** The text of a name ends before the first zero byte, or with the name. */
  lemma {:induction false} TextIs(s: seq<byte>) returns (k: nat)
    ensures k <= |s| && Text(s) == s[..k] && (forall i :: 0 <= i < k ==> s[i] != 0) && (k < |s| ==> s[k] == 0)
  {
    k := 0;
    if s != [] && s[0] != 0 {
      k := TextIs(s[1..]);
      k := k + 1;
    }
  }

  /** Compares two names as strncmp does: up to the first zero byte, at most 14 bytes. */
  method SameName(a: Name, b: Name) returns (same: bool)
    ensures same <==> Text(a) == Text(b)
  {
    hide Text;
    var i := 0;
    while i < FILE_NAME_MAX_LENGTH
      invariant 0 <= i <= FILE_NAME_MAX_LENGTH && a[..i] == b[..i] && forall j :: 0 <= j < i ==> a[j] != 0
    {
      if a[i] != b[i] {
        TextFrom(a, i);
        TextFrom(b, i);
        TextsDiffer(a, b, i);
        return false;
      }
      if a[i] == 0 || b[i] == 0 {
        break;
      }
      i := i + 1;
    }
    TextFrom(a, i);
    TextFrom(b, i);
    assert Text(a[i..]) == Text(b[i..]) by {
      TextEnd(a[i..]);
      TextEnd(b[i..]);
    }
    same := true;
  }

  lemma {:induction false} TextFrom(s: seq<byte>, i: nat)
    requires i <= |s| && forall j :: 0 <= j < i ==> s[j] != 0
    ensures Text(s) == s[..i] + Text(s[i..])
  {
    if i > 0 {
      TextFrom(s[1..], i - 1);
      assert s[1..][i - 1..] == s[i..];
      assert [s[0]] + s[1..][..i - 1] == s[..i];
    } else {
      assert s[0..] == s;
    }
  }

  lemma {:induction false} TextEnd(s: seq<byte>)
    requires s == [] || s[0] == 0
    ensures Text(s) == []
  {
  }

  lemma {:induction false} TextsDiffer(a: Name, b: Name, i: nat)
    requires i < FILE_NAME_MAX_LENGTH && a[i] != b[i]
    requires Text(a) == a[..i] + Text(a[i..]) && Text(b) == b[..i] + Text(b[i..])
    ensures Text(a) != Text(b)
  {
    if a[i] != 0 {
      assert Text(a[i..])[0] == a[i];
      assert Text(a)[i] == a[i];
    } else {
      assert Text(b[i..])[0] == b[i];
      assert Text(b)[i] == b[i];
    }
  }

  // ----- a directory as a finite map -----

  ghost predicate Whole(s: seq<byte>) {
    |s| % DIRENT_SIZE == 0
  }

  function EntryAt(s: seq<byte>, n: nat): Entry
    requires DIRENT_SIZE * n + DIRENT_SIZE <= |s|
  {
    s[DIRENT_SIZE * n..DIRENT_SIZE * n + DIRENT_SIZE]
  }

  ghost predicate InUse(s: seq<byte>, n: int) {
    0 <= n && DIRENT_SIZE * n + DIRENT_SIZE <= |s| && InodeNo(EntryAt(s, n)) != 0
  }

  ghost function TextAt(s: seq<byte>, n: nat): seq<byte>
    requires DIRENT_SIZE * n + DIRENT_SIZE <= |s|
  {
    Text(NameOf(EntryAt(s, n)))
  }

  /** No entry is free. */
  ghost predicate AllUsed(s: seq<byte>) {
    forall n :: 0 <= n && DIRENT_SIZE * n + DIRENT_SIZE <= |s| ==> InUse(s, n)
  }

  /** No name is used twice. */
  ghost predicate Unique(s: seq<byte>) {
    forall m, n :: InUse(s, m) && InUse(s, n) && m != n ==> TextAt(s, m) != TextAt(s, n)
  }

  /** The names a directory binds, with their inode numbers. */
  ghost function Bindings(s: seq<byte>): map<seq<byte>, nat>
    requires Whole(s)
  {
    if s == [] then map[]
    else
      var n := |s| / DIRENT_SIZE - 1;
      var rest := Bindings(s[..DIRENT_SIZE * n]);
      if InUse(s, n) then rest[TextAt(s, n) := InodeNo(EntryAt(s, n))] else rest
  }

  lemma {:induction false} Prefix(s: seq<byte>, k: nat, n: nat)
    requires DIRENT_SIZE * k <= |s| && n < k
    ensures DIRENT_SIZE * n + DIRENT_SIZE <= DIRENT_SIZE * k && EntryAt(s[..DIRENT_SIZE * k], n) == EntryAt(s, n)
  {
  }

  /** Every binding comes from an entry in use. */
  lemma {:induction false} BindingHasEntry(s: seq<byte>, t: seq<byte>) returns (n: nat)
    requires Whole(s) && t in Bindings(s)
    ensures InUse(s, n) && TextAt(s, n) == t && InodeNo(EntryAt(s, n)) == Bindings(s)[t]
  {
    n := |s| / DIRENT_SIZE - 1;
    if !(InUse(s, n) && TextAt(s, n) == t) {
      var k := n;
      n := BindingHasEntry(s[..DIRENT_SIZE * k], t);
      Prefix(s, k, n);
    }
  }

  /** Every entry in use is bound, when no name is used twice. */
  lemma {:induction false} EntryIsBound(s: seq<byte>, n: nat)
    requires Whole(s) && Unique(s) && InUse(s, n)
    ensures TextAt(s, n) in Bindings(s) && Bindings(s)[TextAt(s, n)] == InodeNo(EntryAt(s, n))
  {
    var k := |s| / DIRENT_SIZE - 1;
    if n < k {
      var r := s[..DIRENT_SIZE * k];
      Prefix(s, k, n);
      forall a, b | InUse(r, a) && InUse(r, b) && a != b ensures TextAt(r, a) != TextAt(r, b) {
        Prefix(s, k, a);
        Prefix(s, k, b);
        assert InUse(s, a) && InUse(s, b);
      }
      EntryIsBound(r, n);
      assert InUse(s, k) ==> TextAt(s, k) != TextAt(s, n);
    }
  }

  /** Writing an entry at slot n, which may be the first one past the end. */
  lemma {:induction false} OverwriteEntry(s: seq<byte>, n: nat, e: Entry, j: nat)
    requires Whole(s) && DIRENT_SIZE * n <= |s|
    ensures var s' := Overwrite(s, DIRENT_SIZE * n, e);
            && Whole(s') && |s'| == (if DIRENT_SIZE * n == |s| then |s| + DIRENT_SIZE else |s|)
            && (DIRENT_SIZE * j + DIRENT_SIZE <= |s'| ==>
                  EntryAt(s', j) == if j == n || DIRENT_SIZE * j + DIRENT_SIZE > |s| then e else EntryAt(s, j))
  {
    var s' := Overwrite(s, DIRENT_SIZE * n, e);
    if DIRENT_SIZE * j + DIRENT_SIZE <= |s'| {
      if j < n {
        assert EntryAt(s', j) == EntryAt(s, j);
      } else if j == n {
        assert EntryAt(s', j) == e;
      } else {
        assert EntryAt(s', j) == EntryAt(s, j);
      }
    }
  }

  /** A map is the bindings of s if it has the binding of every entry in use and no other name. */
  lemma {:induction false} BindingsAre(s: seq<byte>, m: map<seq<byte>, nat>)
    requires Whole(s) && Unique(s)
    requires forall n :: InUse(s, n) ==> TextAt(s, n) in m && m[TextAt(s, n)] == InodeNo(EntryAt(s, n))
    requires forall t :: t in m ==> exists n :: InUse(s, n) && TextAt(s, n) == t
    ensures Bindings(s) == m
  {
    forall t | t in Bindings(s) ensures t in m && m[t] == Bindings(s)[t] {
      var n := BindingHasEntry(s, t);
    }
    forall t | t in m ensures t in Bindings(s) {
      var n :| InUse(s, n) && TextAt(s, n) == t;
      EntryIsBound(s, n);
    }
  }

  /** A name is bound to a number exactly by the 16 bytes of some entry: the number, not 0, and then the name. */
  lemma {:induction false} BoundByBytes(s: seq<byte>, t: seq<byte>, no: nat)
    requires Whole(s) && Unique(s)
    ensures t in Bindings(s) && Bindings(s)[t] == no <==>
            no != 0 && exists n :: 0 <= n && 16 * n + 16 <= |s| && BytesBind(s, n, t, no)
  {
    hide Bindings, Unique;
    if t in Bindings(s) && Bindings(s)[t] == no {
      var n := BindingHasEntry(s, t);
      assert BytesBind(s, n, t, no);
    }
    if n :| no != 0 && 0 <= n && 16 * n + 16 <= |s| && BytesBind(s, n, t, no) {
      assert NameOf(EntryAt(s, n)) == s[16 * n + 2..16 * n + 16];
      EntryIsBound(s, n);
    }
  }

  /** Entry n of the bytes s holds the number no and the name with text t. */
  ghost predicate BytesBind(s: seq<byte>, n: nat, t: seq<byte>, no: nat)
    requires 16 * n + 16 <= |s|
  {
    (s[16 * n] as int) + 256 * (s[16 * n + 1] as int) == no && Text(s[16 * n + 2..16 * n + 16]) == t
  }

  /** Which entries are in use after slot n has been written, and what they hold. */
  lemma {:induction false} SlotWritten(s: seq<byte>, n: nat, e: Entry)
    requires Whole(s) && DIRENT_SIZE * n <= |s|
    ensures var s' := Overwrite(s, DIRENT_SIZE * n, e);
            && Whole(s') && (InUse(s', n) <==> InodeNo(e) != 0) && DIRENT_SIZE * n + DIRENT_SIZE <= |s'| && EntryAt(s', n) == e
            && (forall j :: j != n ==> (InUse(s', j) <==> InUse(s, j)))
            && (forall j :: j != n && InUse(s, j) ==> EntryAt(s', j) == EntryAt(s, j))
  {
    var s' := Overwrite(s, DIRENT_SIZE * n, e);
    OverwriteEntry(s, n, e, n);
    forall j | j != n
      ensures InUse(s', j) <==> InUse(s, j)
      ensures InUse(s, j) ==> EntryAt(s', j) == EntryAt(s, j)
    {
      if j >= 0 {
        OverwriteEntry(s, n, e, j);
      }
    }
  }

  /** Filling a free slot, or a new one at the end, adds one binding. */
  lemma {:induction false} InsertBinding(s: seq<byte>, n: nat, e: Entry)
    requires Whole(s) && Unique(s) && DIRENT_SIZE * n <= |s| && !InUse(s, n)
    requires Text(NameOf(e)) !in Bindings(s)
    ensures var s' := Overwrite(s, DIRENT_SIZE * n, e);
            && Whole(s') && Unique(s')
            && Bindings(s') == if InodeNo(e) == 0 then Bindings(s) else Bindings(s)[Text(NameOf(e)) := InodeNo(e)]
  {
    hide Overwrite, EntryAt, InodeNo, Text, Bindings;
    var s', t := Overwrite(s, DIRENT_SIZE * n, e), Text(NameOf(e));
    SlotWritten(s, n, e);
    forall j | InUse(s, j) ensures TextAt(s, j) in Bindings(s) && Bindings(s)[TextAt(s, j)] == InodeNo(EntryAt(s, j)) {
      EntryIsBound(s, j);
    }
    var m := if InodeNo(e) == 0 then Bindings(s) else Bindings(s)[t := InodeNo(e)];
    forall u | u in m ensures exists j :: InUse(s', j) && TextAt(s', j) == u {
      if u in Bindings(s) {
        var j := BindingHasEntry(s, u);
        assert InUse(s', j) && TextAt(s', j) == u;
      } else {
        assert InUse(s', n) && TextAt(s', n) == u;
      }
    }
    BindingsAre(s', m);
  }

  /** Zeroing a slot removes its binding. */
  lemma {:induction false} RemoveBinding(s: seq<byte>, n: nat, e: Entry)
    requires Whole(s) && Unique(s) && DIRENT_SIZE * n < |s| && InodeNo(e) == 0
    ensures DIRENT_SIZE * n + DIRENT_SIZE <= |s|
    ensures var s' := Overwrite(s, DIRENT_SIZE * n, e);
            && Whole(s') && Unique(s') && |s'| == |s|
            && Bindings(s') == if InUse(s, n) then Bindings(s) - {TextAt(s, n)} else Bindings(s)
  {
    hide Overwrite, EntryAt, InodeNo, Text, Bindings, NameOf;
    var s' := Overwrite(s, DIRENT_SIZE * n, e);
    SlotWritten(s, n, e);
    OverwriteEntry(s, n, e, n);
    var m := if InUse(s, n) then Bindings(s) - {TextAt(s, n)} else Bindings(s);
    forall j | InUse(s', j) ensures TextAt(s', j) in m && m[TextAt(s', j)] == InodeNo(EntryAt(s', j)) {
      EntryIsBound(s, j);
      assert TextAt(s', j) == TextAt(s, j);
    }
    forall u | u in m ensures exists j :: InUse(s', j) && TextAt(s', j) == u {
      var j := BindingHasEntry(s, u);
      assert InUse(s', j) && TextAt(s', j) == u;
    }
    BindingsAre(s', m);
  }

  // ----- the operations -----

  /** A loaded directory inode. */
  ghost predicate IsDirectory(fs: FileSystem, ip: MemInode)
    reads fs, ip
  {
    && fs.Valid() && fs.Loaded(ip) && ip.entry.kind == INODE_DIRECTORY
    && ShapeOk(fs.dinodes) && ip.no < |fs.dinodes| && ip.entry == fs.dinodes[ip.no] && ip.entry.numBytes <= INODE_MAX_BYTES
    && Whole(Content(fs.Vol(), ip.no)) && Unique(Content(fs.Vol(), ip.no))
  }

  ghost function Dir(fs: FileSystem, ip: MemInode): map<seq<byte>, nat>
    reads fs, ip
    requires IsDirectory(fs, ip)
  {
    Bindings(Content(fs.Vol(), ip.no))
  }

  /** Reads entry n. */
  method ReadEntry(fs: FileSystem, ip: MemInode, n: nat) returns (e: Entry)
    requires IsDirectory(fs, ip) && DIRENT_SIZE * n < ip.entry.numBytes
    ensures DIRENT_SIZE * n + DIRENT_SIZE <= ip.entry.numBytes && e == EntryAt(Content(fs.Vol(), ip.no), n)
  {
    hide FileSystem.Valid, FileSystem.Loaded, Content;
    var r := fs.Read(ip, DIRENT_SIZE * n, DIRENT_SIZE, []);
    e := r.data;
  }

  /** The inode number bound to a name and the index of its entry, or 0. */
  method Lookup(fs: FileSystem, ip: MemInode, name: Name) returns (no: nat, index: nat)
    requires IsDirectory(fs, ip)
    ensures no != 0 <==> Text(name) in Dir(fs, ip)
    ensures no != 0 ==> Dir(fs, ip)[Text(name)] == no
    ensures no != 0 ==> var s, n := Content(fs.Vol(), ip.no), index / DIRENT_SIZE;
              index == DIRENT_SIZE * n && InUse(s, n) && TextAt(s, n) == Text(name)
  {
    hide FileSystem.Valid, FileSystem.Loaded, Content, EntryAt, Text, Bindings, Unique, InodeNo, NameOf;
    ghost var s := Content(fs.Vol(), ip.no);
    var i := 0;
    while DIRENT_SIZE * i < ip.entry.numBytes
      invariant DIRENT_SIZE * i <= |s| && forall n :: InUse(s, n) && n < i ==> TextAt(s, n) != Text(name)
      decreases |s| - DIRENT_SIZE * i
    {
      var e := ReadEntry(fs, ip, i);
      var same := SameName(NameOf(e), name);
      if InodeNo(e) != 0 && same {
        EntryIsBound(s, i);
        return InodeNo(e), DIRENT_SIZE * i;
      }
      i := i + 1;
    }
    no, index := 0, 0;
    if Text(name) in Bindings(s) {
      ghost var n := BindingHasEntry(s, Text(name));
      assert false;
    }
  }

  /** The first free entry, or the one past the end. */
  method FreeSlot(fs: FileSystem, ip: MemInode) returns (n: nat)
    requires IsDirectory(fs, ip)
    ensures var s := Content(fs.Vol(), ip.no); DIRENT_SIZE * n <= |s| && !InUse(s, n) && forall j :: 0 <= j < n ==> InUse(s, j)
  {
    hide FileSystem.Valid, FileSystem.Loaded, Content, EntryAt, Text, Bindings, Unique, InodeNo;
    ghost var s := Content(fs.Vol(), ip.no);
    n := 0;
    while DIRENT_SIZE * n < ip.entry.numBytes
      invariant DIRENT_SIZE * n <= |s| && forall j :: 0 <= j < n ==> InUse(s, j)
      decreases |s| - DIRENT_SIZE * n
    {
      var e := ReadEntry(fs, ip, n);
      if InodeNo(e) == 0 {
        return;
      }
      n := n + 1;
    }
  }

  /** The first slot that is not in use is inside the directory, where it needs no block, or all are in use. */
  lemma {:induction false} SlotRoom(s: seq<byte>, n: nat)
    requires Whole(s) && DIRENT_SIZE * n <= |s| && !InUse(s, n) && forall j :: 0 <= j < n ==> InUse(s, j)
    ensures AllUsed(s) <==> DIRENT_SIZE * n == |s|
    ensures BlocksNeeded(BlocksFor(|s|), BlocksFor(|s|)) == 0
    ensures DIRENT_SIZE * n < |s| ==>
              DIRENT_SIZE * n + DIRENT_SIZE <= |s| && BlocksNeeded(BlocksFor(|s|), BlocksFor(DIRENT_SIZE * n + DIRENT_SIZE)) == 0
  {
    hide EntryAt, InodeNo;
    if DIRENT_SIZE * n == |s| {
      forall j | 0 <= j && DIRENT_SIZE * j + DIRENT_SIZE <= |s| ensures InUse(s, j) {
        assert j < n;
      }
    } else {
      assert DIRENT_SIZE * n + DIRENT_SIZE <= |s|;
    }
  }

  datatype Inserted = Present | Panicked | Added

  /** Every file but that of ip is as it was. */
  twostate predicate OtherFilesKept(fs: FileSystem, ip: MemInode)
    reads fs, ip
  {
    && fs.Valid() && old(fs.Valid()) && |fs.dinodes| == |old(fs.dinodes)|
    && ip.entry.numLinks == old(ip.entry.numLinks) && MetaKept(old(fs.blocks), fs.blocks, fs.start)
    && (forall j :: 0 <= j < |fs.dinodes| && j != ip.no ==> fs.dinodes[j] == old(fs.dinodes[j]))
    && forall j :: 0 <= j < |fs.dinodes| && j != ip.no && fs.dinodes[j].Live() ==> Content(fs.Vol(), j) == old(Content(fs.Vol(), j))
  }

  /** The first free entry, or a new one at the end, holds the number, low byte first, and the name. */
  ghost predicate PutFirst(s: seq<byte>, s': seq<byte>, no: nat, name: Name) {
    exists n :: 0 <= n && 16 * n <= |s| && !InUse(s, n) && (forall j :: 0 <= j < n ==> InUse(s, j))
                && s' == Overwrite(s, 16 * n, [no % 256, no / 256 % 256] + name)
  }

  lemma {:induction false} PutAt(s: seq<byte>, s': seq<byte>, n: nat, no: nat, name: Name)
    requires DIRENT_SIZE * n <= |s| && !InUse(s, n) && forall j :: 0 <= j < n ==> InUse(s, j)
    requires s' == Overwrite(s, DIRENT_SIZE * n, MakeEntry(no, name))
    ensures PutFirst(s, s', no, name)
  {
  }

  lemma {:induction false} EntryFields(no: nat, name: Name)
    ensures InodeNo(MakeEntry(no, name)) == no % 0x1_0000 && NameOf(MakeEntry(no, name)) == name
  {
  }

  /** A map bound to a number modulo 65536 is the one bound to the number exactly if it fits. */
  lemma {:induction false} BindingFits(m: map<seq<byte>, nat>, t: seq<byte>, no: nat)
    requires t !in m
    ensures (if no % 0x1_0000 == 0 then m else m[t := no % 0x1_0000]) == m[t := no] <==> 0 < no < 0x1_0000
  {
    assert t in m[t := no] && m[t := no][t] == no && m[t := no % 0x1_0000][t] == no % 0x1_0000;
  }

  /**
   Binds a name.  It fails exactly when the name is present.  The entry keeps 16
   bits of the inode number, so the binding is the one asked for exactly when the
   number fits and is not 0.  It panics exactly when the name is absent, no entry is
   free, and the directory cannot grow.
   */
  method Insert(fs: FileSystem, ip: MemInode, name: Name, no: usize) returns (r: Inserted)
    requires IsDirectory(fs, ip)
    modifies fs, ip`entry, ip`valid
    ensures r == Present <==> Text(name) in old(Dir(fs, ip))
    ensures r == Present ==> fs.Vol() == old(fs.Vol()) && ip.entry == old(ip.entry) && ip.valid
    ensures r == Added ==> IsDirectory(fs, ip) && OtherFilesKept(fs, ip)
    ensures r == Added ==>
              var n := old(ip.entry.numBytes); var n' := if AllUsed(old(Content(fs.Vol(), ip.no))) then n + DIRENT_SIZE else n;
              ip.entry.numBytes == n' && fs.Free() == old(fs.Free()) - BlocksNeeded(BlocksFor(n), BlocksFor(n'))
    ensures r == Added ==> PutFirst(old(Content(fs.Vol(), ip.no)), Content(fs.Vol(), ip.no), no, name)
    ensures r == Added ==>
              Dir(fs, ip) == if no % 0x1_0000 == 0 then old(Dir(fs, ip)) else old(Dir(fs, ip))[Text(name) := no % 0x1_0000]
    ensures r == Added ==> (Dir(fs, ip) == old(Dir(fs, ip))[Text(name) := no] <==> 0 < no < 0x1_0000)
    ensures r == Panicked <==>
              && Text(name) !in old(Dir(fs, ip)) && AllUsed(old(Content(fs.Vol(), ip.no)))
              && var n := old(ip.entry.numBytes);
                 n + DIRENT_SIZE > INODE_MAX_BYTES || BlocksNeeded(BlocksFor(n), BlocksFor(n + DIRENT_SIZE)) > old(fs.Free())
  {
    hide Owned, Dense, FileSystem.Free, Content, EntryAt, Text, Bindings, Unique, InodeNo, NameOf, Overwrite, MakeEntry;
    hide BlocksFor, BlocksNeeded, PutFirst;
    ghost var s := Content(fs.Vol(), ip.no);
    var found, index := Lookup(fs, ip, name);
    if found != 0 {
      return Present;
    }
    var n := FreeSlot(fs, ip);
    SlotRoom(s, n);
    var e := MakeEntry(no, name);
    EntryFields(no, name);
    InsertBinding(s, n, e);
    BindingFits(Bindings(s), Text(name), no);
    var ok := fs.Write(ip, e, DIRENT_SIZE * n);
    r := if ok then Added else Panicked;
    if ok {
      ShapeOf(fs.Vol());
      DenseSize(fs.Vol(), ip.no);
      PutAt(s, Content(fs.Vol(), ip.no), n, no, name);
    }
  }

  /** Clears the entry at index, as given by a lookup, and so removes its binding. */
  method Remove(fs: FileSystem, ip: MemInode, index: usize)
    requires IsDirectory(fs, ip) && index % DIRENT_SIZE == 0
    modifies fs, ip`entry, ip`valid
    ensures IsDirectory(fs, ip) && OtherFilesKept(fs, ip) && fs.Free() == old(fs.Free()) && ip.entry.numBytes == old(ip.entry.numBytes)
    ensures var s := old(Content(fs.Vol(), ip.no)); var n := index / DIRENT_SIZE;
            Dir(fs, ip) == if InUse(s, n) then old(Dir(fs, ip)) - {TextAt(s, n)} else old(Dir(fs, ip))
  {
    hide Owned, Dense, FileSystem.Free, Content, EntryAt, Text, Bindings, Unique, InodeNo, NameOf, Overwrite;
    if index < ip.entry.numBytes {
      ghost var s := Content(fs.Vol(), ip.no);
      var zero: Entry := MakeEntry(0, seq(FILE_NAME_MAX_LENGTH, _ => 0));
      EntryFields(0, seq(FILE_NAME_MAX_LENGTH, _ => 0));
      RemoveBinding(s, index / DIRENT_SIZE, zero);
      var ok := fs.Write(ip, zero, index);
      assert ok;
      ShapeOf(fs.Vol());
      DenseSize(fs.Vol(), ip.no);
    }
  }
}
