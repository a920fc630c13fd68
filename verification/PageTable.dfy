/**
 Four-level page tables.  Physical memory is a set of 4096-byte frames named by
 their number: table frames hold 512 entries, data frames hold bytes.
 */
module PageTable {
  import opened Bytes
  import opened Sequences

  const PAGE_SIZE := 4096
  const N_PTE_PER_TABLE := 512
  const FRAME_LIMIT := 0x10_0000_0000
  const KSPACE := 0xFFFF_0000_0000_0000
  const PTE_TABLE := 3

  type Table = t: seq<nat> | |t| == N_PTE_PER_TABLE witness seq(N_PTE_PER_TABLE, _ => 0)

  type Frame = b: seq<byte> | |b| == PAGE_SIZE witness seq(PAGE_SIZE, _ => 0)

  function ZeroTable(): Table {
    seq(N_PTE_PER_TABLE, _ => 0)
  }

  // ----- entries and addresses -----

  /** The valid bit of an entry. */
  predicate Valid(e: nat) {
    e % 2 == 1
  }

  /** The frame an entry points to: bits 12 to 47. */
  function FrameOf(e: nat): nat {
    e / PAGE_SIZE % FRAME_LIMIT
  }

  /** The entry for frame f with low flags lo, high flags hi, and the valid bit set. */
  function MakeEntry(f: nat, lo: nat, hi: nat): nat {
    hi * (FRAME_LIMIT * PAGE_SIZE) + f * PAGE_SIZE + (if lo % 2 == 1 then lo else lo + 1)
  }

  /** The frame is bits 12 to 47 of an entry, and bit 0 says whether it is valid. */
  lemma {:induction false} FrameBits(e: nat)
    ensures FrameOf(e) == e / 4096 % 0x10_0000_0000 && (Valid(e) <==> e % 2 == 1)
  {
  }

  /** An entry for frame f: lo with bit 0 set in bits 0 to 11, f in bits 12 to 47, and hi above. */
  lemma {:induction false} EntryParts(f: nat, lo: nat, hi: nat)
    requires f < FRAME_LIMIT && lo < PAGE_SIZE
    ensures FrameOf(MakeEntry(f, lo, hi)) == f && Valid(MakeEntry(f, lo, hi))
    ensures var e := MakeEntry(f, lo, hi);
            && e % 4096 == (if lo % 2 == 0 then lo + 1 else lo)
            && e / 4096 % 0x10_0000_0000 == f && e / 0x1_0000_0000_0000 == hi
  {
    var l := if lo % 2 == 1 then lo else lo + 1;
    PageOf(hi * FRAME_LIMIT + f, l);
    LowBits(hi * FRAME_LIMIT + f, l);
    HighBits(f * PAGE_SIZE + l, hi);
    assert MakeEntry(f, lo, hi) == (hi * FRAME_LIMIT + f) * PAGE_SIZE + l;
  }

  lemma {:induction false} LowBits(x: nat, l: nat)
    requires l < PAGE_SIZE
    ensures (x * PAGE_SIZE + l) % PAGE_SIZE == l
  {
  }

  lemma {:induction false} HighBits(x: nat, hi: nat)
    requires x < 0x1_0000_0000_0000
    ensures (hi * 0x1_0000_0000_0000 + x) / 0x1_0000_0000_0000 == hi
  {
  }

  lemma {:induction false} PageOf(x: nat, l: nat)
    requires l < PAGE_SIZE
    ensures (x * PAGE_SIZE + l) / PAGE_SIZE == x && (x * PAGE_SIZE + l) % 2 == l % 2
  {
  }

  function Part0(va: nat): nat {
    va / 0x80_0000_0000 % N_PTE_PER_TABLE
  }

  function Part1(va: nat): nat {
    va / 0x4000_0000 % N_PTE_PER_TABLE
  }

  function Part2(va: nat): nat {
    va / 0x20_0000 % N_PTE_PER_TABLE
  }

  function Part3(va: nat): nat {
    va / 0x1000 % N_PTE_PER_TABLE
  }

  function Parts(va: nat): (r: seq<nat>)
    ensures |r| == 4 && forall i :: 0 <= i < 4 ==> r[i] < N_PTE_PER_TABLE
  {
    [Part0(va), Part1(va), Part2(va), Part3(va)]
  }

  /** The four indices of an address are bits 39 to 47, 30 to 38, 21 to 29 and 12 to 20, in this order. */
  lemma {:induction false} PartsAre(va: nat)
    ensures Parts(va) == [va / 0x80_0000_0000 % 512, va / 0x4000_0000 % 512, va / 0x20_0000 % 512, va / 0x1000 % 512]
    ensures Part3(va) == va / 0x1000 % 512 && Parts(va)[..3] == [va / 0x80_0000_0000 % 512, va / 0x4000_0000 % 512, va / 0x20_0000 % 512]
  {
  }

  /** The 36-bit page number of a virtual address. */
  function PageNo(va: nat): nat {
    va / PAGE_SIZE % FRAME_LIMIT
  }

  lemma {:induction false} DivTwice(va: nat)
    ensures va / 0x20_0000 == va / 0x1000 / 512
    ensures va / 0x4000_0000 == va / 0x20_0000 / 512
    ensures va / 0x80_0000_0000 == va / 0x4000_0000 / 512
  {
    assert va == 0x20_0000 * (va / 0x1000 / 512) + (0x1000 * (va / 0x1000 % 512) + va % 0x1000);
    assert va == 0x4000_0000 * (va / 0x20_0000 / 512) + (0x20_0000 * (va / 0x20_0000 % 512) + va % 0x20_0000);
    assert va == 0x80_0000_0000 * (va / 0x4000_0000 / 512) + (0x4000_0000 * (va / 0x4000_0000 % 512) + va % 0x4000_0000);
  }

  lemma {:induction false} TwoDigits(p: nat)
    ensures p % 0x4_0000 == p / 512 % 512 * 512 + p % 512 && p / 0x4_0000 == p / 512 / 512
  {
    assert p == 0x4_0000 * (p / 512 / 512) + (p / 512 % 512 * 512 + p % 512);
  }

  lemma {:induction false} TwoHalves(p: nat)
    ensures p % FRAME_LIMIT == p / 0x4_0000 % 0x4_0000 * 0x4_0000 + p % 0x4_0000
  {
    assert p == FRAME_LIMIT * (p / 0x4_0000 / 0x4_0000) + (p / 0x4_0000 % 0x4_0000 * 0x4_0000 + p % 0x4_0000);
  }

  /** A number modulo 2^36 has four digits to the base 512. */
  lemma {:induction false} Digits(p: nat)
    ensures p % FRAME_LIMIT == ((p / 512 / 512 / 512 % 512 * 512 + p / 512 / 512 % 512) * 512 + p / 512 % 512) * 512 + p % 512
  {
    TwoHalves(p);
    TwoDigits(p);
    TwoDigits(p / 512 / 512);
  }

  lemma {:induction false} PageNoOfParts(va: nat)
    ensures PageNo(va) == ((Part0(va) * 512 + Part1(va)) * 512 + Part2(va)) * 512 + Part3(va)
  {
    DivTwice(va);
    Digits(va / PAGE_SIZE);
  }

  /** The four index fields separate exactly the addresses of different 48-bit pages. */
  lemma {:induction false} PartsSeparate(va: nat, vb: nat)
    ensures Parts(va) == Parts(vb) <==> PageNo(va) == PageNo(vb)
  {
    PageNoOfParts(va);
    PageNoOfParts(vb);
    assert Parts(va)[0] == Part0(va) && Parts(va)[1] == Part1(va) && Parts(va)[2] == Part2(va) && Parts(va)[3] == Part3(va);
    assert Parts(vb)[0] == Part0(vb) && Parts(vb)[1] == Part1(vb) && Parts(vb)[2] == Part2(vb) && Parts(vb)[3] == Part3(vb);
  }

  // ----- the tree of tables -----

  /** Where a table hangs: its root table, the indices that lead to it, and the table it hangs from. */
  datatype Home = Home(root: nat, path: seq<nat>, parent: nat)

  type Tables = map<nat, Table>

  /** The tables form trees of at most four levels, and each hangs where its home says. */
  ghost predicate TreeOk(ts: Tables, home: map<nat, Home>) {
    && ts.Keys == home.Keys
    && (forall t :: t in ts ==> t < FRAME_LIMIT && |home[t].path| <= 3 && HangsOk(ts, home, t))
    && forall t, i :: t in ts && 0 <= i < N_PTE_PER_TABLE && |home[t].path| < 3 && Valid(ts[t][i]) ==> ChildOk(ts, home, t, i)
  }

  ghost predicate ChildOk(ts: Tables, home: map<nat, Home>, t: nat, i: nat)
    requires t in ts && t in home && i < N_PTE_PER_TABLE
  {
    var c := FrameOf(ts[t][i]);
    c in ts && c in home && home[c] == Home(home[t].root, home[t].path + [i], t)
  }

  ghost predicate HangsOk(ts: Tables, home: map<nat, Home>, t: nat)
    requires t in home
  {
    var h := home[t];
    if h.path == [] then h.root == t
    else
      var i := h.path[|h.path| - 1];
      && h.parent in ts && h.parent in home && home[h.parent].root == h.root && home[h.parent].path == h.path[..|h.path| - 1]
      && i < N_PTE_PER_TABLE && Valid(ts[h.parent][i]) && FrameOf(ts[h.parent][i]) == t
  }

  lemma {:induction false} ChildOf(ts: Tables, home: map<nat, Home>, t: nat, i: nat)
    requires TreeOk(ts, home) && t in ts && i < N_PTE_PER_TABLE && |home[t].path| < 3 && Valid(ts[t][i])
    ensures ChildOk(ts, home, t, i)
  {
  }

  lemma {:induction false} HangsOf(ts: Tables, home: map<nat, Home>, t: nat)
    requires TreeOk(ts, home) && t in ts
    ensures HangsOk(ts, home, t)
  {
  }

  lemma {:induction false} TableKeys(ts: Tables, home: map<nat, Home>)
    requires TreeOk(ts, home)
    ensures ts.Keys == home.Keys
  {
  }

  /** Only one table hangs at a place. */
  lemma {:induction false} HomeUnique(ts: Tables, home: map<nat, Home>, t: nat, u: nat)
    requires TreeOk(ts, home) && t in ts && u in ts && home[t].root == home[u].root && home[t].path == home[u].path
    ensures t == u
    decreases |home[t].path|
  {
    assert HangsOk(ts, home, t) && HangsOk(ts, home, u);
    if home[t].path != [] {
      HomeUnique(ts, home, home[t].parent, home[u].parent);
    }
  }

  /** On the way to table l, the entry that leads towards it is valid. */
  lemma {:induction false} OnTheWay(ts: Tables, home: map<nat, Home>, l: nat, u: nat)
    requires TreeOk(ts, home) && l in ts && u in ts && home[l].root == home[u].root
    requires |home[u].path| < |home[l].path| && home[u].path == home[l].path[..|home[u].path|]
    ensures var i := home[l].path[|home[u].path|]; i < N_PTE_PER_TABLE && Valid(ts[u][i])
    decreases |home[l].path|
  {
    assert HangsOk(ts, home, l);
    var p := home[l].parent;
    if |home[u].path| + 1 == |home[l].path| {
      HomeUnique(ts, home, u, p);
    } else {
      assert home[l].path[..|home[l].path| - 1][..|home[u].path|] == home[u].path;
      OnTheWay(ts, home, p, u);
    }
  }

  /** The entry that the indices idx lead to from table t, 0 if a table on the way is missing. */
  ghost function EntryFrom(ts: Tables, t: nat, idx: seq<nat>): nat
    decreases |idx|
  {
    if idx == [] || t !in ts || idx[0] >= N_PTE_PER_TABLE then 0
    else if |idx| == 1 then ts[t][idx[0]]
    else if Valid(ts[t][idx[0]]) then EntryFrom(ts, FrameOf(ts[t][idx[0]]), idx[1..])
    else 0
  }

  /** A page table as a flat map from virtual addresses to leaf entries, 0 where nothing is mapped. */
  ghost function Entry(ts: Tables, root: nat, va: nat): nat {
    EntryFrom(ts, root, Parts(va))
  }

  /** A translation goes through three valid table entries, each holding the frame of the next table, to the leaf. */
  lemma {:induction false} EntryLevels(ts: Tables, root: nat, va: nat)
    requires root in ts
    ensures var e0 := ts[root][va / 0x80_0000_0000 % 512];
            var t1 := e0 / 4096 % 0x10_0000_0000;
            if e0 % 2 == 0 || t1 !in ts then Entry(ts, root, va) == 0
            else
              var e1 := ts[t1][va / 0x4000_0000 % 512];
              var t2 := e1 / 4096 % 0x10_0000_0000;
              if e1 % 2 == 0 || t2 !in ts then Entry(ts, root, va) == 0
              else
                var e2 := ts[t2][va / 0x20_0000 % 512];
                var t3 := e2 / 4096 % 0x10_0000_0000;
                if e2 % 2 == 0 || t3 !in ts then Entry(ts, root, va) == 0 else Entry(ts, root, va) == ts[t3][va / 0x1000 % 512]
  {
    PartsAre(va);
    var p := Parts(va);
    hide Parts;
    assert p[1..][0] == p[1] && p[1..][1..] == p[2..] && p[2..][0] == p[2] && p[2..][1..] == p[3..] && p[3..][0] == p[3];
    LevelStep(ts, root, p);
    var t1 := FrameOf(ts[root][p[0]]);
    LevelStep(ts, t1, p[1..]);
    if t1 in ts {
      var t2 := FrameOf(ts[t1][p[1]]);
      LevelStep(ts, t2, p[2..]);
      if t2 in ts {
        LevelStep(ts, FrameOf(ts[t2][p[2]]), p[3..]);
      }
    }
  }

  lemma {:induction false} LevelStep(ts: Tables, t: nat, idx: seq<nat>)
    requires idx != [] && idx[0] < N_PTE_PER_TABLE
    ensures EntryFrom(ts, t, idx) ==
            if t !in ts then 0 else if |idx| == 1 then ts[t][idx[0]]
            else if Valid(ts[t][idx[0]]) then EntryFrom(ts, FrameOf(ts[t][idx[0]]), idx[1..]) else 0
  {
  }

  /** How many tables are missing on the way that the indices idx lead from table t. */
  ghost function MissingFrom(ts: Tables, t: nat, idx: seq<nat>): nat
    decreases |idx|
  {
    if |idx| <= 1 then 0
    else if t in ts && idx[0] < N_PTE_PER_TABLE && Valid(ts[t][idx[0]]) then MissingFrom(ts, FrameOf(ts[t][idx[0]]), idx[1..])
    else |idx| - 1
  }

  /** How many tables an address still needs in a page table. */
  ghost function MissingTables(ts: Tables, root: nat, va: nat): nat {
    MissingFrom(ts, root, Parts(va))
  }

  /** An address with an entry needs no table. */
  lemma {:induction false} MappedMissesNone(ts: Tables, t: nat, idx: seq<nat>)
    requires EntryFrom(ts, t, idx) != 0
    ensures MissingFrom(ts, t, idx) == 0
    decreases |idx|
  {
    hide Valid, FrameOf;
    if |idx| > 1 {
      MappedMissesNone(ts, FrameOf(ts[t][idx[0]]), idx[1..]);
    }
  }

  lemma {:induction false} ZeroMissing(ts: Tables, c: nat, idx: seq<nat>)
    requires c in ts && ts[c] == ZeroTable() && idx != []
    ensures MissingFrom(ts, c, idx) == |idx| - 1
  {
  }

  /** A new empty table c is hung at entry i of table t, which was not valid. */
  ghost function Hung(ts: Tables, t: nat, i: nat, c: nat): Tables
    requires t in ts && i < N_PTE_PER_TABLE
  {
    ts[t := ts[t][i := MakeEntry(c, PTE_TABLE, 0)]][c := ZeroTable()]
  }

  lemma {:induction false} ZeroEntry(ts: Tables, c: nat, idx: seq<nat>)
    requires c in ts && ts[c] == ZeroTable()
    ensures EntryFrom(ts, c, idx) == 0
  {
  }

  lemma {:induction false} HangKeepsEntry(ts: Tables, home: map<nat, Home>, t: nat, i: nat, c: nat, u: nat, idx: seq<nat>)
    requires TreeOk(ts, home) && t in ts && i < N_PTE_PER_TABLE && |home[t].path| < 3 && !Valid(ts[t][i])
    requires c !in ts && c < FRAME_LIMIT && u in ts && |home[u].path| + |idx| == 4
    ensures EntryFrom(Hung(ts, t, i, c), u, idx) == EntryFrom(ts, u, idx)
    decreases |idx|
  {
    hide TreeOk, Valid, FrameOf, MakeEntry, ZeroTable;
    TableKeys(ts, home);
    var ts' := Hung(ts, t, i, c);
    EntryParts(c, PTE_TABLE, 0);
    if |idx| > 1 && idx[0] < N_PTE_PER_TABLE {
      if u == t && idx[0] == i {
        ZeroEntry(ts', c, idx[1..]);
      } else if Valid(ts[u][idx[0]]) {
        ChildOf(ts, home, u, idx[0]);
        HangKeepsEntry(ts, home, t, i, c, FrameOf(ts[u][idx[0]]), idx[1..]);
      }
    }
  }

  /** Every page table translates as before. */
  ghost predicate SameMap(ts: Tables, home: map<nat, Home>, ts': Tables) {
    && ts.Keys <= home.Keys && ts.Keys <= ts'.Keys
    && forall r, va: nat :: r in ts && home[r].path == [] ==> Entry(ts', r, va) == Entry(ts, r, va)
  }

  lemma {:induction false} HangOk(ts: Tables, home: map<nat, Home>, t: nat, i: nat, c: nat)
    requires TreeOk(ts, home) && t in ts && i < N_PTE_PER_TABLE && |home[t].path| < 3 && !Valid(ts[t][i])
    requires c !in ts && c < FRAME_LIMIT
    ensures TreeOk(Hung(ts, t, i, c), home[c := Home(home[t].root, home[t].path + [i], t)])
    ensures SameMap(ts, home, Hung(ts, t, i, c))
  {
    hide FrameOf, MakeEntry, EntryFrom;
    HangTree(ts, home, t, i, c);
    hide TreeOk;
    TableKeys(ts, home);
    forall r, va: nat | r in ts && home[r].path == [] ensures Entry(Hung(ts, t, i, c), r, va) == Entry(ts, r, va) {
      HangKeepsEntry(ts, home, t, i, c, r, Parts(va));
    }
  }

  lemma {:induction false} HangTree(ts: Tables, home: map<nat, Home>, t: nat, i: nat, c: nat)
    requires TreeOk(ts, home) && t in ts && i < N_PTE_PER_TABLE && |home[t].path| < 3 && !Valid(ts[t][i])
    requires c !in ts && c < FRAME_LIMIT
    ensures TreeOk(Hung(ts, t, i, c), home[c := Home(home[t].root, home[t].path + [i], t)])
  {
    hide FrameOf, MakeEntry, ChildOk, HangsOk;
    var ts', home' := Hung(ts, t, i, c), home[c := Home(home[t].root, home[t].path + [i], t)];
    assert ts'.Keys == home'.Keys;
    forall u, j | u in ts' && 0 <= j < N_PTE_PER_TABLE && |home'[u].path| < 3 && Valid(ts'[u][j])
      ensures ChildOk(ts', home', u, j)
    {
      HungChild(ts, home, t, i, c, u, j);
    }
    forall u | u in ts' ensures HangsOk(ts', home', u) {
      HungHome(ts, home, t, i, c, u);
    }
  }

  lemma {:induction false} HungChild(ts: Tables, home: map<nat, Home>, t: nat, i: nat, c: nat, u: nat, j: nat)
    requires TreeOk(ts, home) && t in ts && i < N_PTE_PER_TABLE && |home[t].path| < 3 && !Valid(ts[t][i])
    requires c !in ts && c < FRAME_LIMIT && (u in ts || u == c) && j < N_PTE_PER_TABLE && Valid(Hung(ts, t, i, c)[u][j])
    requires u in ts ==> |home[u].path| < 3
    ensures u in home && ChildOk(Hung(ts, t, i, c), home[c := Home(home[t].root, home[t].path + [i], t)], u, j)
  {
    hide TreeOk, FrameOf, MakeEntry;
    TableKeys(ts, home);
    EntryParts(c, PTE_TABLE, 0);
    assert u != c;
    if u != t || j != i {
      ChildOf(ts, home, u, j);
    }
  }

  lemma {:induction false} HungHome(ts: Tables, home: map<nat, Home>, t: nat, i: nat, c: nat, u: nat)
    requires TreeOk(ts, home) && t in ts && i < N_PTE_PER_TABLE && |home[t].path| < 3 && !Valid(ts[t][i])
    requires c !in ts && c < FRAME_LIMIT && (u in ts || u == c)
    ensures HangsOk(Hung(ts, t, i, c), home[c := Home(home[t].root, home[t].path + [i], t)], u)
  {
    hide TreeOk, FrameOf, MakeEntry, Valid;
    TableKeys(ts, home);
    EntryParts(c, PTE_TABLE, 0);
    if u != c {
      HangsOf(ts, home, u);
    }
  }

  /** Setting entry i of leaf table l changes the map at the one place that leads there. */
  lemma {:induction false} SetLeafEntry(ts: Tables, home: map<nat, Home>, l: nat, i: nat, e: nat, u: nat, idx: seq<nat>)
    requires TreeOk(ts, home) && l in ts && i < N_PTE_PER_TABLE && |home[l].path| == 3
    requires u in ts && |home[u].path| + |idx| == 4 && forall j :: 0 <= j < |idx| ==> idx[j] < N_PTE_PER_TABLE
    ensures EntryFrom(ts[l := ts[l][i := e]], u, idx) ==
            if home[l].root == home[u].root && home[l].path == home[u].path + idx[..|idx| - 1] && idx[|idx| - 1] == i then e
            else EntryFrom(ts, u, idx)
    decreases |idx|
  {
    hide TreeOk, Valid, FrameOf;
    TableKeys(ts, home);
    var ts' := ts[l := ts[l][i := e]];
    if |idx| > 1 {
      assert u != l;
      if Valid(ts[u][idx[0]]) {
        ChildOf(ts, home, u, idx[0]);
        var c := FrameOf(ts[u][idx[0]]);
        assert home[u].path + idx[..|idx| - 1] == home[c].path + idx[1..][..|idx| - 2];
        SetLeafEntry(ts, home, l, i, e, c, idx[1..]);
      } else if home[l].root == home[u].root && home[l].path == home[u].path + idx[..|idx| - 1] {
        OnTheWay(ts, home, l, u);
      }
    } else {
      assert idx[..0] == [];
      if home[l].root == home[u].root && home[l].path == home[u].path {
        HomeUnique(ts, home, l, u);
      }
    }
  }

  lemma {:induction false} SetLeafOk(ts: Tables, home: map<nat, Home>, l: nat, i: nat, e: nat)
    requires TreeOk(ts, home) && l in ts && i < N_PTE_PER_TABLE && |home[l].path| == 3
    ensures TreeOk(ts[l := ts[l][i := e]], home)
  {
    var ts' := ts[l := ts[l][i := e]];
    forall u, j | u in ts' && 0 <= j < N_PTE_PER_TABLE && |home[u].path| < 3 && Valid(ts'[u][j]) ensures ChildOk(ts', home, u, j) {
      assert ChildOk(ts, home, u, j);
    }
    forall u | u in ts' ensures HangsOk(ts', home, u) {
      assert HangsOk(ts, home, u);
    }
  }

  /** Mapping one page: only addresses of that page, in that page table, translate differently. */
  lemma {:induction false} MapOne(ts: Tables, home: map<nat, Home>, l: nat, e: nat, va: nat, root: nat, r: nat, vb: nat)
    requires TreeOk(ts, home) && l in ts && home[l].root == root && home[l].path == Parts(va)[..3]
    requires r in ts && home[r].path == []
    ensures Entry(ts[l := ts[l][Part3(va) := e]], r, vb) == if r == root && PageNo(vb) == PageNo(va) then e else Entry(ts, r, vb)
  {
    assert HangsOk(ts, home, r);
    SetLeafEntry(ts, home, l, Part3(va), e, r, Parts(vb));
    PartsSeparate(va, vb);
    assert [] + Parts(vb)[..3] == Parts(vb)[..3];
    assert Parts(va) == Parts(va)[..3] + [Part3(va)] && Parts(vb) == Parts(vb)[..3] + [Part3(vb)];
  }

  // ----- the operations -----

  /** Every leaf entry in use points to a data frame. */
  ghost predicate LeavesOk(ts: Tables, home: map<nat, Home>, frames: map<nat, Frame>) {
    forall l, i :: l in ts && l in home && |home[l].path| == 3 && 0 <= i < N_PTE_PER_TABLE && ts[l][i] != 0 ==>
      FrameOf(ts[l][i]) in frames
  }

  ghost predicate Extends(home: map<nat, Home>, home': map<nat, Home>) {
    forall t :: t in home ==> t in home' && home'[t] == home[t]
  }

  lemma {:induction false} SameMapTrans(ts: Tables, home: map<nat, Home>, ts1: Tables, home1: map<nat, Home>, ts2: Tables)
    requires SameMap(ts, home, ts1) && SameMap(ts1, home1, ts2) && Extends(home, home1)
    ensures SameMap(ts, home, ts2)
  {
    hide Entry;
    forall r, va: nat | r in ts && home[r].path == [] ensures Entry(ts2, r, va) == Entry(ts, r, va) {
      assert Entry(ts1, r, va) == Entry(ts, r, va);
    }
  }

  lemma {:induction false} SameMapRefl(ts: Tables, home: map<nat, Home>)
    requires TreeOk(ts, home)
    ensures SameMap(ts, home, ts)
  {
  }

  lemma {:induction false} WalkStep(ts: Tables, t: nat, idx: seq<nat>)
    requires t in ts && |idx| > 1 && idx[0] < N_PTE_PER_TABLE
    ensures EntryFrom(ts, t, idx) == if Valid(ts[t][idx[0]]) then EntryFrom(ts, FrameOf(ts[t][idx[0]]), idx[1..]) else 0
    ensures MissingFrom(ts, t, idx) == if Valid(ts[t][idx[0]]) then MissingFrom(ts, FrameOf(ts[t][idx[0]]), idx[1..]) else |idx| - 1
  {
  }

  /** Hanging a table at the first missing place leaves one fewer to hang. */
  lemma {:induction false} HangMissing(ts: Tables, t: nat, i: nat, c: nat, idx: seq<nat>)
    requires t in ts && i < N_PTE_PER_TABLE && c !in ts && c < FRAME_LIMIT && |idx| > 1 && idx[0] == i
    ensures MissingFrom(Hung(ts, t, i, c), t, idx) == |idx| - 2
  {
    EntryParts(c, PTE_TABLE, 0);
    hide MakeEntry, ZeroTable;
    var ts' := Hung(ts, t, i, c);
    ZeroMissing(ts', c, idx[1..]);
  }

  lemma {:induction false} HangLeaves(ts: Tables, home: map<nat, Home>, frames: map<nat, Frame>, t: nat, i: nat, c: nat)
    requires TreeOk(ts, home) && LeavesOk(ts, home, frames) && t in ts && i < N_PTE_PER_TABLE && |home[t].path| < 3 && c !in ts
    ensures LeavesOk(Hung(ts, t, i, c), home[c := Home(home[t].root, home[t].path + [i], t)], frames)
  {
  }

  /** A pointer to a root table. */
  datatype TablePtr = NoTable | Table(root: nat)

  /** Lost: the walk goes through a page that was not cleared. */
  datatype Slot = Missing | Fault | Lost | At(table: nat, index: nat)

  datatype Copied = Done | Unmapped | NoFrame

  class Memory {
    var tables: Tables
    var frames: map<nat, Frame>
    var pool: seq<nat>
    ghost var home: map<nat, Home>

    ghost predicate Ok()
      reads this
    {
      && TreeOk(tables, home) && LeavesOk(tables, home, frames) && Distinct(pool)
      && (forall c :: c in pool ==> c < FRAME_LIMIT && c !in tables && c !in frames)
      && forall f :: f in frames ==> f !in tables && f < FRAME_LIMIT
    }

    /** One page table that maps nothing. */
    constructor (root: nat, frames: map<nat, Frame>, pool: seq<nat>)
      requires root < FRAME_LIMIT && root !in frames && root !in pool && Distinct(pool)
      requires forall f :: f in frames ==> f < FRAME_LIMIT && f !in pool
      requires forall c :: c in pool ==> c < FRAME_LIMIT
      ensures Ok() && IsRoot(root) && this.frames == frames && this.pool == pool
      ensures forall va: nat :: Entry(tables, root, va) == 0
    {
      tables, home := map[root := ZeroTable()], map[root := Home(root, [], 0)];
      this.frames, this.pool := frames, pool;
      new;
      forall va: nat ensures Entry(tables, root, va) == 0 {
        ZeroEntry(tables, root, Parts(va));
      }
    }

    ghost predicate IsRoot(r: nat)
      reads this
    {
      r in tables && r in home && home[r].path == []
    }

    /** Hangs a free frame, zeroed, at an entry that is not valid. */
    method Hang(t: nat, i: nat)
      requires Ok() && t in tables && i < N_PTE_PER_TABLE && |home[t].path| < 3 && !Valid(tables[t][i]) && pool != []
      modifies this`tables, this`pool, this`home
      ensures Ok() && pool == old(pool)[1..] && tables == Hung(old(tables), t, i, old(pool)[0])
      ensures home == old(home)[old(pool)[0] := Home(old(home)[t].root, old(home)[t].path + [i], t)]
      ensures Valid(tables[t][i]) && SameMap(old(tables), old(home), tables) && Extends(old(home), home)
      ensures var e, c := tables[t][i], old(pool)[0];
              && e % 4096 == 3 && e / 4096 % 0x10_0000_0000 == c && e / 0x1_0000_0000_0000 == 0
              && tables == old(tables)[t := old(tables)[t][i := e]][c := seq(512, _ => 0)]
    {
      hide TreeOk, LeavesOk, SameMap, FrameOf, MakeEntry, ZeroTable, Distinct;
      var c := pool[0];
      assert c in pool;
      HangOk(tables, home, t, i, c);
      HangLeaves(tables, home, frames, t, i, c);
      EntryParts(c, PTE_TABLE, 0);
      TableKeys(tables, home);
      TailDistinct(pool);
      pool := pool[1..];
      tables := tables[t := tables[t][i := MakeEntry(c, PTE_TABLE, 0)]];
      tables := tables[c := ZeroTable()];
      home := home[c := Home(home[t].root, home[t].path + [i], t)];
    }

    /** Hangs a table at the first missing place on the way that idx leads from pgtbl. */
    method HangNext(ghost root: nat, ghost va: nat, pgtbl: nat, i: nat, ghost idx: seq<nat>)
      requires Ok() && IsRoot(root) && pgtbl in tables && |home[pgtbl].path| + |idx| == 4 && |idx| > 1
      requires i == idx[0] < N_PTE_PER_TABLE && !Valid(tables[pgtbl][i]) && pool != []
      modifies this`tables, this`pool, this`home
      ensures Ok() && pool == old(pool)[1..] && SameMap(old(tables), old(home), tables) && Extends(old(home), home)
      ensures root in tables && pgtbl in tables && Valid(tables[pgtbl][i]) && MissingFrom(tables, pgtbl, idx) == |idx| - 2
      ensures EntryFrom(tables, pgtbl, idx) == old(EntryFrom(tables, pgtbl, idx)) && Entry(tables, root, va) == old(Entry(tables, root, va))
    {
      hide TreeOk, LeavesOk, SameMap, FrameOf, MakeEntry, Valid, Distinct, EntryFrom, MissingFrom, Hung, Parts;
      TableKeys(tables, home);
      assert pool[0] in pool;
      HangKeepsEntry(tables, home, pgtbl, i, pool[0], pgtbl, idx);
      HangKeepsEntry(tables, home, pgtbl, i, pool[0], root, Parts(va));
      HangMissing(tables, pgtbl, i, pool[0], idx);
      Hang(pgtbl, i);
      TableKeys(tables, home);
    }

    /**
     The leaf slot for va in the page table pt.  Without a table nothing is found, or with
     alloc a frame is taken for one, which is neither cleared nor given to the caller.
     */
    method GetPte(pt: TablePtr, va: nat, alloc: bool) returns (r: Slot)
      requires Ok() && (pt.Table? ==> IsRoot(pt.root))
      modifies this`tables, this`pool, this`home
      ensures Ok() && SameMap(old(tables), old(home), tables) && Extends(old(home), home)
      ensures pt.Table? ==>
                var missing := old(MissingTables(tables, pt.root, va));
                && r != Lost && (r == Missing <==> !alloc && missing > 0) && (r == Fault <==> alloc && |old(pool)| < missing)
                && (missing == 0 || !alloc ==> tables == old(tables) && home == old(home) && pool == old(pool))
                && (r.At? ==> pool == old(pool)[missing..] && r.index == va / 0x1000 % 512 < 512 && r.table in tables
                              && home[r.table].root == pt.root
                              && home[r.table].path == [va / 0x80_0000_0000 % 512, va / 0x4000_0000 % 512, va / 0x20_0000 % 512]
                              && tables[r.table][r.index] == old(Entry(tables, pt.root, va)))
      ensures pt.NoTable? ==> r == (if !alloc then Missing else if old(pool) == [] then Fault else Lost)
      ensures pt.NoTable? ==> tables == old(tables) && home == old(home) && pool == if r == Lost then old(pool)[1..] else old(pool)
    {
      hide TreeOk, LeavesOk, SameMap, Entry, MissingTables, Part3, Parts;
      TableKeys(tables, home);
      SameMapRefl(tables, home);
      match pt {
        case Table(root) =>
          ghost var ts0, home0 := tables, home;
          r := Walk(root, va, alloc);
          PartsAre(va);
          SameMapAt(ts0, home0, tables, root, va);
        case NoTable =>
          if !alloc {
            return Missing;
          }
          if pool == [] {
            return Fault;
          }
          TailDistinct(pool);
          pool := pool[1..];
          r := Lost;
      }
    }

    /** The leaf slot for va in the page table root: the walk of a call that has a table. */
    method Walk(root: nat, va: nat, alloc: bool) returns (r: Slot)
      requires Ok() && IsRoot(root)
      modifies this`tables, this`pool, this`home
      ensures Ok() && SameMap(old(tables), old(home), tables) && Extends(old(home), home) && r != Lost
      ensures !alloc ==> r != Fault && tables == old(tables) && home == old(home) && pool == old(pool)
      ensures r == Missing <==> !alloc && old(MissingTables(tables, root, va)) > 0
      ensures r == Missing ==> Entry(tables, root, va) == 0
      ensures r == Fault <==> alloc && |old(pool)| < old(MissingTables(tables, root, va))
      ensures r == Fault ==> pool == []
      ensures old(MissingTables(tables, root, va)) == 0 ==> tables == old(tables) && home == old(home) && pool == old(pool)
      ensures alloc && r.At? ==> pool == old(pool)[old(MissingTables(tables, root, va))..]
      ensures r.At? ==> r.index == Part3(va) < N_PTE_PER_TABLE && r.table in tables
      ensures r.At? ==> home[r.table].root == root && home[r.table].path == Parts(va)[..3]
      ensures r.At? ==> tables[r.table][r.index] == Entry(tables, root, va)
    {
      hide TreeOk, LeavesOk, SameMap, FrameOf, MakeEntry, Valid, Part0, Part1, Part2, Part3, Distinct, EntryFrom, MissingFrom, Hung;
      ghost var ts0, home0, used := tables, home, 0;
      TableKeys(tables, home);
      SameMapRefl(tables, home);
      RootIsOwn(tables, home, root);
      var idxs := Parts(va);
      ghost var missing := MissingFrom(tables, root, idxs);
      var pgtbl, i := root, 0;
      assert idxs[..0] == [] && idxs[0..] == idxs;
      while i < 3
        invariant 0 <= i <= 3 && Ok() && pgtbl in tables && pgtbl in home && home[pgtbl].root == root && home[pgtbl].path == idxs[..i]
        invariant SameMap(ts0, home0, tables) && Extends(home0, home) && root in tables && root in home && home[root].path == []
        invariant EntryFrom(tables, pgtbl, idxs[i..]) == Entry(tables, root, va)
        invariant used + MissingFrom(tables, pgtbl, idxs[i..]) == missing && used <= |old(pool)| && pool == old(pool)[used..]
        invariant used == 0 ==> tables == ts0 && home == home0
        invariant !alloc ==> used == 0
      {
        ghost var ts, hm := tables, home;
        WalkStep(tables, pgtbl, idxs[i..]);
        if !Valid(tables[pgtbl][idxs[i]]) {
          if !alloc {
            return Missing;
          }
          if pool == [] {
            return Fault;
          }
          HangNext(root, va, pgtbl, idxs[i], idxs[i..]);
          used := used + 1;
          SameMapTrans(ts0, home0, ts, hm, tables);
          WalkStep(tables, pgtbl, idxs[i..]);
        }
        ChildOf(tables, home, pgtbl, idxs[i]);
        assert idxs[..i] + [idxs[i]] == idxs[..i + 1] && idxs[i..][1..] == idxs[i + 1..];
        pgtbl := FrameOf(tables[pgtbl][idxs[i]]);
        i := i + 1;
      }
      r := At(pgtbl, idxs[3]);
      LeafEntry(tables, pgtbl, idxs[3..]);
    }

    /**
     Maps the page of va to the data frame f; every other page, in every page table, stays
     as it was.  It faults exactly when there are fewer free frames than missing tables.
     */
    method Map(root: nat, va: nat, f: nat, lo: nat, hi: nat) returns (ok: bool)
      requires Ok() && IsRoot(root) && f in frames && lo < PAGE_SIZE
      modifies this`tables, this`pool, this`home
      ensures Ok() && Extends(old(home), home)
      ensures ok <==> old(MissingTables(tables, root, va)) <= |old(pool)|
      ensures ok ==> pool == old(pool)[old(MissingTables(tables, root, va))..]
      ensures !ok ==> pool == [] && SameMap(old(tables), old(home), tables)
      ensures ok ==> forall r, vb: nat :: old(IsRoot(r)) ==>
                Entry(tables, r, vb) == if r == root && PageNo(vb) == PageNo(va) then MakeEntry(f, lo, hi) else old(Entry(tables, r, vb))
      ensures ok ==>
                var e := Entry(tables, root, va);
                && e % 4096 == (if lo % 2 == 0 then lo + 1 else lo)
                && e / 4096 % 0x10_0000_0000 == f && e / 0x1_0000_0000_0000 == hi
    {
      hide TreeOk, LeavesOk, FrameOf, MakeEntry, Valid, Entry, PageNo, Part3, MissingTables;
      ghost var ts0, home0 := tables, home;
      TableKeys(tables, home);
      var s := Walk(root, va, true);
      if s == Fault {
        return false;
      }
      TableKeys(tables, home);
      if Valid(tables[s.table][s.index]) {
        Unmap(root, va);
      }
      ghost var ts := tables;
      EntryParts(f, lo, hi);
      SetLeafOk(tables, home, s.table, s.index, MakeEntry(f, lo, hi));
      SetLeaves(tables, home, frames, s.table, s.index, MakeEntry(f, lo, hi));
      forall r, vb: nat | r in ts0 && home0[r].path == []
        ensures Entry(ts[s.table := ts[s.table][s.index := MakeEntry(f, lo, hi)]], r, vb) ==
                if r == root && PageNo(vb) == PageNo(va) then MakeEntry(f, lo, hi) else Entry(ts0, r, vb)
      {
        MapOne(ts, home, s.table, MakeEntry(f, lo, hi), va, root, r, vb);
      }
      tables := tables[s.table := tables[s.table][s.index := MakeEntry(f, lo, hi)]];
      ok := true;
    }

    /**
     Meant to remove a translation.  The test that guards the removal looks at the
     address of the entry instead of the entry, and entries are eight bytes apart, so
     nothing is ever removed: the address is unmapped afterwards exactly if it was before.
     */
    method Unmap(root: nat, va: nat)
      requires Ok() && IsRoot(root)
      modifies this`tables, this`pool, this`home
      ensures Ok() && tables == old(tables) && home == old(home) && pool == old(pool)
      ensures Entry(tables, root, va) == 0 <==> old(Entry(tables, root, va)) == 0
    {
      var s := Walk(root, va, false);
      if s == Missing || !Valid(SlotAddress(s.table, s.index)) {
        return;
      }
      SlotAddressEven(s.table, s.index);
      assert false;
    }

    /**
     Copies src to virtual address va page by page.  If every address has an entry, all of
     src is copied and the page tables stay as they are; if no two pages share a frame,
     the virtual bytes are then src and no other byte has changed.  Otherwise the copy
     stops at the first address without an entry, done bytes in.
     */
    method CopyToUser(root: nat, va: nat, src: seq<byte>) returns (r: Copied, ghost done: nat)
      requires Ok() && IsRoot(root)
      modifies this
      ensures Ok() && SameMap(old(tables), old(home), tables) && Extends(old(home), home)
      ensures done <= |src| && frames == CopyBytes(old(frames), old(tables), root, va, src[..done])
      ensures r == Done <==> AllMapped(old(tables), root, va, |src|)
      ensures r == Done ==> done == |src| && tables == old(tables) && home == old(home) && pool == old(pool)
      ensures r == Done && NoAlias(old(tables), root, va, |src|) && |src| <= FRAME_LIMIT * PAGE_SIZE ==>
                CopiedExactly(old(frames), frames, old(tables), root, va, src)
      ensures r != Done ==> done < |src| && AllMapped(old(tables), root, va, done) && old(Entry(tables, root, va + done)) == 0
      ensures r != Done ==> (r == NoFrame <==> |old(pool)| < old(MissingTables(tables, root, va + done)))
    {
      hide TreeOk, LeavesOk, FrameOf, Valid, Entry, Part3, SameMap, CopyBytes, Distinct, AllMapped, Splice, MissingTables;
      hide NoAlias, CopiedExactly;
      ghost var ts0, home0, frames0, pool0 := tables, home, frames, pool;
      TableKeys(tables, home);
      SameMapRefl(tables, home);
      var p := 0;
      CopyNothing(frames0, ts0, root, va);
      NothingMapped(ts0, root, va);
      assert src[..0] == [];
      while p < |src|
        invariant 0 <= p <= |src| && Ok() && tables == ts0 && home == home0 && pool == pool0
        invariant frames == CopyBytes(frames0, ts0, root, va, src[..p]) && frames.Keys == frames0.Keys
        invariant AllMapped(ts0, root, va, p)
      {
        var s := Walk(root, va + p, true);
        SameMapAt(ts0, home0, tables, root, va + p);
        TableKeys(tables, home);
        if s == Fault {
          MappedMissesNothing(ts0, root, va + p);
          NotAllMapped(ts0, root, va, |src|, p);
          return NoFrame, p;
        }
        var e := tables[s.table][s.index];
        if e == 0 {
          NotAllMapped(ts0, root, va, |src|, p);
          return Unmapped, p;
        }
        MappedMissesNothing(ts0, root, va + p);
        LeafFrame(tables, home, frames, s.table, s.index);
        var offset := (va + p) % PAGE_SIZE;
        var n := if PAGE_SIZE - offset > |src| - p then |src| - p else PAGE_SIZE - offset;
        CopyChunk(frames, ts0, root, va + p, src[p..p + n]);
        CopyAppend(frames0, ts0, root, va, src[..p], src[p..p + n]);
        assert src[..p] + src[p..p + n] == src[..p + n];
        ChunkMapped(ts0, root, va, p, n);
        ghost var before := frames;
        frames := frames[FrameOf(e) := Splice(frames[FrameOf(e)], offset, src[p..p + n])];
        assert frames.Keys == before.Keys;
        SameKeysLeaves(tables, home, before, frames);
        p := p + n;
      }
      assert src[..|src|] == src;
      r, done := Done, p;
      if NoAlias(ts0, root, va, |src|) && |src| <= FRAME_LIMIT * PAGE_SIZE {
        MappedHasFrames(ts0, home0, frames0, root, va, |src|);
        CopyExact(frames0, ts0, root, va, src);
      }
    }
  }

  lemma {:induction false} MappedMissesNothing(ts: Tables, root: nat, va: nat)
    ensures Entry(ts, root, va) != 0 ==> MissingTables(ts, root, va) == 0
  {
    if Entry(ts, root, va) != 0 {
      MappedMissesNone(ts, root, Parts(va));
    }
  }

  lemma {:induction false} NotAllMapped(ts: Tables, root: nat, va: nat, n: nat, p: nat)
    requires p < n && Entry(ts, root, va + p) == 0
    ensures !AllMapped(ts, root, va, n)
  {
  }

  /** An entry that is found is a leaf entry, and so points to a data frame. */
  lemma {:induction false} EntryFrame(ts: Tables, home: map<nat, Home>, frames: map<nat, Frame>, t: nat, idx: seq<nat>)
    requires TreeOk(ts, home) && LeavesOk(ts, home, frames) && t in ts && |home[t].path| + |idx| == 4 && EntryFrom(ts, t, idx) != 0
    ensures FrameOf(EntryFrom(ts, t, idx)) in frames
    decreases |idx|
  {
    hide TreeOk, Valid, FrameOf;
    TableKeys(ts, home);
    if |idx| > 1 {
      ChildOf(ts, home, t, idx[0]);
      EntryFrame(ts, home, frames, FrameOf(ts[t][idx[0]]), idx[1..]);
    }
  }

  lemma {:induction false} MappedHasFrames(ts: Tables, home: map<nat, Home>, frames: map<nat, Frame>, root: nat, va: nat, n: nat)
    requires TreeOk(ts, home) && LeavesOk(ts, home, frames) && root in ts && root in home && home[root].path == []
    requires AllMapped(ts, root, va, n)
    ensures forall i :: va <= i < va + n ==> FrameOf(Entry(ts, root, i)) in frames
  {
    hide TreeOk, LeavesOk, FrameOf;
    forall i | va <= i < va + n ensures FrameOf(Entry(ts, root, i)) in frames {
      assert Entry(ts, root, i) != 0;
      EntryFrame(ts, home, frames, root, Parts(i));
    }
  }

  /** Storing bytes one after the other at the places their addresses translate to. */
  ghost function CopyBytes(frames: map<nat, Frame>, ts: Tables, root: nat, va: nat, src: seq<byte>): map<nat, Frame>
    decreases |src|
  {
    if src == [] then frames
    else
      var f := FrameOf(Entry(ts, root, va));
      var frames' := if f in frames then frames[f := frames[f][va % PAGE_SIZE := src[0]]] else frames;
      CopyBytes(frames', ts, root, va + 1, src[1..])
  }

  lemma {:induction false} CopyNothing(frames: map<nat, Frame>, ts: Tables, root: nat, va: nat)
    ensures CopyBytes(frames, ts, root, va, []) == frames
  {
  }

  lemma {:induction false} CopyAppend(frames: map<nat, Frame>, ts: Tables, root: nat, va: nat, s: seq<byte>, t: seq<byte>)
    ensures CopyBytes(frames, ts, root, va, s + t) == CopyBytes(CopyBytes(frames, ts, root, va, s), ts, root, va + |s|, t)
    decreases |s|
  {
    hide FrameOf, Entry;
    if s == [] {
      assert s + t == t;
    } else {
      var f := FrameOf(Entry(ts, root, va));
      var frames' := if f in frames then frames[f := frames[f][va % PAGE_SIZE := s[0]]] else frames;
      CopyAppend(frames', ts, root, va + 1, s[1..], t);
      assert (s + t)[1..] == s[1..] + t;
    }
  }

  lemma {:induction false} SamePageEntry(ts: Tables, root: nat, va: nat, vb: nat)
    requires va / PAGE_SIZE == vb / PAGE_SIZE
    ensures Entry(ts, root, va) == Entry(ts, root, vb)
  {
    PartsSeparate(va, vb);
  }

  /** Within one page, storing byte by byte is storing the chunk at once. */
  lemma {:induction false} CopyChunk(frames: map<nat, Frame>, ts: Tables, root: nat, va: nat, chunk: seq<byte>)
    requires va % PAGE_SIZE + |chunk| <= PAGE_SIZE && FrameOf(Entry(ts, root, va)) in frames
    ensures var f := FrameOf(Entry(ts, root, va));
            CopyBytes(frames, ts, root, va, chunk) == frames[f := Splice(frames[f], va % PAGE_SIZE, chunk)]
    decreases |chunk|
  {
    hide FrameOf, Entry;
    var f, o := FrameOf(Entry(ts, root, va)), va % PAGE_SIZE;
    if chunk == [] {
      assert Splice(frames[f], o, []) == frames[f];
    } else {
      var frames' := frames[f := frames[f][o := chunk[0]]];
      if |chunk| == 1 {
        assert Splice(frames[f], o, chunk) == frames[f][o := chunk[0]];
        CopyNothing(frames', ts, root, va + 1);
      } else {
        assert (va + 1) % PAGE_SIZE == o + 1 && (va + 1) / PAGE_SIZE == va / PAGE_SIZE;
        SamePageEntry(ts, root, va, va + 1);
        CopyChunk(frames', ts, root, va + 1, chunk[1..]);
        assert Splice(frames'[f], o + 1, chunk[1..]) == Splice(frames[f], o, chunk);
        assert frames'[f := Splice(frames[f], o, chunk)] == frames[f := Splice(frames[f], o, chunk)];
      }
    }
  }

  /** Every address of the stretch has an entry. */
  ghost predicate AllMapped(ts: Tables, root: nat, va: nat, n: nat) {
    forall k :: va <= k < va + n ==> Entry(ts, root, k) != 0
  }

  lemma {:induction false} NothingMapped(ts: Tables, root: nat, va: nat)
    ensures AllMapped(ts, root, va, 0)
  {
  }

  lemma {:induction false} ChunkMapped(ts: Tables, root: nat, va: nat, p: nat, n: nat)
    requires AllMapped(ts, root, va, p) && (va + p) % PAGE_SIZE + n <= PAGE_SIZE && Entry(ts, root, va + p) != 0
    ensures AllMapped(ts, root, va, p + n)
  {
    hide Entry;
    forall k | va <= k < va + p + n ensures Entry(ts, root, k) != 0 {
      if k >= va + p {
        SamePageEntry(ts, root, va + p, k);
      }
    }
  }

  lemma {:induction false} SameMapAt(ts: Tables, home: map<nat, Home>, ts': Tables, r: nat, va: nat)
    requires SameMap(ts, home, ts') && r in ts && r in home && home[r].path == []
    ensures r in ts' && Entry(ts', r, va) == Entry(ts, r, va)
  {
  }

  lemma {:induction false} LeafFrame(ts: Tables, home: map<nat, Home>, frames: map<nat, Frame>, l: nat, i: nat)
    requires LeavesOk(ts, home, frames) && l in ts && l in home && |home[l].path| == 3 && i < N_PTE_PER_TABLE && ts[l][i] != 0
    ensures FrameOf(ts[l][i]) in frames
  {
  }

  lemma {:induction false} SameKeysLeaves(ts: Tables, home: map<nat, Home>, frames: map<nat, Frame>, frames': map<nat, Frame>)
    requires LeavesOk(ts, home, frames) && frames.Keys == frames'.Keys
    ensures LeavesOk(ts, home, frames')
  {
  }

  // ----- reading back what was copied -----

  /** Two addresses of the stretch meet in memory only if they are the same address. */
  ghost predicate NoAlias(ts: Tables, root: nat, va: nat, n: nat) {
    forall i, j :: va <= i < va + n && va <= j < va + n && PageNo(i) != PageNo(j) ==>
      FrameOf(Entry(ts, root, i)) != FrameOf(Entry(ts, root, j))
  }

  lemma {:induction false} CopyUntouched(frames: map<nat, Frame>, ts: Tables, root: nat, va: nat, src: seq<byte>, f: nat, o: nat)
    requires f in frames && o < PAGE_SIZE
    requires forall k :: va <= k < va + |src| ==> FrameOf(Entry(ts, root, k)) != f || k % PAGE_SIZE != o
    ensures var after := CopyBytes(frames, ts, root, va, src); f in after && after[f][o] == frames[f][o] && after.Keys == frames.Keys
    decreases |src|
  {
    hide FrameOf, Entry;
    if src != [] {
      var g := FrameOf(Entry(ts, root, va));
      var frames' := if g in frames then frames[g := frames[g][va % PAGE_SIZE := src[0]]] else frames;
      CopyUntouched(frames', ts, root, va + 1, src[1..], f, o);
    }
  }

  lemma {:induction false} Apart(i: nat, j: nat)
    requires i < j < i + FRAME_LIMIT * PAGE_SIZE && PageNo(i) == PageNo(j)
    ensures i % PAGE_SIZE != j % PAGE_SIZE
  {
    var p, q := i / PAGE_SIZE, j / PAGE_SIZE;
    assert i == p * PAGE_SIZE + i % PAGE_SIZE && j == q * PAGE_SIZE + j % PAGE_SIZE;
    assert p == p / FRAME_LIMIT * FRAME_LIMIT + p % FRAME_LIMIT && q == q / FRAME_LIMIT * FRAME_LIMIT + q % FRAME_LIMIT;
  }

  /** After a copy over pages with frames of their own, reading the virtual addresses gives the source. */
  lemma {:induction false} CopyReadsBack(frames: map<nat, Frame>, ts: Tables, root: nat, va: nat, src: seq<byte>, k: nat)
    requires k < |src| <= FRAME_LIMIT * PAGE_SIZE && NoAlias(ts, root, va, |src|)
    requires forall i :: va <= i < va + |src| ==> FrameOf(Entry(ts, root, i)) in frames
    ensures var f, after := FrameOf(Entry(ts, root, va + k)), CopyBytes(frames, ts, root, va, src);
            f in after && after[f][(va + k) % PAGE_SIZE] == src[k]
    decreases |src|
  {
    hide FrameOf, Entry, PageNo;
    var g := FrameOf(Entry(ts, root, va));
    var frames' := frames[g := frames[g][va % PAGE_SIZE := src[0]]];
    if k == 0 {
      forall i | va + 1 <= i < va + |src| ensures FrameOf(Entry(ts, root, i)) != g || i % PAGE_SIZE != va % PAGE_SIZE {
        if PageNo(i) == PageNo(va) {
          Apart(va, i);
        }
      }
      CopyUntouched(frames', ts, root, va + 1, src[1..], g, va % PAGE_SIZE);
    } else {
      CopyReadsBack(frames', ts, root, va + 1, src[1..], k - 1);
      assert src[1..][k - 1] == src[k] && va + 1 + (k - 1) == va + k;
    }
  }

  /** Byte o of frame f is where some address of the stretch translates to. */
  ghost predicate Target(ts: Tables, root: nat, va: nat, n: nat, f: nat, o: nat) {
    exists k :: va <= k < va + n && FrameOf(Entry(ts, root, k)) == f && k % PAGE_SIZE == o
  }

  /** The virtual bytes from va on are src, and no byte off the stretch has changed. */
  ghost predicate CopiedExactly(frames: map<nat, Frame>, after: map<nat, Frame>, ts: Tables, root: nat, va: nat, src: seq<byte>) {
    && after.Keys == frames.Keys
    && (forall k :: va <= k < va + |src| ==>
          FrameOf(Entry(ts, root, k)) in after && after[FrameOf(Entry(ts, root, k))][k % PAGE_SIZE] == src[k - va])
    && forall f, o :: f in frames && 0 <= o < PAGE_SIZE && !Target(ts, root, va, |src|, f, o) ==> after[f][o] == frames[f][o]
  }

  lemma {:induction false} CopyKeys(frames: map<nat, Frame>, ts: Tables, root: nat, va: nat, src: seq<byte>)
    ensures CopyBytes(frames, ts, root, va, src).Keys == frames.Keys
    decreases |src|
  {
    hide FrameOf, Entry;
    if src != [] {
      var g := FrameOf(Entry(ts, root, va));
      var frames' := if g in frames then frames[g := frames[g][va % PAGE_SIZE := src[0]]] else frames;
      assert frames'.Keys == frames.Keys;
      CopyKeys(frames', ts, root, va + 1, src[1..]);
    }
  }

  /** A copy over mapped pages with frames of their own writes exactly the virtual bytes va to va + |src|. */
  lemma {:induction false} CopyExact(frames: map<nat, Frame>, ts: Tables, root: nat, va: nat, src: seq<byte>)
    requires |src| <= FRAME_LIMIT * PAGE_SIZE && NoAlias(ts, root, va, |src|)
    requires forall i :: va <= i < va + |src| ==> FrameOf(Entry(ts, root, i)) in frames
    ensures CopiedExactly(frames, CopyBytes(frames, ts, root, va, src), ts, root, va, src)
  {
    hide FrameOf, Entry, CopyBytes, NoAlias;
    var after := CopyBytes(frames, ts, root, va, src);
    CopyKeys(frames, ts, root, va, src);
    forall k | va <= k < va + |src|
      ensures FrameOf(Entry(ts, root, k)) in after && after[FrameOf(Entry(ts, root, k))][k % PAGE_SIZE] == src[k - va]
    {
      CopyReadsBack(frames, ts, root, va, src, k - va);
    }
    forall f, o | f in frames && 0 <= o < PAGE_SIZE && !Target(ts, root, va, |src|, f, o) ensures after[f][o] == frames[f][o] {
      CopyUntouched(frames, ts, root, va, src, f, o);
    }
  }

  /** The kernel address of an entry of a table. */
  function SlotAddress(t: nat, i: nat): nat {
    KSPACE + PAGE_SIZE * t + 8 * i
  }

  lemma {:induction false} SlotAddressEven(t: nat, i: nat)
    ensures !Valid(SlotAddress(t, i))
  {
  }

  lemma {:induction false} SetLeaves(ts: Tables, home: map<nat, Home>, frames: map<nat, Frame>, l: nat, i: nat, e: nat)
    requires LeavesOk(ts, home, frames) && l in ts && i < N_PTE_PER_TABLE && FrameOf(e) in frames
    ensures LeavesOk(ts[l := ts[l][i := e]], home, frames)
  {
  }

  lemma {:induction false} RootIsOwn(ts: Tables, home: map<nat, Home>, r: nat)
    requires TreeOk(ts, home) && r in ts && home[r].path == []
    ensures home[r].root == r
  {
    assert HangsOk(ts, home, r);
  }

  lemma {:induction false} LeafEntry(ts: Tables, t: nat, idx: seq<nat>)
    requires t in ts && |idx| == 1 && idx[0] < N_PTE_PER_TABLE
    ensures EntryFrom(ts, t, idx) == ts[t][idx[0]] && MissingFrom(ts, t, idx) == 0
  {
  }
}
