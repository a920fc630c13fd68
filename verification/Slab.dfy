/**
 The page and slab allocator.  A slab page is cut into partitions of one size, a
 power of two from 8 to 2048; the free ones form a list whose links are stored in
 the partitions themselves.
 */
module Slab {
  import opened Numbers
  import opened Sequences

  const PAGE_SIZE := 4096
  const MIN_ORDER := 3
  const SLAB_MAX_ORDER := 11

  /** How many partitions of the given size a page has. */
  function Slots(size: nat): nat {
    if size == 0 then 0 else PAGE_SIZE / size
  }

  lemma {:induction false} Sizes(k: nat)
    requires MIN_ORDER <= k <= SLAB_MAX_ORDER
    ensures Pow2(k) in {8, 16, 32, 64, 128, 256, 512, 1024, 2048}
  {
    assert Pow2(3) == 8 && Pow2(4) == 16 && Pow2(5) == 32 && Pow2(6) == 64 && Pow2(7) == 128 && Pow2(8) == 256;
    assert Pow2(9) == 512 && Pow2(10) == 1024 && Pow2(11) == 2048;
  }

  /** The least order, from k on, whose partitions hold n bytes. */
  ghost function OrderOf(n: nat, k: nat): nat
    decreases SLAB_MAX_ORDER - k
  {
    if Pow2(k) >= n || k >= SLAB_MAX_ORDER then k else OrderOf(n, k + 1)
  }

  lemma {:induction false} OrderIs(n: nat, k: nat, j: nat)
    requires j <= k <= SLAB_MAX_ORDER && Pow2(k) >= n && (k > j ==> Pow2(k - 1) < n)
    ensures OrderOf(n, j) == k
    decreases k - j
  {
    if j < k {
      Pow2Mono(j, k - 1);
      OrderIs(n, k, j + 1);
    }
  }

  lemma {:induction false} Orders(k: nat)
    requires MIN_ORDER <= k <= SLAB_MAX_ORDER
    ensures 8 <= Pow2(k) <= 2048 && Pow2(k) * (Slots(Pow2(k))) == PAGE_SIZE && 2 <= Slots(Pow2(k))
  {
    Sizes(k);
  }

  /** What the allocator records about a page. */
  datatype Page = Page(size: nat, head: nat, cnt: nat, bucket: nat)

  /** Where a page is: on the free list, cut into partitions, or handed out whole. */
  datatype Place = Free | Cut | Whole

  /**
   The allocator's state, with, for the proofs, the place of each page, the free
   partitions of each page in list order, and the size of each live partition.
   */
  datatype Heap = Heap(start: nat, mem: map<nat, nat>, info: seq<Page>, pagesFree: seq<nat>, slabs: seq<seq<nat>>,
                       place: seq<Place>, free: seq<seq<nat>>, live: map<nat, nat>)

  function PageAddr(start: nat, id: nat): nat {
    start + PAGE_SIZE * id
  }

  function SlotAddr(start: nat, id: nat, size: nat, n: nat): nat {
    PageAddr(start, id) + size * n
  }

  function PageId(start: nat, a: nat): nat
    requires start <= a
  {
    (a - start) / PAGE_SIZE
  }

  /** a is the address of a partition of the given size in page id. */
  ghost predicate SlotOf(start: nat, id: nat, size: nat, a: nat) {
    PageAddr(start, id) <= a < PageAddr(start, id) + PAGE_SIZE && size > 0 && (a - PageAddr(start, id)) % size == 0
  }

  /** The element after position i, 0 at the end. */
  ghost function After(s: seq<nat>, i: nat): nat {
    if i + 1 < |s| then s[i + 1] else 0
  }

  /** The words at the addresses s link them into a list that starts at head and ends in 0. */
  ghost predicate Chain(mem: map<nat, nat>, head: nat, s: seq<nat>) {
    && head == (if s == [] then 0 else s[0])
    && forall i :: 0 <= i < |s| ==> s[i] in mem && mem[s[i]] == After(s, i)
  }

  /** A cut page: its list holds free partitions only, at least one, and the count is of the others. */
  ghost predicate PageOk(start: nat, mem: map<nat, nat>, id: nat, p: Page, s: seq<nat>) {
    && MIN_ORDER <= p.bucket <= SLAB_MAX_ORDER && p.size == Pow2(p.bucket)
    && Distinct(s) && s != [] && p.cnt + |s| == Slots(p.size) && Chain(mem, p.head, s)
    && forall a :: a in s ==> SlotOf(start, id, p.size, a)
  }

  ghost predicate Shape(h: Heap) {
    && h.start > 0 && h.start % PAGE_SIZE == 0 && |h.info| == |h.place| == |h.free| && |h.slabs| == SLAB_MAX_ORDER + 1
    && forall a :: h.start <= a < h.start + PAGE_SIZE * |h.info| ==> a in h.mem
  }

  /** Every page is in exactly one of the free list, one bucket, or handed out. */
  ghost predicate ListsOk(h: Heap)
    requires Shape(h)
  {
    && Distinct(h.pagesFree)
    && (forall id :: id in h.pagesFree <==> 0 <= id < |h.place| && h.place[id] == Free)
    && (forall k :: 0 <= k <= SLAB_MAX_ORDER ==> Distinct(h.slabs[k]))
    && forall k, id :: 0 <= k <= SLAB_MAX_ORDER ==>
         (id in h.slabs[k] <==> 0 <= id < |h.place| && h.place[id] == Cut && h.info[id].bucket == k)
  }

  ghost predicate PagesOk(h: Heap)
    requires Shape(h)
  {
    forall id :: 0 <= id < |h.place| ==> PageFits(h, id)
  }

  ghost predicate PageFits(h: Heap, id: nat)
    requires Shape(h) && id < |h.place|
  {
    if h.place[id] == Cut then h.info[id].cnt > 0 && PageOk(h.start, h.mem, id, h.info[id], h.free[id])
    else h.info[id].cnt == 0
  }

  /** The partition at a is allocated: a partition of a cut page that is not in the page's list. */
  ghost predicate LiveAt(h: Heap, a: nat)
    requires Shape(h)
  {
    h.start <= a && var id := PageId(h.start, a);
    id < |h.place| && h.place[id] == Cut && SlotOf(h.start, id, h.info[id].size, a) && a !in h.free[id]
  }

  ghost predicate LiveOk(h: Heap)
    requires Shape(h)
  {
    && (forall a :: a in h.live <==> LiveAt(h, a))
    && forall a :: a in h.live ==> h.live[a] == h.info[PageId(h.start, a)].size
  }

  ghost predicate Ok(h: Heap) {
    Shape(h) && ListsOk(h) && PagesOk(h) && LiveOk(h)
  }

  // ----- partitions do not overlap -----

  lemma {:induction false} SlotPage(start: nat, id: nat, size: nat, a: nat)
    requires SlotOf(start, id, size, a)
    ensures start <= a && PageId(start, a) == id
  {
  }

  /** A partition ends inside its page. */
  lemma {:induction false} SlotFits(start: nat, id: nat, k: nat, a: nat)
    requires MIN_ORDER <= k <= SLAB_MAX_ORDER && SlotOf(start, id, Pow2(k), a)
    ensures a + Pow2(k) <= PageAddr(start, id) + PAGE_SIZE
  {
    var size := Pow2(k);
    assert PAGE_SIZE % size == 0 by {
      Sizes(k);
    }
    MultiplesApart(a - PageAddr(start, id), PAGE_SIZE, size);
  }

  /** A word of the partition at a is no partition address but a itself. */
  lemma {:induction false} SlotsApart(start: nat, id: nat, size: nat, a: nat, b: nat)
    requires SlotOf(start, id, size, a) && SlotOf(start, id, size, b) && a != b
    ensures b < a || b >= a + size
  {
    if a < b {
      MultiplesApart(a - PageAddr(start, id), b - PageAddr(start, id), size);
    }
  }

  /**
   Allocator safety in a reachable state: a live partition lies in one page, at a
   multiple of its size from the start of the page, and two of them do not overlap.
   */
  lemma {:induction false} LiveDisjoint(h: Heap, a: nat, b: nat)
    requires Ok(h) && a in h.live && b in h.live && a < b
    ensures a + h.live[a] <= b
    ensures h.live[a] >= 8 && a % h.live[a] == 0 && PageId(h.start, a) == PageId(h.start, a + h.live[a] - 1)
  {
    var i, j := PageId(h.start, a), PageId(h.start, b);
    assert LiveAt(h, a) && LiveAt(h, b);
    assert PageFits(h, i) && PageFits(h, j);
    var k := h.info[i].bucket;
    Orders(k);
    SlotFits(h.start, i, k, a);
    if i == j {
      SlotsApart(h.start, i, h.info[i].size, a, b);
    } else {
      assert i < j;
    }
    AlignedSlot(h.start, i, k, a);
  }

  lemma {:induction false} AlignedSlot(start: nat, id: nat, k: nat, a: nat)
    requires start % PAGE_SIZE == 0 && MIN_ORDER <= k <= SLAB_MAX_ORDER && SlotOf(start, id, Pow2(k), a)
    ensures a % Pow2(k) == 0
  {
    var size, base := Pow2(k), PageAddr(start, id);
    Orders(k);
    var n := Slots(size);
    assert base == PAGE_SIZE * (start / PAGE_SIZE + id);
    var m := start / PAGE_SIZE + id;
    var q := (a - base) / size;
    assert a - base == size * q;
    PageMultiple(size, n, m, q);
    MultipleMod(size, n * m + q);
  }

  lemma {:induction false} PageMultiple(size: nat, n: nat, m: nat, q: nat)
    requires size * n == PAGE_SIZE
    ensures PAGE_SIZE * m + size * q == size * (n * m + q)
  {
    assert size * n * m == size * (n * m);
    assert size * (n * m + q) == size * (n * m) + size * q;
  }

  // ----- taking and giving back whole pages -----

  ghost function Taken(h: Heap): Heap
    requires h.pagesFree != [] && h.pagesFree[0] < |h.place|
  {
    h.(pagesFree := h.pagesFree[1..], place := h.place[h.pagesFree[0] := Whole])
  }

  lemma {:induction false} TakeOk(h: Heap)
    requires Ok(h) && h.pagesFree != []
    ensures h.pagesFree[0] in h.pagesFree && h.pagesFree[0] < |h.place| && h.place[h.pagesFree[0]] == Free
    ensures Ok(Taken(h))
  {
    assert h.pagesFree[0] in h.pagesFree;
    hide PageOk, SlotOf, PageId;
    var id, h' := h.pagesFree[0], Taken(h);
    assert Shape(h');
    TailDistinct(h.pagesFree);
    forall x ensures x in h'.pagesFree <==> 0 <= x < |h'.place| && h'.place[x] == Free {
      assert x in h.pagesFree <==> 0 <= x < |h.place| && h.place[x] == Free;
    }
    hide Distinct;
    forall k, x | 0 <= k <= SLAB_MAX_ORDER
      ensures x in h'.slabs[k] <==> 0 <= x < |h'.place| && h'.place[x] == Cut && h'.info[x].bucket == k
    {
      assert x in h.slabs[k] <==> 0 <= x < |h.place| && h.place[x] == Cut && h.info[x].bucket == k;
    }
    forall i | 0 <= i < |h'.place| ensures PageFits(h', i) {
      assert PageFits(h, i);
    }
    forall a ensures LiveAt(h', a) <==> LiveAt(h, a) {
    }
  }

  ghost function Given(h: Heap, id: nat): Heap
    requires id < |h.place|
  {
    h.(pagesFree := h.pagesFree + [id], place := h.place[id := Free])
  }

  lemma {:induction false} GiveOk(h: Heap, id: nat)
    requires Ok(h) && id < |h.place| && h.place[id] == Whole
    ensures Ok(Given(h, id))
  {
    hide PageOk, SlotOf, PageId;
    var h' := Given(h, id);
    assert Shape(h');
    assert id !in h.pagesFree;
    AppendDistinct(h.pagesFree, id);
    forall i | 0 <= i < |h'.place| ensures PageFits(h', i) {
      assert PageFits(h, i);
    }
    forall x ensures x in h'.pagesFree <==> 0 <= x < |h'.place| && h'.place[x] == Free {
      assert x in h.pagesFree <==> 0 <= x < |h.place| && h.place[x] == Free;
      assert x in h'.pagesFree <==> x in h.pagesFree || x == id;
    }
    hide Distinct;
    forall k, x | 0 <= k <= SLAB_MAX_ORDER
      ensures x in h'.slabs[k] <==> 0 <= x < |h'.place| && h'.place[x] == Cut && h'.info[x].bucket == k
    {
      assert x in h.slabs[k] <==> 0 <= x < |h.place| && h.place[x] == Cut && h.info[x].bucket == k;
    }
    assert ListsOk(h');
    forall a ensures LiveAt(h', a) <==> LiveAt(h, a) {
    }
    assert LiveOk(h');
  }

  // ----- partitions -----

  /** Valid except that the partitions of page id may all be free. */
  ghost predicate OkBut(h: Heap, id: nat) {
    && Shape(h) && ListsOk(h) && LiveOk(h) && id < |h.place| && h.place[id] == Cut
    && (forall i :: 0 <= i < |h.place| && i != id ==> PageFits(h, i))
    && PageOk(h.start, h.mem, id, h.info[id], h.free[id])
  }

  lemma {:induction false} OkIsOkBut(h: Heap, id: nat)
    requires Ok(h) && id < |h.place| && h.place[id] == Cut
    ensures OkBut(h, id) && h.info[id].cnt > 0
  {
    assert PageFits(h, id);
  }

  /** The first free partition of page id is handed out. */
  ghost function Popped(h: Heap, id: nat): Heap
    requires id < |h.info| == |h.free| && h.free[id] != [] && h.info[id].head in h.mem
  {
    var p, s := h.info[id], h.free[id];
    h.(info := h.info[id := p.(head := h.mem[p.head], cnt := p.cnt + 1)],
       free := h.free[id := s[1..]], live := h.live[s[0] := p.size])
  }

  lemma {:induction false} PopPage(start: nat, mem: map<nat, nat>, id: nat, p: Page, s: seq<nat>)
    requires PageOk(start, mem, id, p, s) && |s| >= 2
    ensures p.head == s[0] && s[0] in mem
    ensures PageOk(start, mem, id, p.(head := mem[p.head], cnt := p.cnt + 1), s[1..])
  {
    var t := s[1..];
    forall i | 0 <= i < |t| ensures t[i] in mem && mem[t[i]] == After(t, i) {
      assert t[i] == s[i + 1] && After(t, i) == After(s, i + 1);
    }
    assert mem[s[0]] == s[1];
    assert forall a :: a in t ==> a in s;
  }

  lemma {:induction false} PopOk(h: Heap, id: nat)
    requires OkBut(h, id) && |h.free[id]| >= 2
    ensures h.info[id].head == h.free[id][0] && h.info[id].head in h.mem && h.free[id][0] !in h.live
    ensures SlotOf(h.start, id, h.info[id].size, h.free[id][0])
    ensures Ok(Popped(h, id))
  {
    var p, s := h.info[id], h.free[id];
    PopPage(h.start, h.mem, id, p, s);
    var a0 := s[0];
    assert a0 in s && Distinct(s);
    hide PageOk, Chain, SlotOf, PageId, Distinct;
    assert SlotOf(h.start, id, p.size, a0);
    var h' := Popped(h, id);
    SlotPage(h.start, id, p.size, a0);
    TailDistinct(s);
    PopLists(h, h');
    forall i | 0 <= i < |h'.place| ensures PageFits(h', i) {
      if i != id {
        assert PageFits(h, i);
      }
    }
    hide ListsOk, PageFits;
    forall a ensures LiveAt(h', a) <==> LiveAt(h, a) || a == a0 {
    }
    assert !LiveAt(h, a0);
  }

  /** The lists depend on the places and the buckets only. */
  lemma {:induction false} PopLists(h: Heap, h': Heap)
    requires Shape(h) && ListsOk(h) && Shape(h') && h'.pagesFree == h.pagesFree && h'.slabs == h.slabs && h'.place == h.place
    requires forall i :: 0 <= i < |h.info| ==> h'.info[i].bucket == h.info[i].bucket
    ensures ListsOk(h')
  {
    hide Distinct;
    forall k, id | 0 <= k <= SLAB_MAX_ORDER
      ensures id in h'.slabs[k] <==> 0 <= id < |h'.place| && h'.place[id] == Cut && h'.info[id].bucket == k
    {
      assert id in h.slabs[k] <==> 0 <= id < |h.place| && h.place[id] == Cut && h.info[id].bucket == k;
    }
  }

  /** The partition p goes into the list of page id as its second element. */
  ghost function Pushed(h: Heap, id: nat, p: nat): Heap
    requires id < |h.info| == |h.free| && h.free[id] != [] && h.info[id].head in h.mem && h.info[id].cnt > 0
  {
    var pg, s := h.info[id], h.free[id];
    h.(info := h.info[id := pg.(cnt := pg.cnt - 1)], mem := h.mem[pg.head := p][p := h.mem[pg.head]],
       free := h.free[id := [s[0], p] + s[1..]], live := h.live - {p})
  }

  lemma {:induction false} PushPage(start: nat, mem: map<nat, nat>, id: nat, pg: Page, s: seq<nat>, p: nat)
    requires PageOk(start, mem, id, pg, s) && pg.cnt > 0 && SlotOf(start, id, pg.size, p) && p !in s && p in mem
    ensures pg.head == s[0] && s[0] in mem
    ensures PageOk(start, mem[pg.head := p][p := mem[pg.head]], id, pg.(cnt := pg.cnt - 1), [s[0], p] + s[1..])
  {
    var mem', t := mem[pg.head := p][p := mem[pg.head]], [s[0], p] + s[1..];
    forall i | 0 <= i < |t| ensures t[i] in mem' && mem'[t[i]] == After(t, i) {
      if i >= 2 {
        assert t[i] == s[i - 1] != s[0] && s[i - 1] in s && After(t, i) == After(s, i - 1);
      } else {
        assert s[0] in s && After(t, 1) == After(s, 0);
      }
    }
    forall i, j | 0 <= i < j < |t| ensures t[i] != t[j] {
      assert j >= 2 ==> t[j] == s[j - 1];
      assert i >= 2 ==> t[i] == s[i - 1];
    }
    forall a | a in t ensures SlotOf(start, id, pg.size, a) {
      assert a == p || a in s;
    }
  }

  /** Stores into page id leave the other cut pages in order. */
  lemma {:induction false} OtherPageKept(start: nat, mem: map<nat, nat>, mem': map<nat, nat>, id: nat, i: nat, p: Page, s: seq<nat>)
    requires PageOk(start, mem, i, p, s) && i != id && mem'.Keys == mem.Keys
    requires forall a :: a in mem && !(PageAddr(start, id) <= a < PageAddr(start, id) + PAGE_SIZE) ==> mem'[a] == mem[a]
    ensures PageOk(start, mem', i, p, s)
  {
    forall j | 0 <= j < |s| ensures s[j] in mem' && mem'[s[j]] == mem[s[j]] {
      assert SlotOf(start, i, p.size, s[j]);
    }
  }

  lemma {:induction false} PushOk(h: Heap, id: nat, p: nat)
    requires Ok(h) && p in h.live && h.start <= p && id == PageId(h.start, p)
    ensures id < |h.place| && h.place[id] == Cut && h.info[id].cnt > 0 && h.free[id] != []
    ensures h.info[id].head == h.free[id][0] != p && h.info[id].head in h.mem && p in h.mem
    ensures SlotOf(h.start, id, h.info[id].size, p) && SlotOf(h.start, id, h.info[id].size, h.info[id].head)
    ensures OkBut(Pushed(h, id, p), id)
  {
    assert LiveAt(h, p) && PageFits(h, id);
    var pg, s := h.info[id], h.free[id];
    assert s[0] in s;
    assert PageAddr(h.start, id) + PAGE_SIZE <= h.start + PAGE_SIZE * |h.info|;
    PushPage(h.start, h.mem, id, pg, s, p);
    hide PageOk, Chain, PageId, Distinct;
    var h' := Pushed(h, id, p);
    assert Shape(h');
    PopLists(h, h');
    hide ListsOk;
    forall i | 0 <= i < |h'.place| && i != id ensures PageFits(h', i) {
      assert PageFits(h, i);
      if h.place[i] == Cut {
        OtherPageKept(h.start, h.mem, h'.mem, id, i, h.info[i], h.free[i]);
      }
    }
    hide PageFits, SlotOf;
    assert forall a :: a in h'.free[id] <==> a in s || a == p;
    forall a ensures LiveAt(h', a) <==> LiveAt(h, a) && a != p {
    }
  }

  // ----- recycling a page -----

  function SlotIndex(start: nat, id: nat, size: nat, a: nat): nat
    requires size > 0 && PageAddr(start, id) <= a
  {
    (a - PageAddr(start, id)) / size
  }

  lemma {:induction false} SlotIndexOf(start: nat, id: nat, k: nat, a: nat)
    requires MIN_ORDER <= k <= SLAB_MAX_ORDER && SlotOf(start, id, Pow2(k), a)
    ensures PageAddr(start, id) <= a && a == SlotAddr(start, id, Pow2(k), SlotIndex(start, id, Pow2(k), a))
    ensures SlotIndex(start, id, Pow2(k), a) < Slots(Pow2(k))
  {
    var size := Pow2(k);
    Orders(k);
    var q := SlotIndex(start, id, size, a);
    assert a - PageAddr(start, id) == size * q;
    if q >= Slots(size) {
      MulMono(Slots(size), q, size);
    }
  }

  lemma {:induction false} Indices(start: nat, id: nat, k: nat, s: seq<nat>) returns (xs: seq<nat>)
    requires MIN_ORDER <= k <= SLAB_MAX_ORDER && forall i :: 0 <= i < |s| ==> SlotOf(start, id, Pow2(k), s[i])
    ensures |xs| == |s|
    ensures forall i :: 0 <= i < |s| ==> s[i] == SlotAddr(start, id, Pow2(k), xs[i]) && xs[i] < Slots(Pow2(k))
  {
    hide Pow2, SlotAddr, SlotIndex, SlotOf;
    xs := [];
    for n := 0 to |s|
      invariant |xs| == n
      invariant forall i :: 0 <= i < n ==> s[i] == SlotAddr(start, id, Pow2(k), xs[i]) && xs[i] < Slots(Pow2(k))
    {
      SlotIndexOf(start, id, k, s[n]);
      xs := xs + [SlotIndex(start, id, Pow2(k), s[n])];
    }
  }

  /** A page whose count is 0 has every partition in its list. */
  lemma {:induction false} AllFree(start: nat, mem: map<nat, nat>, id: nat, p: Page, s: seq<nat>, a: nat)
    requires PageOk(start, mem, id, p, s) && p.cnt == 0 && SlotOf(start, id, p.size, a)
    ensures a in s
  {
    hide Pow2, Chain, SlotIndex, SlotOf, SlotAddr;
    assert forall i :: 0 <= i < |s| ==> s[i] in s;
    var xs := Indices(start, id, p.bucket, s);
    var ys := Indices(start, id, p.bucket, [a]);
    var x := ys[0];
    assert [a][0] == SlotAddr(start, id, p.size, x);
    forall i, j | 0 <= i < j < |xs| ensures xs[i] != xs[j] {
      assert s[i] != s[j];
    }
    Pigeons(xs, Slots(p.size), x);
    var i :| 0 <= i < |xs| && xs[i] == x;
    assert s[i] == a;
  }

  /** A page whose partitions are all free leaves its bucket and goes to the free list. */
  ghost function Recycled(h: Heap, id: nat): Heap
    requires id < |h.place| == |h.info| && h.info[id].bucket < |h.slabs|
  {
    var k := h.info[id].bucket;
    h.(slabs := h.slabs[k := Without(h.slabs[k], id)], pagesFree := h.pagesFree + [id], place := h.place[id := Free])
  }

  lemma {:induction false} RecycleLists(h: Heap, id: nat)
    requires Shape(h) && ListsOk(h) && id < |h.place| && h.place[id] == Cut && h.info[id].bucket <= SLAB_MAX_ORDER
    ensures Shape(Recycled(h, id)) && ListsOk(Recycled(h, id))
  {
    hide Without;
    var k, h' := h.info[id].bucket, Recycled(h, id);
    assert Shape(h');
    assert id in h.slabs[k] <==> 0 <= id < |h.place| && h.place[id] == Cut && h.info[id].bucket == k;
    var i :| 0 <= i < |h.slabs[k]| && h.slabs[k][i] == id;
    WithoutDistinct(h.slabs[k], i);
    AppendDistinct(h.pagesFree, id);
    hide Distinct;
    forall j, x | 0 <= j <= SLAB_MAX_ORDER
      ensures x in h'.slabs[j] <==> 0 <= x < |h'.place| && h'.place[x] == Cut && h'.info[x].bucket == j
    {
      assert x in h.slabs[j] <==> 0 <= x < |h.place| && h.place[x] == Cut && h.info[x].bucket == j;
    }
  }

  lemma {:induction false} RecycleOk(h: Heap, id: nat)
    requires OkBut(h, id) && h.info[id].cnt == 0
    ensures h.info[id].bucket <= SLAB_MAX_ORDER && Ok(Recycled(h, id))
  {
    assert h.info[id].bucket <= SLAB_MAX_ORDER;
    RecycleLists(h, id);
    hide PageOk, Without, ListsOk, SlotOf, PageId;
    var h' := Recycled(h, id);
    forall i | 0 <= i < |h'.place| ensures PageFits(h', i) {
      if i != id {
        assert PageFits(h, i);
      }
    }
    forall a ensures LiveAt(h', a) <==> LiveAt(h, a) {
      if LiveAt(h, a) && PageId(h.start, a) == id {
        AllFree(h.start, h.mem, id, h.info[id], h.free[id], a);
      }
    }
  }

  // ----- cutting a page -----

  /** The partitions of a page in address order. */
  ghost function AllSlots(start: nat, id: nat, size: nat, count: nat): (s: seq<nat>)
    ensures |s| == count && forall n :: 0 <= n < count ==> s[n] == SlotAddr(start, id, size, n)
  {
    seq(count, (n: nat) => SlotAddr(start, id, size, n))
  }

  lemma {:induction false} AllSlotsOk(start: nat, id: nat, k: nat)
    requires MIN_ORDER <= k <= SLAB_MAX_ORDER
    ensures var s := AllSlots(start, id, Pow2(k), Slots(Pow2(k)));
            && Distinct(s) && |s| >= 2 && s[0] == PageAddr(start, id)
            && forall a: nat :: a in s <==> SlotOf(start, id, Pow2(k), a)
  {
    hide AllSlots, Pow2, SlotAddr, SlotOf, SlotIndex;
    Orders(k);
    var size, count := Pow2(k), Slots(Pow2(k));
    var s := AllSlots(start, id, size, count);
    forall i, j | 0 <= i < j < |s| ensures s[i] != s[j] {
      SlotAddrLess(start, id, size, i, j);
    }
    forall n | 0 <= n < |s| ensures SlotOf(start, id, size, s[n]) {
      SlotAddrOk(start, id, size, count, n);
    }
    forall a: nat | SlotOf(start, id, size, a) ensures a in s {
      SlotIndexOf(start, id, k, a);
      assert s[SlotIndex(start, id, size, a)] == a;
    }
    SlotAddrFirst(start, id, size);
  }

  lemma {:induction false} SlotAddrFirst(start: nat, id: nat, size: nat)
    ensures SlotAddr(start, id, size, 0) == PageAddr(start, id)
  {
  }

  lemma {:induction false} SlotAddrLess(start: nat, id: nat, size: nat, i: nat, j: nat)
    requires i < j && size > 0
    ensures SlotAddr(start, id, size, i) < SlotAddr(start, id, size, j)
  {
    MulMono(i + 1, j, size);
    assert size * (i + 1) == size * i + size;
  }

  lemma {:induction false} SlotAddrOk(start: nat, id: nat, size: nat, count: nat, n: nat)
    requires n < count && size > 0 && size * count == PAGE_SIZE
    ensures SlotOf(start, id, size, SlotAddr(start, id, size, n))
  {
    MulMono(n + 1, count, size);
    assert size * (n + 1) == size * n + size;
    MultipleMod(size, n);
  }

  /** The page id, handed out whole, cut into partitions of order k, all free. */
  ghost function CutPage(h: Heap, mem: map<nat, nat>, id: nat, k: nat): Heap
    requires id < |h.place| == |h.info| == |h.free| && k < |h.slabs|
  {
    h.(mem := mem, info := h.info[id := Page(Pow2(k), PageAddr(h.start, id), h.info[id].cnt, k)],
       place := h.place[id := Cut], free := h.free[id := AllSlots(h.start, id, Pow2(k), Slots(Pow2(k)))],
       slabs := h.slabs[k := h.slabs[k] + [id]])
  }

  lemma {:induction false} CutLists(h: Heap, mem: map<nat, nat>, id: nat, k: nat)
    requires Shape(h) && ListsOk(h) && id < |h.place| && h.place[id] == Whole && k <= SLAB_MAX_ORDER && mem.Keys == h.mem.Keys
    ensures Shape(CutPage(h, mem, id, k)) && ListsOk(CutPage(h, mem, id, k))
  {
    hide AllSlots, Pow2;
    var h' := CutPage(h, mem, id, k);
    assert Shape(h');
    assert id !in h.slabs[k];
    AppendDistinct(h.slabs[k], id);
    hide Distinct;
    forall x ensures x in h'.pagesFree <==> 0 <= x < |h'.place| && h'.place[x] == Free {
      assert x in h.pagesFree <==> 0 <= x < |h.place| && h.place[x] == Free;
    }
    forall j, x | 0 <= j <= SLAB_MAX_ORDER
      ensures x in h'.slabs[j] <==> 0 <= x < |h'.place| && h'.place[x] == Cut && h'.info[x].bucket == j
    {
      assert x in h.slabs[j] <==> 0 <= x < |h.place| && h.place[x] == Cut && h.info[x].bucket == j;
    }
  }

  lemma {:induction false} CutOk(h: Heap, mem: map<nat, nat>, id: nat, k: nat)
    requires Ok(h) && id < |h.place| && h.place[id] == Whole && MIN_ORDER <= k <= SLAB_MAX_ORDER && mem.Keys == h.mem.Keys
    requires forall a :: a in h.mem && !(PageAddr(h.start, id) <= a < PageAddr(h.start, id) + PAGE_SIZE) ==> mem[a] == h.mem[a]
    requires Chain(mem, PageAddr(h.start, id), AllSlots(h.start, id, Pow2(k), Slots(Pow2(k))))
    ensures OkBut(CutPage(h, mem, id, k), id) && |AllSlots(h.start, id, Pow2(k), Slots(Pow2(k)))| >= 2
  {
    CutLists(h, mem, id, k);
    AllSlotsOk(h.start, id, k);
    var h', s := CutPage(h, mem, id, k), AllSlots(h.start, id, Pow2(k), Slots(Pow2(k)));
    assert PageFits(h, id);
    hide ListsOk, SlotOf, PageId, Distinct, Chain, AllSlots, Pow2;
    assert PageOk(h'.start, h'.mem, id, h'.info[id], s);
    forall i | 0 <= i < |h'.place| && i != id ensures PageFits(h', i) {
      assert PageFits(h, i);
      if h.place[i] == Cut {
        OtherPageKept(h.start, h.mem, mem, id, i, h.info[i], h.free[i]);
      }
    }
    hide PageOk, PageFits;
    forall a ensures LiveAt(h', a) <==> LiveAt(h, a) {
    }
  }

  // ----- stores by the users of the memory -----

  /** Word a belongs to a live partition, or to a page that is not cut. */
  ghost predicate Writable(h: Heap, a: nat)
    requires Shape(h)
  {
    && h.start <= a && PageId(h.start, a) < |h.place|
    && (h.place[PageId(h.start, a)] != Cut || exists b :: b in h.live && b <= a < b + h.live[b])
  }

  lemma {:induction false} WriteOk(h: Heap, a: nat, x: nat)
    requires Ok(h) && Writable(h, a)
    ensures Ok(h.(mem := h.mem[a := x]))
  {
    var h', j := h.(mem := h.mem[a := x]), PageId(h.start, a);
    assert a in h.mem;
    assert Shape(h');
    PopLists(h, h');
    forall i | 0 <= i < |h.place| ensures PageFits(h', i) {
      assert PageFits(h, i);
      if h.place[i] == Cut {
        var s := h.free[i];
        forall n | 0 <= n < |s| ensures s[n] != a {
          assert s[n] in s;
          FreeNotWritable(h, i, s[n], a);
        }
      }
    }
    hide SlotOf, PageId, ListsOk, PageFits;
    forall b ensures LiveAt(h', b) <==> LiveAt(h, b) {
    }
  }

  /** A free partition's link word is in no live partition. */
  lemma {:induction false} FreeNotWritable(h: Heap, i: nat, f: nat, a: nat)
    requires Ok(h) && Writable(h, a) && i < |h.place| && h.place[i] == Cut && f in h.free[i]
    ensures f != a
  {
    assert PageFits(h, i);
    SlotPage(h.start, i, h.info[i].size, f);
    if f == a {
      var b :| b in h.live && b <= a < b + h.live[b];
      LiveSlot(h, b);
      if PageId(h.start, b) == i && b != f {
        SlotsApart(h.start, i, h.info[i].size, b, f);
      }
    }
  }

  /** A live partition is a partition of a cut page and lies inside it. */
  lemma {:induction false} LiveSlot(h: Heap, b: nat)
    requires Ok(h) && b in h.live
    ensures h.start <= b && PageId(h.start, b) < |h.place|
    ensures var j := PageId(h.start, b);
            && h.place[j] == Cut && h.live[b] == h.info[j].size && SlotOf(h.start, j, h.info[j].size, b) && b !in h.free[j]
            && b + h.live[b] <= PageAddr(h.start, j) + PAGE_SIZE
  {
    assert LiveAt(h, b);
    var j := PageId(h.start, b);
    assert PageFits(h, j);
    SlotFits(h.start, j, h.info[j].bucket, b);
  }

  /** A store to a free partition, or to one being freed, touches no other live partition. */
  lemma {:induction false} SlotStoreKeeps(h: Heap, id: nat, f: nat, b: nat, w: nat)
    requires Ok(h) && id < |h.place| && h.place[id] == Cut && SlotOf(h.start, id, h.info[id].size, f)
    requires b in h.live && b != f && b <= w < b + h.live[b]
    ensures w != f
  {
    LiveSlot(h, b);
    SlotPage(h.start, id, h.info[id].size, f);
    if PageId(h.start, b) == id {
      SlotsApart(h.start, id, h.info[id].size, b, f);
    }
  }

  /** Word w is in a live partition or in a page handed out whole. */
  ghost predicate InUse(h: Heap, w: nat)
    requires Shape(h)
  {
    && h.start <= w && PageId(h.start, w) < |h.place|
    && (h.place[PageId(h.start, w)] == Whole || exists b :: b in h.live && b <= w < b + h.live[b])
  }

  /** The words in use in h, but those of the partition at p, have kept their values. */
  ghost predicate Kept(h: Heap, h': Heap, p: nat) {
    Shape(h) && forall w: nat :: InUse(h, w) && !(p in h.live && p <= w < p + h.live[p]) ==>
      w in h.mem && w in h'.mem && h'.mem[w] == h.mem[w]
  }

  /** Stores into a page that was free touch no word in use. */
  lemma {:induction false} PageStoresKeep(h: Heap, h': Heap, id: nat, p: nat)
    requires Ok(h) && id < |h.place| && h.place[id] == Free && h'.mem.Keys == h.mem.Keys
    requires forall a :: a in h.mem && !(PageAddr(h.start, id) <= a < PageAddr(h.start, id) + PAGE_SIZE) ==> h'.mem[a] == h.mem[a]
    ensures Kept(h, h', p)
  {
    forall w: nat | InUse(h, w) ensures w in h.mem && h'.mem[w] == h.mem[w] {
      if h.place[PageId(h.start, w)] != Whole {
        var b :| b in h.live && b <= w < b + h.live[b];
        LiveSlot(h, b);
      }
    }
  }

  /** Freeing p stores into p and into one free partition, and so touches no other word in use. */
  lemma {:induction false} PushKeeps(h: Heap, h': Heap, id: nat, f: nat, p: nat)
    requires Ok(h) && p in h.live && id < |h.place| && h.place[id] == Cut && f in h.free[id]
    requires SlotOf(h.start, id, h.info[id].size, f) && SlotOf(h.start, id, h.info[id].size, p)
    requires h'.mem.Keys == h.mem.Keys && forall a :: a in h.mem && a != f && a != p ==> h'.mem[a] == h.mem[a]
    ensures Kept(h, h', p)
  {
    SlotPage(h.start, id, h.info[id].size, f);
    SlotPage(h.start, id, h.info[id].size, p);
    LiveSlot(h, p);
    assert PageFits(h, id);
    Orders(h.info[id].bucket);
    hide PageOk, SlotOf, ListsOk, PageFits, Pow2, PageId;
    assert !LiveAt(h, f) && f != p;
    forall w: nat | InUse(h, w) && !(p <= w < p + h.live[p]) ensures w in h.mem && h'.mem[w] == h.mem[w] {
      if h.place[PageId(h.start, w)] != Whole {
        var b :| b in h.live && b <= w < b + h.live[b];
        LiveSlot(h, b);
        SlotStoreKeeps(h, id, f, b, w);
      }
    }
  }

  datatype Allocation = Fault | Block(addr: nat)

  class Allocator {
    const start: nat
    var mem: map<nat, nat>
    var info: seq<Page>
    var pagesFree: seq<nat>
    var slabs: seq<seq<nat>>
    var pagesOut: nat
    ghost var place: seq<Place>
    ghost var free: seq<seq<nat>>
    ghost var live: map<nat, nat>

    ghost function State(): Heap
      reads this
    {
      Heap(start, mem, info, pagesFree, slabs, place, free, live)
    }

    ghost predicate Valid()
      reads this
    {
      Ok(State()) && pagesOut + |pagesFree| == |info|
    }

    /** At start-up every page is on the free list; the contents of memory are arbitrary. */
    constructor (start: nat, n: nat, mem: map<nat, nat>)
      requires start > 0 && start % PAGE_SIZE == 0
      requires forall a :: start <= a < start + PAGE_SIZE * n ==> a in mem
      ensures Valid() && live == map[] && |pagesFree| == |info| == n && pagesOut == 0 && this.mem == mem
      ensures this.start == start && place == seq(n, _ => Free) && forall j :: 0 <= j < n ==> pagesFree[j] == j
    {
      this.start, this.mem, pagesOut := start, mem, 0;
      slabs := seq(SLAB_MAX_ORDER + 1, _ => []);
      place, free, live := seq(n, _ => Free), seq(n, _ => []), map[];
      var l, pages, i := [], [], 0;
      while i < n
        invariant 0 <= i <= n && |l| == |pages| == i
        invariant forall j :: 0 <= j < i ==> l[j] == j && pages[j] == Page(0, PageAddr(start, j), 0, 0)
      {
        l, pages, i := l + [i], pages + [Page(0, PageAddr(start, i), 0, 0)], i + 1;
      }
      pagesFree, info := l, pages;
      new;
      ghost var h := State();
      assert Shape(h) && Distinct(h.pagesFree);
      forall x ensures x in h.pagesFree <==> 0 <= x < n {
        if 0 <= x < n {
          assert h.pagesFree[x] == x;
        }
      }
      assert ListsOk(h);
      assert forall id :: 0 <= id < n ==> PageFits(h, id);
      assert forall a :: !LiveAt(h, a);
    }

    /** Hands out the first free page; faults exactly when there is none. */
    method KallocPage() returns (r: Allocation)
      requires Valid()
      modifies this`pagesFree, this`pagesOut, this`place
      ensures Valid() && (r == Fault <==> old(pagesFree) == [])
      ensures r == Fault ==> State() == old(State())
      ensures r != Fault ==> r.addr == PageAddr(start, old(pagesFree)[0]) && old(pagesFree)[0] < |old(place)|
                             && old(place)[old(pagesFree)[0]] == Free && State() == Taken(old(State()))
      ensures r != Fault ==> r.addr == start + 4096 * old(pagesFree)[0] && pagesFree == old(pagesFree)[1..]
                             && place == old(place)[old(pagesFree)[0] := Whole]
    {
      hide Ok;
      if pagesFree == [] {
        return Fault;
      }
      TakeOk(State());
      var id := pagesFree[0];
      pagesFree, pagesOut := pagesFree[1..], pagesOut + 1;
      place := place[id := Whole];
      r := Block(PageAddr(start, id));
    }

    /** Takes back a page that was handed out whole. */
    method KfreePage(p: nat)
      requires Valid() && start <= p && p == PageAddr(start, PageId(start, p))
      requires PageId(start, p) < |place| && place[PageId(start, p)] == Whole
      modifies this`pagesFree, this`pagesOut, this`place
      ensures Valid() && State() == Given(old(State()), PageId(start, p))
      ensures pagesFree == old(pagesFree) + [(p - start) / 4096] && place == old(place)[(p - start) / 4096 := Free]
    {
      var id := PageId(start, p);
      assert |pagesFree| < |info| by {
        ghost var s := pagesFree + [id];
        AppendDistinct(pagesFree, id);
        CountBelow(s, |info|);
      }
      GiveOk(State(), id);
      pagesFree, pagesOut := pagesFree + [id], pagesOut - 1;
      place := place[id := Free];
    }

    /** The least power of two that holds n bytes, at least 8, and its exponent. */
    static method RoundUp(n: nat) returns (size: nat, k: nat)
      requires 0 < n <= 2048
      ensures MIN_ORDER <= k <= SLAB_MAX_ORDER && size == Pow2(k) && n <= size && (size == 8 || size < 2 * n)
      ensures k == OrderOf(n, MIN_ORDER)
    {
      var result, index := 1, 0;
      while result < n
        invariant result == Pow2(index) && (index == 0 || result < 2 * n)
        invariant index <= SLAB_MAX_ORDER || result >= 2048
        decreases n - result
      {
        result, index := result * 2, index + 1;
      }
      assert Pow2(3) == 8 && Pow2(11) == 2048 && Pow2(12) == 4096;
      size := if result >= 8 then result else 8;
      k := if index >= MIN_ORDER then index else MIN_ORDER;
      Pow2Order(index);
      OrderIs(n, k, MIN_ORDER);
    }

    /** Links the partitions of a page into a list in address order. */
    method LinkSlots(id: nat, size: nat, page: nat)
      requires Shape(State()) && id < |info| && page == PageAddr(start, id)
      requires 0 < size && size * (Slots(size)) == PAGE_SIZE
      modifies this`mem
      ensures mem.Keys == old(mem).Keys && Chain(mem, page, AllSlots(start, id, size, Slots(size)))
      ensures forall j :: 0 <= j < Slots(size) ==> SlotAddr(start, id, size, j) in mem
      ensures forall j :: 0 <= j < Slots(size) ==>
                mem[SlotAddr(start, id, size, j)] == if j + 1 < Slots(size) then SlotAddr(start, id, size, j + 1) else 0
      ensures forall a :: a in mem && !(page <= a < page + PAGE_SIZE) ==> mem[a] == old(mem)[a]
    {
      hide SlotAddr, Chain, AllSlots, PageAddr;
      ghost var h, n, count := State(), 0, Slots(size);
      SlotAddrFirst(start, id, size);
      var p := page;
      while p < page + PAGE_SIZE - size
        invariant 0 <= n < count && p == SlotAddr(start, id, size, n) && mem.Keys == h.mem.Keys
        invariant forall j :: 0 <= j < n ==> SlotAddr(start, id, size, j) in mem
        invariant forall j :: 0 <= j < n ==> mem[SlotAddr(start, id, size, j)] == SlotAddr(start, id, size, j + 1)
        invariant forall a :: a in mem && !(page <= a < page + PAGE_SIZE) ==> mem[a] == h.mem[a]
        decreases page + PAGE_SIZE - p
      {
        SlotAddrNext(start, id, size, count, n);
        InManaged(h, id, p);
        SlotAddrsBelow(start, id, size, n);
        mem := mem[p := p + size];
        p := p + size;
        n := n + 1;
      }
      SlotAddrNext(start, id, size, count, n);
      InManaged(h, id, p);
      SlotAddrsBelow(start, id, size, n);
      mem := mem[p := 0];
      ChainOfSlots(mem, start, id, size, count);
    }

    /** Takes a free page and links its partitions of order k into a list. */
    method PartitionPage(k: nat) returns (r: Allocation)
      requires Valid() && MIN_ORDER <= k <= SLAB_MAX_ORDER
      modifies this`mem, this`info, this`pagesFree, this`pagesOut, this`place, this`free
      ensures r == Fault <==> old(pagesFree) == []
      ensures r == Fault ==> State() == old(State()) && pagesOut == old(pagesOut)
      ensures r != Fault ==> var h, id := old(State()), old(pagesFree)[0];
                && r.addr == PageAddr(start, id) && id < |h.place| && h.place[id] == Free && mem.Keys == h.mem.Keys
                && State() == CutPage(Taken(h), mem, id, k).(slabs := h.slabs)
                && OkBut(CutPage(Taken(h), mem, id, k), id) && Kept(h, State(), 0) && pagesOut == old(pagesOut) + 1
                && Slots(Pow2(k)) >= 2
    {
      hide Ok, Pow2, Chain, AllSlots, PageAddr, PageId, OkBut, Kept, SlotOf;
      ghost var h := State();
      OkShape(h);
      ghost var taken := if pagesFree == [] then 0 else pagesFree[0];
      r := KallocPage();
      if r == Fault {
        return;
      }
      ghost var h1 := State();
      OkShape(h1);
      Orders(k);
      PageIdOf(start, taken);
      var size, page := Pow2(k), r.addr;
      var id := PageId(start, page);
      LinkSlots(id, size, page);
      info := info[id := Page(size, page, info[id].cnt, k)];
      place := place[id := Cut];
      free := free[id := AllSlots(start, id, size, Slots(size))];
      CutOk(h1, mem, id, k);
      PageStoresKeep(h, State(), id, 0);
      assert State() == CutPage(Taken(h), mem, id, k).(slabs := h.slabs);
    }

    /** Hands out the first partition of the page's list. */
    method AllocPartition(id: nat) returns (a: nat)
      requires OkBut(State(), id) && |free[id]| >= 2
      modifies this`info, this`free, this`live
      ensures Ok(State()) && a == old(free[id][0]) == old(info[id].head) && a in old(mem) && State() == Popped(old(State()), id)
      ensures a !in old(live) && old(SlotOf(start, id, info[id].size, a))
    {
      PopOk(State(), id);
      hide OkBut, Ok;
      ghost var h := State();
      a := info[id].head;
      ghost var size := info[id].size;
      info := info[id := info[id].(head := mem[a], cnt := info[id].cnt + 1)];
      free := free[id := free[id][1..]];
      live := live[a := size];
    }

    /**
     Allocates n bytes: a whole page above 2048, otherwise a partition of the least
     size that fits, aligned to it, apart from all live ones.  No word that is in use
     changes.  It faults exactly when a page is needed and none is free.
     */
    method Kalloc(n: nat) returns (r: Allocation)
      requires Valid() && 0 < n <= PAGE_SIZE
      modifies this
      ensures r != Fault ==> Valid() && Kept(old(State()), State(), 0)
      ensures r == Fault ==> old(pagesFree) == [] && State() == old(State()) && Valid()
      ensures r != Fault && n > 2048 ==> old(pagesFree) != [] && r.addr == PageAddr(start, old(pagesFree)[0])
                                         && old(pagesFree)[0] < |old(place)| && State() == Taken(old(State()))
      ensures r != Fault && n <= 2048 ==> r.addr !in old(live) && r.addr in live && live == old(live)[r.addr := live[r.addr]]
      ensures r != Fault && n <= 2048 ==>
                var size := live[r.addr]; n <= size && (size == 8 || size < 2 * n) && size > 0 && r.addr % size == 0
      ensures r == Fault <==> old(pagesFree) == [] && (n <= 2048 ==> !old(HasRoom(State(), OrderOf(n, MIN_ORDER))))
      ensures r != Fault && n <= 2048 ==>
                if old(HasRoom(State(), OrderOf(n, MIN_ORDER)))
                then && FromBucket(old(State()), State(), OrderOf(n, MIN_ORDER))
                     && place == old(place) && pagesFree == old(pagesFree) && mem == old(mem) && slabs == old(slabs)
                     && (exists id :: id in old(slabs)[OrderOf(n, MIN_ORDER)] && 0 <= id < |old(info)| && r.addr == old(info)[id].head)
                else && FromNewPage(old(State()), State(), OrderOf(n, MIN_ORDER))
                     && old(pagesFree) != [] && old(pagesFree)[0] < |old(place)|
                     && place == old(place)[old(pagesFree)[0] := Cut] && pagesFree == old(pagesFree)[1..]
                     && r.addr == PageAddr(start, old(pagesFree)[0])
                     && slabs == old(slabs)[OrderOf(n, MIN_ORDER) := old(slabs)[OrderOf(n, MIN_ORDER)] + [old(pagesFree)[0]]]
    {
      hide Ok, OkBut, Kept, Pow2, PageAddr, PageId, SlotOf, HasRoom, FromBucket, FromNewPage, AllSlots;
      ghost var h := State();
      OkShape(h);
      if n > 2048 {
        r := KallocPage();
        KeptSame(h, State());
        return;
      }
      var size, k := RoundUp(n);
      var i := 0;
      while i < |slabs[k]|
        invariant State() == h && pagesOut == old(pagesOut)
        invariant 0 <= i <= |slabs[k]|
        invariant forall j :: 0 <= j < i ==> !Roomy(h, slabs[k][j])
      {
        var id := slabs[k][i];
        BucketPage(h, k, id);
        if info[id].cnt + 1 < Slots(info[id].size) {
          RoomFound(h, k, i);
          var a := AllocPartition(id);
          BucketTaken(h, State(), k, i);
          AlignedSlot(start, id, k, a);
          KeptSame(h, State());
          return Block(a);
        }
        i := i + 1;
      }
      NoRoom(h, k);
      ghost var taken := if pagesFree == [] then 0 else pagesFree[0];
      r := PartitionPage(k);
      if r == Fault {
        return;
      }
      ghost var h1 := State();
      PageIdOf(start, taken);
      var id := PageId(start, r.addr);
      slabs := slabs[k := slabs[k] + [id]];
      assert State() == CutPage(Taken(h), mem, id, k);
      var a := AllocPartition(id);
      NewPageTaken(h, State(), k);
      AllSlotsOk(start, id, k);
      AlignedSlot(start, id, k, a);
      r := Block(a);
      KeptMem(h, h1, State(), 0);
    }

    /**
     Frees the partition at p: it goes into its page's list, and a page with no live
     partition left goes back to the free list.  No other word in use changes.
     */
    method Kfree(p: nat)
      requires Valid() && p in live
      modifies this
      ensures Valid() && live == old(live) - {p} && Kept(old(State()), State(), p)
      ensures start <= p && PageId(start, p) < |old(info)| == |old(place)| == |info| && old(info)[PageId(start, p)].cnt > 0
      ensures FreedTo(old(State()), State(), PageId(start, p), p)
      ensures var id := PageId(start, p);
              && id < |old(info)| && old(info)[id].cnt > 0 && old(info)[id].head in old(mem)
              && info == old(info)[id := old(info)[id].(cnt := old(info)[id].cnt - 1)]
              && mem == old(mem)[old(info)[id].head := p][p := old(mem)[old(info)[id].head]]
      ensures if old(info)[PageId(start, p)].cnt == 1
              then place == old(place)[PageId(start, p) := Free] && pagesFree == old(pagesFree) + [PageId(start, p)]
              else place == old(place) && pagesFree == old(pagesFree)
    {
      hide Ok, OkBut, Kept, PageId, SlotOf, PageAddr;
      ghost var h := State();
      LiveSlot(h, p);
      OkShape(h);
      var id := PageId(start, p);
      PushOk(h, id, p);
      info := info[id := info[id].(cnt := info[id].cnt - 1)];
      var tmp := mem[info[id].head];
      mem := mem[info[id].head := p];
      mem := mem[p := tmp];
      ghost var s := free[id];
      free := free[id := [s[0], p] + s[1..]];
      live := live - {p};
      assert State() == Pushed(h, id, p);
      PushKeeps(h, State(), id, s[0], p);
      ghost var h1 := State();
      if info[id].cnt == 0 {
        Recycle(id);
        KeptMem(h, h1, State(), p);
      } else {
        OkButOk(State(), id);
      }
    }

    /** Takes a page with no live partition out of its bucket and gives it back. */
    method Recycle(id: nat)
      requires OkBut(State(), id) && info[id].cnt == 0 && pagesOut + |pagesFree| == |info|
      modifies this`slabs, this`pagesFree, this`pagesOut, this`place
      ensures Valid() && info[id].bucket < |old(slabs)| && State() == Recycled(old(State()), id)
    {
      RecycleOk(State(), id);
      RoomOnList(State(), id);
      hide Ok, OkBut;
      var k := info[id].bucket;
      slabs := slabs[k := Without(slabs[k], id)];
      pagesFree, pagesOut := pagesFree + [id], pagesOut - 1;
      place := place[id := Free];
    }

    /** A store by whoever holds the word keeps the allocator's state valid. */
    method Store(a: nat, x: nat)
      requires Valid() && Writable(State(), a)
      modifies this`mem
      ensures Valid() && mem == old(mem)[a := x]
    {
      WriteOk(State(), a, x);
      mem := mem[a := x];
    }
  }

  lemma {:induction false} OkButOk(h: Heap, id: nat)
    requires OkBut(h, id) && h.info[id].cnt > 0
    ensures Ok(h)
  {
    forall i | 0 <= i < |h.place| ensures PageFits(h, i) {
    }
  }

  /** While a page is cut, not every page is on the free list. */
  lemma {:induction false} RoomOnList(h: Heap, id: nat)
    requires OkBut(h, id)
    ensures |h.pagesFree| < |h.info|
  {
    AppendDistinct(h.pagesFree, id);
    CountBelow(h.pagesFree + [id], |h.info|);
  }

  /** A page of the bucket has a partition to give and another one left. */
  ghost predicate Roomy(h: Heap, id: nat) {
    id < |h.info| && h.info[id].size > 0 && h.info[id].cnt + 1 < Slots(h.info[id].size)
  }

  ghost predicate HasRoom(h: Heap, k: nat) {
    k < |h.slabs| && exists i :: 0 <= i < |h.slabs[k]| && Roomy(h, h.slabs[k][i])
  }

  lemma {:induction false} BucketPage(h: Heap, k: nat, id: nat)
    requires Ok(h) && MIN_ORDER <= k < |h.slabs| && id in h.slabs[k]
    ensures id < |h.place| == |h.info| == |h.free| && h.place[id] == Cut && h.info[id].size == Pow2(k) > 0
    ensures h.info[id].cnt + |h.free[id]| == Slots(h.info[id].size) && OkBut(h, id)
  {
    assert id in h.slabs[k] <==> 0 <= id < |h.place| && h.place[id] == Cut && h.info[id].bucket == k;
    assert PageFits(h, id);
    OkIsOkBut(h, id);
  }

  /** A bucket has room exactly if some page of it has two partitions or more that are not live. */
  lemma {:induction false} RoomIs(h: Heap, k: nat)
    requires Ok(h) && MIN_ORDER <= k < |h.slabs|
    ensures HasRoom(h, k) <==> exists id :: id in h.slabs[k] && 0 <= id < |h.info| && h.info[id].cnt + 2 <= 4096 / Pow2(k)
  {
    hide Pow2;
    if HasRoom(h, k) {
      var i :| 0 <= i < |h.slabs[k]| && Roomy(h, h.slabs[k][i]);
      BucketPage(h, k, h.slabs[k][i]);
      assert h.slabs[k][i] in h.slabs[k];
    }
    if id :| id in h.slabs[k] && 0 <= id < |h.info| && h.info[id].cnt + 2 <= 4096 / Pow2(k) {
      BucketPage(h, k, id);
      var i :| 0 <= i < |h.slabs[k]| && h.slabs[k][i] == id;
      assert Roomy(h, h.slabs[k][i]);
    }
  }

  lemma {:induction false} RoomFound(h: Heap, k: nat, i: nat)
    requires k < |h.slabs| && i < |h.slabs[k]| && Roomy(h, h.slabs[k][i])
    ensures HasRoom(h, k)
  {
  }

  lemma {:induction false} NoRoom(h: Heap, k: nat)
    requires k < |h.slabs| && forall i :: 0 <= i < |h.slabs[k]| ==> !Roomy(h, h.slabs[k][i])
    ensures !HasRoom(h, k)
  {
  }

  /** h' is h with the first partition of page id handed out. */
  ghost predicate TakenFrom(h: Heap, h': Heap, id: nat) {
    id < |h.info| == |h.free| && h.free[id] != [] && h.info[id].head in h.mem && h' == Popped(h, id)
  }

  /** The first page of the bucket with room has given a partition, and nothing else has changed. */
  ghost predicate FromBucket(h: Heap, h': Heap, k: nat) {
    k < |h.slabs| && exists i :: 0 <= i < |h.slabs[k]| && Roomy(h, h.slabs[k][i]) && TakenFrom(h, h', h.slabs[k][i])
                                 && forall j :: 0 <= j < i ==> !Roomy(h, h.slabs[k][j])
  }

  /** The first free page has been cut and has given a partition, and nothing else has changed. */
  ghost predicate FromNewPage(h: Heap, h': Heap, k: nat) {
    && h.pagesFree != [] && h.pagesFree[0] < |h.place| == |h.info| == |h.free| && k < |h.slabs|
    && TakenFrom(CutPage(Taken(h), h'.mem, h.pagesFree[0], k), h', h.pagesFree[0])
  }

  /** The partition p of page id has been freed, and the page recycled if it was the last live one. */
  ghost predicate FreedTo(h: Heap, h': Heap, id: nat, p: nat) {
    && id < |h.info| == |h.free| == |h.place| && h.free[id] != [] && h.info[id].head in h.mem && h.info[id].cnt > 0
    && if h.info[id].cnt == 1 then h.info[id].bucket < |h.slabs| && h' == Recycled(Pushed(h, id, p), id) else h' == Pushed(h, id, p)
  }

  lemma {:induction false} BucketTaken(h: Heap, h': Heap, k: nat, i: nat)
    requires k < |h.slabs| && i < |h.slabs[k]| && Roomy(h, h.slabs[k][i]) && TakenFrom(h, h', h.slabs[k][i])
    requires forall j :: 0 <= j < i ==> !Roomy(h, h.slabs[k][j])
    ensures FromBucket(h, h', k) && h'.place == h.place && h'.pagesFree == h.pagesFree && h'.mem == h.mem && h'.slabs == h.slabs
  {
  }

  lemma {:induction false} NewPageTaken(h: Heap, h': Heap, k: nat)
    requires h.pagesFree != [] && h.pagesFree[0] < |h.place| == |h.info| == |h.free| && k < |h.slabs|
    requires TakenFrom(CutPage(Taken(h), h'.mem, h.pagesFree[0], k), h', h.pagesFree[0])
    ensures FromNewPage(h, h', k) && h'.place == h.place[h.pagesFree[0] := Cut] && h'.pagesFree == h.pagesFree[1..]
    ensures h'.slabs == h.slabs[k := h.slabs[k] + [h.pagesFree[0]]]
  {
    hide AllSlots, Pow2;
  }

  /**
   A partition taken from a new page and freed again leaves every page where it was, the
   page now last on the free list, and no bucket and no live partition different.
   */
  lemma {:induction false} TakeAndFree(h: Heap, h1: Heap, h2: Heap, k: nat)
    requires Ok(h) && FromNewPage(h, h1, k) && k >= MIN_ORDER
    requires FreedTo(h1, h2, h.pagesFree[0], PageAddr(h.start, h.pagesFree[0]))
    ensures h2.pagesFree == h.pagesFree[1..] + [h.pagesFree[0]] && h2.place == h.place && h2.slabs == h.slabs && h2.live == h.live
  {
    var id, a := h.pagesFree[0], PageAddr(h.start, h.pagesFree[0]);
    NewPageIsFree(h);
    AllSlotsOk(h.start, id, k);
    BucketBack(h.slabs[k], id);
    hide Ok, AllSlots, Pow2, PageAddr, Without;
    assert h1.info[id].cnt == 1 && h1.info[id].bucket == k;
    assert h1.live == h.live[a := Pow2(k)];
  }

  lemma {:induction false} NewPageIsFree(h: Heap)
    requires Ok(h) && h.pagesFree != []
    ensures var id := h.pagesFree[0];
            && id < |h.place| == |h.info| && h.place[id] == Free && h.info[id].cnt == 0
            && PageAddr(h.start, id) !in h.live && forall k :: 0 <= k < |h.slabs| ==> id !in h.slabs[k]
  {
    var id := h.pagesFree[0];
    assert id in h.pagesFree;
    assert PageFits(h, id);
    PageIdOf(h.start, id);
    hide SlotOf, PageAddr, PageId, PageOk;
    assert !LiveAt(h, PageAddr(h.start, id));
  }

  /** Nothing leaks: while no partition is live, every page is on the free list or handed out whole. */
  lemma {:induction false} NothingLive(h: Heap)
    requires Ok(h) && h.live == map[]
    ensures forall id :: 0 <= id < |h.place| ==> h.place[id] == Free || h.place[id] == Whole
    ensures forall k :: 0 <= k < |h.slabs| ==> h.slabs[k] == []
  {
    hide Ok, PageId;
    forall id | 0 <= id < |h.place| ensures h.place[id] != Cut {
      if h.place[id] == Cut {
        var a := LiveInCut(h, id);
      }
    }
    forall k | 0 <= k < |h.slabs| ensures h.slabs[k] == [] {
      if h.slabs[k] != [] {
        InBucket(h, k, h.slabs[k][0]);
      }
    }
  }

  lemma {:induction false} LiveInCut(h: Heap, id: nat) returns (a: nat)
    requires Ok(h) && id < |h.place| && h.place[id] == Cut
    ensures a in h.live
  {
    hide PageOk, SlotOf, PageId;
    assert PageFits(h, id);
    a := OneGone(h.start, h.mem, id, h.info[id], h.free[id]);
    SlotPage(h.start, id, h.info[id].size, a);
    assert LiveAt(h, a);
  }

  lemma {:induction false} InBucket(h: Heap, k: nat, id: nat)
    requires Ok(h) && k < |h.slabs| && id in h.slabs[k]
    ensures id < |h.place| && h.place[id] == Cut
  {
    assert id in h.slabs[k] <==> 0 <= id < |h.place| && h.place[id] == Cut && h.info[id].bucket == k;
  }

  /** A page with a count above 0 has a partition that is not in its list. */
  lemma {:induction false} OneGone(start: nat, mem: map<nat, nat>, id: nat, p: Page, s: seq<nat>) returns (a: nat)
    requires PageOk(start, mem, id, p, s) && p.cnt > 0
    ensures SlotOf(start, id, p.size, a) && a !in s
  {
    hide Pow2, Chain, SlotOf, AllSlots, Distinct;
    AllSlotsOk(start, id, p.bucket);
    var all := AllSlots(start, id, p.size, Slots(p.size));
    SetOfSize(all);
    SetOfSize(s);
    if SetOf(all) <= SetOf(s) {
      SubsetSize(SetOf(all), SetOf(s));
      assert false;
    }
    a :| a in SetOf(all) && a !in SetOf(s);
  }

  lemma {:induction false} BucketBack(s: seq<nat>, id: nat)
    requires id !in s
    ensures Without(s + [id], id) == s
  {
    if s != [] {
      assert (s + [id])[1..] == s[1..] + [id];
      BucketBack(s[1..], id);
    }
  }

  lemma {:induction false} KeptSame(h: Heap, h': Heap)
    requires Ok(h) && h'.mem == h.mem
    ensures Kept(h, h', 0)
  {
  }

  lemma {:induction false} KeptMem(h: Heap, h1: Heap, h2: Heap, p: nat)
    requires Kept(h, h1, p) && h2.mem == h1.mem
    ensures Kept(h, h2, p)
  {
  }

  lemma {:induction false} SlotAddrsBelow(start: nat, id: nat, size: nat, n: nat)
    requires size > 0
    ensures forall j :: 0 <= j < n ==> SlotAddr(start, id, size, j) < SlotAddr(start, id, size, n)
  {
    forall j | 0 <= j < n ensures SlotAddr(start, id, size, j) < SlotAddr(start, id, size, n) {
      SlotAddrLess(start, id, size, j, n);
    }
  }

  lemma {:induction false} OkShape(h: Heap)
    requires Ok(h)
    ensures Shape(h)
  {
  }

  /** Pages are 4096 bytes, from the start on, and partition n of a page is n sizes into it. */
  lemma {:induction false} Addresses(start: nat, id: nat, size: nat, n: nat, a: nat)
    requires start <= a
    ensures PageAddr(start, id) == start + 4096 * id && PageId(start, a) == (a - start) / 4096
    ensures SlotAddr(start, id, size, n) == start + 4096 * id + size * n
  {
  }

  lemma {:induction false} PageIdOf(start: nat, id: nat)
    ensures start <= PageAddr(start, id) && PageId(start, PageAddr(start, id)) == id
  {
  }

  lemma {:induction false} InManaged(h: Heap, id: nat, a: nat)
    requires Shape(h) && id < |h.info| && PageAddr(h.start, id) <= a < PageAddr(h.start, id) + PAGE_SIZE
    ensures a in h.mem
  {
    assert PageAddr(h.start, id) + PAGE_SIZE <= h.start + PAGE_SIZE * |h.info|;
  }

  lemma {:induction false} SlotAddrNext(start: nat, id: nat, size: nat, count: nat, n: nat)
    requires n < count && size > 0 && size * count == PAGE_SIZE
    ensures SlotAddr(start, id, size, n + 1) == SlotAddr(start, id, size, n) + size
    ensures PageAddr(start, id) <= SlotAddr(start, id, size, n) <= PageAddr(start, id) + PAGE_SIZE - size
    ensures SlotAddr(start, id, size, n) < PageAddr(start, id) + PAGE_SIZE - size <==> n + 1 < count
  {
    assert size * (n + 1) == size * n + size && size * (n + 2) == size * n + size + size;
    MulMono(n + 1, count, size);
    if n + 1 < count {
      MulMono(n + 2, count, size);
    }
  }

  lemma {:induction false} ChainOfSlots(mem: map<nat, nat>, start: nat, id: nat, size: nat, count: nat)
    requires count > 0
    requires forall j :: 0 <= j < count ==> SlotAddr(start, id, size, j) in mem
    requires forall j :: 0 <= j < count - 1 ==> mem[SlotAddr(start, id, size, j)] == SlotAddr(start, id, size, j + 1)
    requires mem[SlotAddr(start, id, size, count - 1)] == 0
    ensures Chain(mem, PageAddr(start, id), AllSlots(start, id, size, count))
  {
    hide SlotAddr;
    SlotAddrFirst(start, id, size);
    var s := AllSlots(start, id, size, count);
    forall i | 0 <= i < |s| ensures s[i] in mem && mem[s[i]] == After(s, i) {
    }
  }

  lemma {:induction false} Pow2Order(k: nat)
    ensures k <= SLAB_MAX_ORDER ==> Pow2(k) <= 2048
    ensures k >= MIN_ORDER ==> Pow2(k) >= 8
    ensures k < MIN_ORDER ==> Pow2(k) < 8
    ensures k > SLAB_MAX_ORDER ==> Pow2(k) >= 4096
  {
    assert Pow2(0) == 1 && Pow2(1) == 2 && Pow2(2) == 4;
    if MIN_ORDER <= k <= SLAB_MAX_ORDER {
      Sizes(k);
    } else if k > SLAB_MAX_ORDER {
      if k == 12 {
        assert Pow2(12) == 4096;
      } else {
        Pow2Order(k - 1);
      }
    }
  }
}
