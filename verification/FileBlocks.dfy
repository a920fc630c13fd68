/**
 Which disk blocks the inodes refer to: twelve direct addresses, one indirect
 block, and the words of the indirect block.  Every data block in use has exactly
 one place that refers to it.
 */
module FileBlocks {
  import opened Bytes

  const INODE_NUM_DIRECT := 12
  const INODE_NUM_INDIRECT := 128
  const INODE_MAX_BLOCKS := 140
  const INODE_MAX_BYTES := 71680
  const INODE_INVALID := 0
  const NUM_SLOTS := 141

  /** An on-disk inode. */
  datatype Dinode = Dinode(kind: nat, numLinks: nat, numBytes: nat, addrs: seq<u32>, indirect: u32, major: nat) {
    predicate Live() {
      kind != INODE_INVALID
    }
  }

  /**
   The reference at one of the places of an inode, 0 if there is none.  Places 0
   to 11 are the direct addresses, place 12 is the indirect block, and place
   13 + i is word i of the indirect block.
   */
  function Ref(blocks: seq<Block>, d: Dinode, k: nat): u32
    requires |d.addrs| == INODE_NUM_DIRECT && k < NUM_SLOTS
  {
    if k < INODE_NUM_DIRECT then d.addrs[k]
    else if k == INODE_NUM_DIRECT then d.indirect
    else if d.indirect == 0 || d.indirect >= |blocks| then 0
    else WordAt(blocks[d.indirect], k - INODE_NUM_DIRECT - 1)
  }

  /** The place that refers to block q of a file. */
  function PlaceOf(q: nat): nat {
    if q < INODE_NUM_DIRECT then q else q + 1
  }

  /** The disk block that holds block q of a file, 0 if there is none. */
  function FileBlock(blocks: seq<Block>, d: Dinode, q: nat): u32
    requires |d.addrs| == INODE_NUM_DIRECT && q < INODE_MAX_BLOCKS
  {
    Ref(blocks, d, PlaceOf(q))
  }

  /** The place k of inode ino. */
  datatype Site = Site(ino: nat, k: nat)

  /**
   The volume as the cache shows it: the bitmap, the blocks, the inode area, and
   where the data area starts; and, for the proofs, the place that refers to each
   data block in use and the blocks allocated but not yet referred to.
   */
  datatype Volume = Volume(bitmap: seq<bool>, blocks: seq<Block>, ds: seq<Dinode>, start: nat,
                           owner: map<nat, Site>, pending: set<nat>)

  /** Block q of a file: address q of the first 12, then 32-bit word q - 12 of the indirect block, low byte first. */
  lemma {:induction false} FileBlockIs(blocks: seq<Block>, d: Dinode, q: nat)
    requires |d.addrs| == INODE_NUM_DIRECT && q < INODE_MAX_BLOCKS
    ensures q < 12 ==> FileBlock(blocks, d, q) == d.addrs[q]
    ensures q >= 12 && d.indirect == 0 ==> FileBlock(blocks, d, q) == 0
    ensures q >= 12 && d.indirect != 0 && d.indirect < |blocks| ==>
              var b, o := blocks[d.indirect], 4 * (q - 12);
              FileBlock(blocks, d, q) ==
                (b[o] as int) + 0x100 * (b[o + 1] as int) + 0x1_0000 * (b[o + 2] as int) + 0x100_0000 * (b[o + 3] as int)
  {
    if q >= 12 && d.indirect != 0 && d.indirect < |blocks| {
      WordBytes(blocks[d.indirect], q - 12);
    }
  }

  ghost predicate ShapeOk(ds: seq<Dinode>) {
    forall i :: 0 <= i < |ds| ==> |ds[i].addrs| == INODE_NUM_DIRECT
  }

  ghost predicate Refers(v: Volume, i: int, k: int)
    requires ShapeOk(v.ds)
  {
    0 <= i < |v.ds| && v.ds[i].Live() && 0 <= k < NUM_SLOTS && Ref(v.blocks, v.ds[i], k) != 0
  }

  ghost predicate Cites(v: Volume, s: Site, b: nat)
    requires ShapeOk(v.ds)
  {
    Refers(v, s.ino, s.k) && Ref(v.blocks, v.ds[s.ino], s.k) == b
  }

  ghost predicate OwnedBy(v: Volume, i: int, k: int)
    requires ShapeOk(v.ds) && Refers(v, i, k)
  {
    var b := Ref(v.blocks, v.ds[i], k);
    b in v.owner && v.owner[b] == Site(i, k)
  }

  /**
   The set data-area bits are exactly the blocks that live inodes refer to, and
   those just allocated; each is referred to from one place only.
   */
  ghost predicate Owned(v: Volume) {
    && ShapeOk(v.ds) && 0 < v.start <= |v.bitmap| == |v.blocks| < 0x1_0000_0000
    && (forall b :: 0 <= b < v.start ==> v.bitmap[b])
    && (forall b :: v.start <= b < |v.bitmap| ==> (v.bitmap[b] <==> b in v.owner || b in v.pending))
    && (forall b :: b in v.pending ==> v.start <= b < |v.bitmap| && b !in v.owner)
    && (forall b :: b in v.owner ==> v.start <= b < |v.bitmap| && Cites(v, v.owner[b], b))
    && (forall i, k :: Refers(v, i, k) ==> OwnedBy(v, i, k))
  }

  /** The blocks before the data area, which hold no file, are the same. */
  ghost predicate MetaKept(blocks: seq<Block>, blocks': seq<Block>, start: nat) {
    |blocks| == |blocks'| && forall b :: 0 <= b < start && b < |blocks| ==> blocks'[b] == blocks[b]
  }

  lemma {:induction false} MetaRefl(blocks: seq<Block>, start: nat)
    ensures MetaKept(blocks, blocks, start)
  {
  }

  lemma {:induction false} MetaTrans(a: seq<Block>, b: seq<Block>, c: seq<Block>, start: nat)
    requires MetaKept(a, b, start) && MetaKept(b, c, start)
    ensures MetaKept(a, c, start)
  {
  }

  lemma {:induction false} MetaUpdate(blocks: seq<Block>, start: nat, b: nat, x: Block)
    requires start <= b < |blocks|
    ensures MetaKept(blocks, blocks[b := x], start)
  {
  }

  /** The references of the two volumes agree everywhere but at place k of inode i. */
  ghost predicate SameRefsBut(v: Volume, v': Volume, i: nat, k: nat) {
    && ShapeOk(v.ds) && ShapeOk(v'.ds) && |v.ds| == |v'.ds|
    && (forall j :: 0 <= j < |v.ds| ==> v'.ds[j].Live() == v.ds[j].Live())
    && forall j, l :: 0 <= j < |v.ds| && v.ds[j].Live() && 0 <= l < NUM_SLOTS && (j != i || l != k) ==>
         Ref(v'.blocks, v'.ds[j], l) == Ref(v.blocks, v.ds[j], l)
  }

  ghost predicate SameRefs(v: Volume, v': Volume) {
    SameRefsBut(v, v', |v.ds|, 0)
  }

  lemma {:induction false} ShapeOf(v: Volume)
    requires Owned(v)
    ensures ShapeOk(v.ds) && 0 < v.start <= |v.bitmap| == |v.blocks| < 0x1_0000_0000
  {
  }

  lemma {:induction false} SameRefsOwned(v: Volume, v': Volume)
    requires Owned(v) && SameRefs(v, v') && |v'.blocks| == |v.blocks|
    requires v'.bitmap == v.bitmap && v'.start == v.start && v'.owner == v.owner && v'.pending == v.pending
    ensures Owned(v')
  {
    forall i, k | Refers(v', i, k) ensures OwnedBy(v', i, k) {
      assert Refers(v, i, k);
    }
    forall b | b in v'.owner ensures Cites(v', v'.owner[b], b) {
      assert Cites(v, v.owner[b], b);
    }
  }

  /** A block that is no indirect block of a live inode. */
  ghost predicate NotIndirect(v: Volume, b: nat) {
    b in v.owner ==> v.owner[b].k != INODE_NUM_DIRECT
  }

  /** A write to a block that is no indirect block changes no reference. */
  lemma {:induction false} WriteKeepsRefs(v: Volume, b: nat, data: Block)
    requires Owned(v) && 0 < b < |v.blocks| && NotIndirect(v, b)
    ensures SameRefs(v, v.(blocks := v.blocks[b := data]))
  {
    forall i, k | 0 <= i < |v.ds| && v.ds[i].Live() && 0 <= k < NUM_SLOTS
      ensures Ref(v.blocks[b := data], v.ds[i], k) == Ref(v.blocks, v.ds[i], k)
    {
      if v.ds[i].indirect == b {
        assert Refers(v, i, INODE_NUM_DIRECT);
      }
    }
  }

  lemma {:induction false} WriteOwned(v: Volume, b: nat, data: Block)
    requires Owned(v) && 0 < b < |v.blocks| && NotIndirect(v, b)
    ensures Owned(v.(blocks := v.blocks[b := data])) && SameRefs(v, v.(blocks := v.blocks[b := data]))
  {
    WriteKeepsRefs(v, b, data);
    SameRefsOwned(v, v.(blocks := v.blocks[b := data]));
  }

  /** Allocation: a free block is zeroed and its bit set. */
  ghost function Allocated(v: Volume, b: nat): Volume
    requires b < |v.bitmap| && b < |v.blocks|
  {
    v.(bitmap := v.bitmap[b := true], blocks := v.blocks[b := ZeroBlock()], pending := v.pending + {b})
  }

  lemma {:induction false} AllocatedOwned(v: Volume, b: nat)
    requires Owned(v) && v.start <= b < |v.bitmap| && !v.bitmap[b]
    ensures Owned(Allocated(v, b)) && SameRefs(v, Allocated(v, b)) && b !in v.owner && b !in v.pending
  {
    WriteOwned(v, b, ZeroBlock());
    var w := v.(blocks := v.blocks[b := ZeroBlock()]);
    var v' := Allocated(v, b);
    forall i, k | Refers(v', i, k) ensures OwnedBy(v', i, k) {
      assert Refers(w, i, k);
      assert OwnedBy(w, i, k);
    }
    forall c | c in v'.owner ensures Cites(v', v'.owner[c], c) {
      assert Cites(w, w.owner[c], c);
    }
  }

  /** A place that referred to nothing now refers to the allocated block b. */
  lemma {:induction false} LinkedOwned(v: Volume, v': Volume, i: nat, k: nat, b: nat)
    requires Owned(v) && b in v.pending && i < |v.ds| && v.ds[i].Live() && k < NUM_SLOTS
    requires Ref(v.blocks, v.ds[i], k) == 0 && SameRefsBut(v, v', i, k) && Ref(v'.blocks, v'.ds[i], k) == b
    requires |v'.blocks| == |v.blocks| && v'.bitmap == v.bitmap && v'.start == v.start
    requires v'.owner == v.owner[b := Site(i, k)] && v'.pending == v.pending - {b}
    ensures Owned(v')
  {
    forall j, l | Refers(v', j, l) ensures OwnedBy(v', j, l) {
      if j != i || l != k {
        assert Refers(v, j, l);
        assert OwnedBy(v, j, l);
      }
    }
    forall c | c in v'.owner ensures Cites(v', v'.owner[c], c) {
      if c != b {
        assert Cites(v, v.owner[c], c);
      }
    }
  }

  /** A place that referred to block b now refers to nothing, and the bit of b is cleared. */
  lemma {:induction false} FreedOwned(v: Volume, v': Volume, i: nat, k: nat, b: nat)
    requires Owned(v) && i < |v.ds| && v.ds[i].Live() && k < NUM_SLOTS && b != 0
    requires Ref(v.blocks, v.ds[i], k) == b && SameRefsBut(v, v', i, k) && Ref(v'.blocks, v'.ds[i], k) == 0
    requires |v'.blocks| == |v.blocks| && v'.start == v.start
    requires b < |v.bitmap| ==> v'.bitmap == v.bitmap[b := false]
    requires v'.owner == v.owner - {b} && v'.pending == v.pending
    ensures b in v.owner && v.start <= b < |v.bitmap| && Owned(v')
  {
    assert Refers(v, i, k);
    assert OwnedBy(v, i, k);
    forall j, l | Refers(v', j, l) ensures OwnedBy(v', j, l) {
      assert Refers(v, j, l);
      assert OwnedBy(v, j, l);
    }
    forall c | c in v'.owner ensures Cites(v', v'.owner[c], c) {
      assert Cites(v, v.owner[c], c);
    }
  }

  // ----- setting one place of an inode -----

  /** Stores b at place k of inode i. */
  ghost function SetPlace(v: Volume, i: nat, k: nat, b: u32): Volume
    requires i < |v.ds| && |v.ds[i].addrs| == INODE_NUM_DIRECT && k < NUM_SLOTS
    requires k > INODE_NUM_DIRECT ==> v.ds[i].indirect < |v.blocks|
  {
    var d := v.ds[i];
    if k < INODE_NUM_DIRECT then v.(ds := v.ds[i := d.(addrs := d.addrs[k := b])])
    else if k == INODE_NUM_DIRECT then v.(ds := v.ds[i := d.(indirect := b)])
    else v.(blocks := v.blocks[d.indirect := SetWord(v.blocks[d.indirect], k - INODE_NUM_DIRECT - 1, b)])
  }

  /** The words of block b are all zero. */
  ghost predicate NoWords(v: Volume, b: nat) {
    b < |v.blocks| ==> forall w :: 0 <= w < INODE_NUM_INDIRECT ==> WordAt(v.blocks[b], w) == 0
  }

  /**
   Storing at one place changes no other reference; the indirect address itself
   may change only between blocks whose words are all zero.
   */
  lemma {:induction false} SetPlaceRefs(v: Volume, i: nat, k: nat, b: u32)
    requires Owned(v) && i < |v.ds| && v.ds[i].Live() && k < NUM_SLOTS
    requires k == INODE_NUM_DIRECT ==> (v.ds[i].indirect == 0 || NoWords(v, v.ds[i].indirect)) && (b == 0 || NoWords(v, b))
    requires k > INODE_NUM_DIRECT ==> 0 < v.ds[i].indirect < |v.blocks|
    ensures SameRefsBut(v, SetPlace(v, i, k, b), i, k) && Ref(SetPlace(v, i, k, b).blocks, SetPlace(v, i, k, b).ds[i], k) == b
  {
    var v', d := SetPlace(v, i, k, b), v.ds[i];
    if k > INODE_NUM_DIRECT {
      WordAtSet(v.blocks[d.indirect], k - INODE_NUM_DIRECT - 1, b, k - INODE_NUM_DIRECT - 1);
    }
    forall j, l | 0 <= j < |v.ds| && v.ds[j].Live() && 0 <= l < NUM_SLOTS && (j != i || l != k)
      ensures Ref(v'.blocks, v'.ds[j], l) == Ref(v.blocks, v.ds[j], l)
    {
      if k > INODE_NUM_DIRECT && l > INODE_NUM_DIRECT && v.ds[j].indirect == d.indirect {
        OneIndirect(v, i, j);
        WordAtSet(v.blocks[d.indirect], k - INODE_NUM_DIRECT - 1, b, l - INODE_NUM_DIRECT - 1);
      }
    }
  }

  /** No two live inodes share an indirect block. */
  lemma {:induction false} OneIndirect(v: Volume, i: nat, j: nat)
    requires Owned(v) && i < |v.ds| && j < |v.ds| && v.ds[i].Live() && v.ds[j].Live()
    requires v.ds[i].indirect == v.ds[j].indirect != 0
    ensures i == j
  {
    assert Refers(v, i, INODE_NUM_DIRECT) && Refers(v, j, INODE_NUM_DIRECT);
    assert OwnedBy(v, i, INODE_NUM_DIRECT) && OwnedBy(v, j, INODE_NUM_DIRECT);
  }

  /** An allocated block becomes the target of an empty place. */
  ghost function Linked(v: Volume, i: nat, k: nat, b: u32): Volume
    requires i < |v.ds| && |v.ds[i].addrs| == INODE_NUM_DIRECT && k < NUM_SLOTS
    requires k > INODE_NUM_DIRECT ==> v.ds[i].indirect < |v.blocks|
  {
    SetPlace(v, i, k, b).(owner := v.owner[b := Site(i, k)], pending := v.pending - {b})
  }

  lemma {:induction false} LinkOwned(v: Volume, i: nat, k: nat, b: u32)
    requires Owned(v) && b in v.pending && i < |v.ds| && v.ds[i].Live() && k < NUM_SLOTS
    requires Ref(v.blocks, v.ds[i], k) == 0 && (k == INODE_NUM_DIRECT ==> NoWords(v, b))
    requires k > INODE_NUM_DIRECT ==> 0 < v.ds[i].indirect < |v.blocks|
    ensures Owned(Linked(v, i, k, b)) && SameRefsBut(v, Linked(v, i, k, b), i, k)
    ensures Ref(Linked(v, i, k, b).blocks, Linked(v, i, k, b).ds[i], k) == b != 0
  {
    SetPlaceRefs(v, i, k, b);
    LinkedOwned(v, Linked(v, i, k, b), i, k, b);
  }

  /** A place is emptied and the block it referred to is freed. */
  ghost function Freed(v: Volume, i: nat, k: nat): Volume
    requires i < |v.ds| && |v.ds[i].addrs| == INODE_NUM_DIRECT && k < NUM_SLOTS
    requires k > INODE_NUM_DIRECT ==> v.ds[i].indirect < |v.blocks|
    requires Ref(v.blocks, v.ds[i], k) < |v.bitmap|
  {
    var b := Ref(v.blocks, v.ds[i], k);
    SetPlace(v, i, k, 0).(bitmap := v.bitmap[b := false], owner := v.owner - {b})
  }

  lemma {:induction false} FreeOwned(v: Volume, i: nat, k: nat)
    requires Owned(v) && i < |v.ds| && v.ds[i].Live() && k < NUM_SLOTS && Ref(v.blocks, v.ds[i], k) != 0
    requires k == INODE_NUM_DIRECT ==> NoWords(v, v.ds[i].indirect)
    ensures v.start <= Ref(v.blocks, v.ds[i], k) < |v.bitmap| && Ref(v.blocks, v.ds[i], k) in v.owner
    ensures k > INODE_NUM_DIRECT ==> 0 < v.ds[i].indirect < |v.blocks|
    ensures Owned(Freed(v, i, k)) && SameRefsBut(v, Freed(v, i, k), i, k)
    ensures Ref(Freed(v, i, k).blocks, Freed(v, i, k).ds[i], k) == 0
  {
    assert Refers(v, i, k);
    assert OwnedBy(v, i, k);
    SetPlaceRefs(v, i, k, 0);
    FreedOwned(v, Freed(v, i, k), i, k, Ref(v.blocks, v.ds[i], k));
  }

  // ----- how many blocks are free, and how many a file needs -----

  /** How many of the first n blocks are free. */
  ghost function FreeBelow(bitmap: seq<bool>, n: nat): nat {
    if n == 0 then 0 else FreeBelow(bitmap, n - 1) + if n <= |bitmap| && !bitmap[n - 1] then 1 else 0
  }

  lemma {:induction false} NoneFree(bitmap: seq<bool>, n: nat)
    ensures FreeBelow(bitmap, n) == 0 <==> forall c :: 0 <= c < n && c < |bitmap| ==> bitmap[c]
  {
    if n > 0 {
      NoneFree(bitmap, n - 1);
    }
  }

  lemma {:induction false} OneTaken(bitmap: seq<bool>, n: nat, b: nat)
    requires b < |bitmap| && !bitmap[b]
    ensures FreeBelow(bitmap, n) == FreeBelow(bitmap[b := true], n) + if b < n then 1 else 0
  {
    if n > 0 {
      OneTaken(bitmap, n - 1, b);
    }
  }

  /** How many blocks must be allocated to reach block q of a file. */
  ghost function Need(blocks: seq<Block>, d: Dinode, q: nat): nat
    requires |d.addrs| == INODE_NUM_DIRECT && q < INODE_MAX_BLOCKS
  {
    if FileBlock(blocks, d, q) != 0 then 0 else if q >= INODE_NUM_DIRECT && d.indirect == 0 then 2 else 1
  }

  /** How many blocks must be allocated to extend a file from m blocks to m'. */
  function BlocksNeeded(m: nat, m': nat): nat {
    if m' <= m then 0 else m' - m + if m <= INODE_NUM_DIRECT < m' then 1 else 0
  }

  lemma {:induction false} NeededAdds(m: nat, w: nat, m': nat)
    requires m <= w <= m'
    ensures BlocksNeeded(m, m') == BlocksNeeded(m, w) + BlocksNeeded(w, m')
  {
  }

  // ----- what stays readable -----

  /** The data blocks of file j are where they were and hold what they held. */
  ghost predicate SameData(v: Volume, v': Volume, j: nat)
    requires ShapeOk(v.ds) && ShapeOk(v'.ds) && j < |v.ds| == |v'.ds|
  {
    forall q :: 0 <= q < INODE_MAX_BLOCKS && FileBlock(v.blocks, v.ds[j], q) != 0 ==>
      var b := FileBlock(v.blocks, v.ds[j], q);
      FileBlock(v'.blocks, v'.ds[j], q) == b && b < |v.blocks| && b < |v'.blocks| && v'.blocks[b] == v.blocks[b]
  }

  lemma {:induction false} RefOwned(v: Volume, i: nat, k: nat)
    requires Owned(v) && i < |v.ds| && v.ds[i].Live() && k < NUM_SLOTS && Ref(v.blocks, v.ds[i], k) != 0
    ensures var b := Ref(v.blocks, v.ds[i], k); v.start <= b < |v.blocks| && b in v.owner && v.owner[b] == Site(i, k)
  {
    assert Refers(v, i, k);
    assert OwnedBy(v, i, k);
  }

  /** A change of one block keeps the data of every file that the block is not data of. */
  lemma {:induction false} OtherBlockKept(v: Volume, v': Volume, b: nat, j: nat)
    requires Owned(v) && ShapeOk(v'.ds) && j < |v.ds| == |v'.ds| && v.ds[j].Live()
    requires |v'.blocks| == |v.blocks| && forall c :: 0 <= c < |v.blocks| && c != b ==> v'.blocks[c] == v.blocks[c]
    requires b in v.owner ==> v.owner[b].ino != j || v.owner[b].k == INODE_NUM_DIRECT
    requires forall k :: 0 <= k < NUM_SLOTS && Ref(v.blocks, v.ds[j], k) != 0 ==>
               Ref(v'.blocks, v'.ds[j], k) == Ref(v.blocks, v.ds[j], k)
    ensures SameData(v, v', j)
  {
    forall q | 0 <= q < INODE_MAX_BLOCKS && FileBlock(v.blocks, v.ds[j], q) != 0
      ensures var c := FileBlock(v.blocks, v.ds[j], q);
              FileBlock(v'.blocks, v'.ds[j], q) == c && c < |v.blocks| && v'.blocks[c] == v.blocks[c]
    {
      RefOwned(v, j, PlaceOf(q));
    }
  }

  /** File i has exactly its first m blocks. */
  ghost predicate Filled(v: Volume, i: nat, m: nat)
    requires ShapeOk(v.ds) && i < |v.ds|
  {
    forall q :: 0 <= q < INODE_MAX_BLOCKS ==> (FileBlock(v.blocks, v.ds[i], q) != 0 <==> q < m)
  }

  /** File i has exactly its first m blocks, and the indirect block exactly when it needs it. */
  ghost predicate Mapped(v: Volume, i: nat, m: nat)
    requires ShapeOk(v.ds) && i < |v.ds|
  {
    m <= INODE_MAX_BLOCKS && Filled(v, i, m) && (v.ds[i].indirect != 0 <==> m > INODE_NUM_DIRECT)
  }

  /** How many blocks n bytes take. */
  function BlocksFor(n: nat): nat {
    (n + BLOCK_SIZE - 1) / BLOCK_SIZE
  }

  /** No live file has a hole or a block too many. */
  ghost predicate Dense(v: Volume)
    requires ShapeOk(v.ds)
  {
    forall i :: 0 <= i < |v.ds| && v.ds[i].Live() ==>
      v.ds[i].numBytes <= INODE_MAX_BYTES && Mapped(v, i, BlocksFor(v.ds[i].numBytes))
  }

  /** Byte p of file i. */
  ghost function ByteAt(v: Volume, i: nat, p: nat): byte
    requires ShapeOk(v.ds) && i < |v.ds| && p < INODE_MAX_BYTES
  {
    var b := FileBlock(v.blocks, v.ds[i], p / BLOCK_SIZE);
    if b < |v.blocks| then v.blocks[b][p % BLOCK_SIZE] else 0
  }

  /** The contents of file i, as a sequence of bytes. */
  ghost function Content(v: Volume, i: nat): (s: seq<byte>)
    requires ShapeOk(v.ds) && i < |v.ds| && v.ds[i].numBytes <= INODE_MAX_BYTES
    ensures |s| == v.ds[i].numBytes
  {
    seq(v.ds[i].numBytes, p requires 0 <= p < v.ds[i].numBytes => ByteAt(v, i, p))
  }

  lemma {:induction false} SameContent(v: Volume, v': Volume, j: nat)
    requires ShapeOk(v.ds) && ShapeOk(v'.ds) && j < |v.ds| == |v'.ds| && SameData(v, v', j)
    requires v.ds[j].numBytes == v'.ds[j].numBytes <= INODE_MAX_BYTES && Mapped(v, j, BlocksFor(v.ds[j].numBytes))
    ensures Content(v', j) == Content(v, j)
  {
    forall p | 0 <= p < v.ds[j].numBytes ensures ByteAt(v', j, p) == ByteAt(v, j, p) {
      assert p / BLOCK_SIZE < BlocksFor(v.ds[j].numBytes);
      assert FileBlock(v.blocks, v.ds[j], p / BLOCK_SIZE) != 0;
    }
  }

  // ----- growing a file by one block -----

  /** A free block is allocated and stored at an empty place. */
  ghost function Grown(v: Volume, i: nat, k: nat, b: u32): Volume
    requires i < |v.ds| && |v.ds[i].addrs| == INODE_NUM_DIRECT && k < NUM_SLOTS
    requires b < |v.bitmap| == |v.blocks| && (k > INODE_NUM_DIRECT ==> v.ds[i].indirect < |v.blocks|)
  {
    Linked(Allocated(v, b), i, k, b)
  }

  lemma {:induction false} GrowOwned(v: Volume, i: nat, k: nat, b: u32)
    requires Owned(v) && i < |v.ds| && v.ds[i].Live() && k < NUM_SLOTS && Ref(v.blocks, v.ds[i], k) == 0
    requires v.start <= b < |v.bitmap| && !v.bitmap[b]
    requires k > INODE_NUM_DIRECT ==> v.ds[i].indirect != 0
    ensures k > INODE_NUM_DIRECT ==> v.ds[i].indirect < |v.blocks|
    ensures var v' := Grown(v, i, k, b);
            && Owned(v') && SameRefsBut(v, v', i, k) && Ref(v'.blocks, v'.ds[i], k) == b
            && v'.blocks[b] == ZeroBlock() && v'.pending == v.pending - {b}
            && forall j :: 0 <= j < |v.ds| && v.ds[j].Live() ==> SameData(v, v', j)
  {
    if k > INODE_NUM_DIRECT {
      RefOwned(v, i, INODE_NUM_DIRECT);
    }
    var w, v' := Allocated(v, b), Grown(v, i, k, b);
    AllocatedOwned(v, b);
    forall x | 0 <= x < INODE_NUM_INDIRECT ensures WordAt(w.blocks[b], x) == 0 {
      WordAtZero(x);
    }
    LinkOwned(w, i, k, b);
    forall j | 0 <= j < |v.ds| && v.ds[j].Live() ensures SameData(v, v', j) {
      OtherBlockKept(v, w, b, j);
      OtherBlockKept(w, v', if k > INODE_NUM_DIRECT then v.ds[i].indirect else b, j) by {
        if k > INODE_NUM_DIRECT {
          RefOwned(w, i, INODE_NUM_DIRECT);
        }
      }
    }
  }

  /** One more block at the end of a file. */
  lemma {:induction false} GrowFilled(v: Volume, v': Volume, i: nat, q: nat)
    requires ShapeOk(v.ds) && i < |v.ds| && v.ds[i].Live() && q < INODE_MAX_BLOCKS
    requires Filled(v, i, q) && SameRefsBut(v, v', i, PlaceOf(q)) && FileBlock(v'.blocks, v'.ds[i], q) != 0
    ensures Filled(v', i, q + 1)
  {
    forall r | 0 <= r < INODE_MAX_BLOCKS ensures FileBlock(v'.blocks, v'.ds[i], r) != 0 <==> r < q + 1 {
      if r != q {
        assert PlaceOf(r) != PlaceOf(q) && PlaceOf(r) < NUM_SLOTS;
        assert Ref(v'.blocks, v'.ds[i], PlaceOf(r)) == Ref(v.blocks, v.ds[i], PlaceOf(r));
        assert FileBlock(v.blocks, v.ds[i], r) != 0 <==> r < q;
      }
    }
  }

  /** An empty indirect block adds no block to the file. */
  lemma {:induction false} IndirectFilled(v: Volume, v': Volume, i: nat, m: nat)
    requires ShapeOk(v.ds) && i < |v.ds| && v.ds[i].Live()
    requires Filled(v, i, m) && SameRefsBut(v, v', i, INODE_NUM_DIRECT)
    ensures Filled(v', i, m)
  {
    forall r | 0 <= r < INODE_MAX_BLOCKS ensures FileBlock(v'.blocks, v'.ds[i], r) != 0 <==> r < m {
      assert PlaceOf(r) != INODE_NUM_DIRECT && PlaceOf(r) < NUM_SLOTS;
      assert FileBlock(v.blocks, v.ds[i], r) != 0 <==> r < m;
    }
  }

  /** The step from v to v' may add blocks to inode i and disturbs nothing else. */
  ghost predicate Extends(v: Volume, v': Volume, i: nat)
  {
    && ShapeOk(v.ds) && ShapeOk(v'.ds) && i < |v.ds| == |v'.ds| && |v.blocks| == |v'.blocks|
    && (forall j :: 0 <= j < |v.ds| ==> v'.ds[j].Live() == v.ds[j].Live())
    && (forall j :: 0 <= j < |v.ds| && v.ds[j].Live() ==> SameData(v, v', j))
    && (forall j :: 0 <= j < |v.ds| && j != i ==> v'.ds[j] == v.ds[j])
    && v'.ds[i] == v.ds[i].(addrs := v'.ds[i].addrs, indirect := v'.ds[i].indirect)
    && v'.pending == v.pending && v'.start == v.start && MetaKept(v.blocks, v'.blocks, v.start)
    && forall j, m :: 0 <= j < |v.ds| && j != i && v.ds[j].Live() && Mapped(v, j, m) ==> Mapped(v', j, m)
  }

  lemma {:induction false} ExtendsRefl(v: Volume, i: nat)
    requires Owned(v) && i < |v.ds|
    ensures Extends(v, v, i)
  {
    forall j | 0 <= j < |v.ds| && v.ds[j].Live() ensures SameData(v, v, j) {
      forall q | 0 <= q < INODE_MAX_BLOCKS && FileBlock(v.blocks, v.ds[j], q) != 0
        ensures FileBlock(v.blocks, v.ds[j], q) < |v.blocks|
      {
        RefOwned(v, j, PlaceOf(q));
      }
    }
  }

  lemma {:induction false} ExtendsTrans(v: Volume, w: Volume, v': Volume, i: nat)
    requires Extends(v, w, i) && Extends(w, v', i)
    ensures Extends(v, v', i)
  {
    forall j | 0 <= j < |v.ds| && v.ds[j].Live() ensures SameData(v, v', j) {
      assert SameData(v, w, j) && SameData(w, v', j);
    }
  }

  /** Growing changes no inode but i, and there only the addresses. */
  lemma {:induction false} GrownShape(v: Volume, i: nat, k: nat, b: u32)
    requires ShapeOk(v.ds) && i < |v.ds| && k < NUM_SLOTS && b < |v.bitmap| == |v.blocks|
    requires k > INODE_NUM_DIRECT ==> v.ds[i].indirect < |v.blocks|
    ensures var v' := Grown(v, i, k, b);
            && ShapeOk(v'.ds) && |v'.ds| == |v.ds| && |v'.blocks| == |v.blocks| && v'.start == v.start
            && (forall j :: 0 <= j < |v.ds| ==> v'.ds[j].Live() == v.ds[j].Live())
            && (forall j :: 0 <= j < |v.ds| && j != i ==> v'.ds[j] == v.ds[j])
            && v'.ds[i] == v.ds[i].(addrs := v'.ds[i].addrs, indirect := v'.ds[i].indirect)
  {
  }

  lemma {:induction false} GrownMeta(v: Volume, i: nat, k: nat, b: u32)
    requires Owned(v) && i < |v.ds| && v.ds[i].Live() && k < NUM_SLOTS && v.start <= b < |v.bitmap|
    requires k > INODE_NUM_DIRECT ==> v.ds[i].indirect != 0
    ensures k > INODE_NUM_DIRECT ==> v.ds[i].indirect < |v.blocks|
    ensures MetaKept(v.blocks, Grown(v, i, k, b).blocks, v.start)
  {
    if k > INODE_NUM_DIRECT {
      RefOwned(v, i, INODE_NUM_DIRECT);
    }
    hide Owned;
  }

  lemma {:induction false} ExtendsMeta(v: Volume, v': Volume, i: nat)
    requires Extends(v, v', i)
    ensures MetaKept(v.blocks, v'.blocks, v.start)
  {
  }

  lemma {:induction false} GrowExtends(v: Volume, i: nat, k: nat, b: u32)
    requires Owned(v) && i < |v.ds| && v.ds[i].Live() && k < NUM_SLOTS && Ref(v.blocks, v.ds[i], k) == 0
    requires v.start <= b < |v.bitmap| && !v.bitmap[b] && v.pending == {}
    requires k > INODE_NUM_DIRECT ==> v.ds[i].indirect != 0
    ensures k > INODE_NUM_DIRECT ==> v.ds[i].indirect < |v.blocks|
    ensures Extends(v, Grown(v, i, k, b), i) && Owned(Grown(v, i, k, b))
  {
    GrowOwned(v, i, k, b);
    var v' := Grown(v, i, k, b);
    GrownShape(v, i, k, b);
    GrownMeta(v, i, k, b);
    assert |v.bitmap| == |v.blocks| && 0 < v.start;
    hide MetaKept, Owned, SameData, Mapped, Filled, Grown, Ref, SameRefsBut, Allocated, Linked, SetPlace;
    assert v'.pending == v.pending;
    forall j, m | 0 <= j < |v.ds| && j != i && v.ds[j].Live() && Mapped(v, j, m) ensures Mapped(v', j, m) {
      SameRefsMapped(v, v', i, k, j, m);
    }
  }

  lemma {:induction false} SameRefsMapped(v: Volume, v': Volume, i: nat, k: nat, j: nat, m: nat)
    requires SameRefsBut(v, v', i, k) && j < |v.ds| && j != i && v.ds[j].Live() && Mapped(v, j, m)
    ensures Mapped(v', j, m)
  {
    assert Ref(v'.blocks, v'.ds[j], INODE_NUM_DIRECT) == Ref(v.blocks, v.ds[j], INODE_NUM_DIRECT);
    forall r | 0 <= r < INODE_MAX_BLOCKS ensures FileBlock(v'.blocks, v'.ds[j], r) != 0 <==> r < m {
      assert FileBlock(v.blocks, v.ds[j], r) != 0 <==> r < m;
      assert Ref(v'.blocks, v'.ds[j], PlaceOf(r)) == Ref(v.blocks, v.ds[j], PlaceOf(r));
    }
  }

  /** The first block past the end of a file, and the indirect block if it is the first to need it. */
  lemma {:induction false} MapGrown(v: Volume, w: Volume, i: nat, q: nat, c: u32, b: u32)
    requires Owned(v) && i < |v.ds| && v.ds[i].Live() && q < INODE_MAX_BLOCKS && Mapped(v, i, q)
    requires v.start <= b < |w.bitmap| && v.start <= c < |v.bitmap|
    requires if q == INODE_NUM_DIRECT then !v.bitmap[c] && w == Grown(v, i, INODE_NUM_DIRECT, c) else w == v
    requires !w.bitmap[b]
    ensures Owned(w) && i < |w.ds| && w.ds[i].Live() && |w.bitmap| == |w.blocks|
    ensures q >= INODE_NUM_DIRECT ==> 0 < w.ds[i].indirect < |w.blocks|
    ensures Mapped(Grown(w, i, PlaceOf(q), b), i, q + 1)
  {
    assert FileBlock(v.blocks, v.ds[i], q) == 0;
    if q == INODE_NUM_DIRECT {
      GrowOwned(v, i, INODE_NUM_DIRECT, c);
      IndirectFilled(v, w, i, q);
      assert Ref(w.blocks, w.ds[i], INODE_NUM_DIRECT) == c;
      assert FileBlock(w.blocks, w.ds[i], q) == 0;
    } else if q > INODE_NUM_DIRECT {
      RefOwned(v, i, INODE_NUM_DIRECT);
    }
    GrowOwned(w, i, PlaceOf(q), b);
    GrowFilled(w, Grown(w, i, PlaceOf(q), b), i, q);
    assert Ref(w.blocks, w.ds[i], INODE_NUM_DIRECT) == w.ds[i].indirect;
  }

  /** Asking for a block within the file, or for the first one past its end, leaves no hole. */
  lemma {:induction false} MapMapped(v: Volume, w: Volume, v': Volume, i: nat, q: nat, c: nat, b: nat)
    requires Owned(v) && i < |v.ds| && v.ds[i].Live() && q < INODE_MAX_BLOCKS
    requires Owned(w) && i < |w.ds| && c < 0x1_0000_0000 && b < 0x1_0000_0000
    requires if q >= INODE_NUM_DIRECT && v.ds[i].indirect == 0
             then v.start <= c < |v.bitmap| && !v.bitmap[c] && w == Grown(v, i, INODE_NUM_DIRECT, c) else w == v
    requires if FileBlock(w.blocks, w.ds[i], q) == 0
             then v.start <= b < |w.bitmap| && !w.bitmap[b]
                  && (q >= INODE_NUM_DIRECT ==> w.ds[i].indirect < |w.blocks|) && v' == Grown(w, i, PlaceOf(q), b)
             else v' == w
    ensures ShapeOk(v'.ds) && i < |v'.ds|
    ensures forall m: nat :: Mapped(v, i, m) && q <= m ==> Mapped(v', i, if q == m then m + 1 else m)
  {
    forall m: nat | Mapped(v, i, m) && q <= m
      ensures Mapped(v', i, if q == m then m + 1 else m)
    {
      assert FileBlock(v.blocks, v.ds[i], q) != 0 <==> q < m;
      if q == m {
        if q == INODE_NUM_DIRECT {
          GrowOwned(v, i, INODE_NUM_DIRECT, c);
        }
        assert FileBlock(w.blocks, w.ds[i], q) == 0;
        MapGrown(v, w, i, q, if q == INODE_NUM_DIRECT then c else v.start, b);
      }
    }
  }

  // ----- bytes -----

  /** The sequence s with data in place of what was at off, longer if need be. */
  function Overwrite(s: seq<byte>, off: nat, data: seq<byte>): seq<byte>
    requires off <= |s|
  {
    s[..off] + data + if off + |data| <= |s| then s[off + |data|..] else []
  }

  /** No block of a file is used for another block of it. */
  lemma {:induction false} FileBlocksDiffer(v: Volume, i: nat, q: nat, r: nat)
    requires Owned(v) && i < |v.ds| && v.ds[i].Live() && q < INODE_MAX_BLOCKS && r < INODE_MAX_BLOCKS && q != r
    requires FileBlock(v.blocks, v.ds[i], q) != 0 && FileBlock(v.blocks, v.ds[i], r) != 0
    ensures FileBlock(v.blocks, v.ds[i], q) != FileBlock(v.blocks, v.ds[i], r)
  {
    RefOwned(v, i, PlaceOf(q));
    RefOwned(v, i, PlaceOf(r));
  }

  /** The bytes of file i after copying chunk into its block q. */
  lemma {:induction false} ChunkBytes(v: Volume, i: nat, q: nat, o: nat, chunk: seq<byte>, m: nat, p: nat)
    requires Owned(v) && i < |v.ds| && v.ds[i].Live() && Mapped(v, i, m) && q < m && p < BLOCK_SIZE * m
    requires o + |chunk| <= BLOCK_SIZE
    ensures FileBlock(v.blocks, v.ds[i], q) < |v.blocks|
    ensures var b := FileBlock(v.blocks, v.ds[i], q);
            var v' := v.(blocks := v.blocks[b := Splice(v.blocks[b], o, chunk)]);
            ByteAt(v', i, p) == if p / BLOCK_SIZE == q && o <= p % BLOCK_SIZE < o + |chunk| then chunk[p % BLOCK_SIZE - o]
                                else ByteAt(v, i, p)
  {
    var b := FileBlock(v.blocks, v.ds[i], q);
    var r := p / BLOCK_SIZE;
    assert r < m;
    assert FileBlock(v.blocks, v.ds[i], q) != 0 && FileBlock(v.blocks, v.ds[i], r) != 0;
    RefOwned(v, i, PlaceOf(q));
    RefOwned(v, i, PlaceOf(r));
    WriteKeepsRefs(v, b, Splice(v.blocks[b], o, chunk));
    if r != q {
      FileBlocksDiffer(v, i, q, r);
    }
  }

  /** Copying into a data block of file i leaves the other files and all references alone. */
  lemma {:induction false} ChunkKeeps(v: Volume, i: nat, q: nat, data: Block)
    requires Owned(v) && i < |v.ds| && v.ds[i].Live() && q < INODE_MAX_BLOCKS && FileBlock(v.blocks, v.ds[i], q) != 0
    ensures FileBlock(v.blocks, v.ds[i], q) < |v.blocks|
    ensures var v' := v.(blocks := v.blocks[FileBlock(v.blocks, v.ds[i], q) := data]);
            && Owned(v') && SameRefs(v, v')
            && forall j :: 0 <= j < |v.ds| && j != i && v.ds[j].Live() ==> SameData(v, v', j)
  {
    RefOwned(v, i, PlaceOf(q));
    var b := FileBlock(v.blocks, v.ds[i], q);
    WriteOwned(v, b, data);
    forall j | 0 <= j < |v.ds| && j != i && v.ds[j].Live() ensures SameData(v, v.(blocks := v.blocks[b := data]), j) {
      OtherBlockKept(v, v.(blocks := v.blocks[b := data]), b, j);
    }
  }

  lemma {:induction false} ChunkMapped(v: Volume, v': Volume, j: nat, m: nat)
    requires SameRefs(v, v') && j < |v.ds| && v.ds[j].Live() && Mapped(v, j, m)
    ensures Mapped(v', j, m)
  {
    SameRefsMapped(v, v', |v.ds|, 0, j, m);
  }

  /** Overwritten bytes are the new ones, the others stay, and the sequence is as long as it must be. */
  lemma {:induction false} OverwriteIs(s: seq<byte>, off: nat, data: seq<byte>, p: nat)
    requires off <= |s|
    ensures |Overwrite(s, off, data)| == if off + |data| > |s| then off + |data| else |s|
    ensures p < |Overwrite(s, off, data)| ==>
              Overwrite(s, off, data)[p] == if off <= p < off + |data| then data[p - off] else s[p]
  {
  }

  /** Byte p of a file is byte p modulo 512 of the block that holds block p / 512 of the file. */
  lemma {:induction false} ContentIs(v: Volume, i: nat, p: nat)
    requires Owned(v) && Dense(v) && i < |v.ds| && v.ds[i].Live() && p < v.ds[i].numBytes
    ensures p < |Content(v, i)| && p / 512 < INODE_MAX_BLOCKS
    ensures var b := FileBlock(v.blocks, v.ds[i], p / 512); b < |v.blocks| && Content(v, i)[p] == v.blocks[b][p % 512]
  {
    var q := p / 512;
    assert Mapped(v, i, BlocksFor(v.ds[i].numBytes));
    assert FileBlock(v.blocks, v.ds[i], q) != 0 <==> q < BlocksFor(v.ds[i].numBytes);
    RefOwned(v, i, PlaceOf(q));
  }

  /** All inodes but i, and the data of their files, are as they were. */
  ghost predicate OthersKept(v: Volume, v': Volume, i: nat) {
    && ShapeOk(v.ds) && ShapeOk(v'.ds) && i < |v.ds| == |v'.ds| && |v.blocks| == |v'.blocks|
    && forall j :: 0 <= j < |v.ds| && j != i ==> OtherKept(v, v', j)
  }

  ghost predicate OtherKept(v: Volume, v': Volume, j: nat)
    requires ShapeOk(v.ds) && ShapeOk(v'.ds) && j < |v.ds| == |v'.ds|
  {
    v'.ds[j] == v.ds[j] && (v.ds[j].Live() ==> SameData(v, v', j) && forall m :: Mapped(v, j, m) ==> Mapped(v', j, m))
  }

  lemma {:induction false} OthersRefl(v: Volume, i: nat)
    requires Owned(v) && i < |v.ds|
    ensures OthersKept(v, v, i)
  {
    ExtendsRefl(v, i);
  }

  lemma {:induction false} OthersTrans(v: Volume, w: Volume, v': Volume, i: nat)
    requires OthersKept(v, w, i) && OthersKept(w, v', i)
    ensures OthersKept(v, v', i)
  {
    forall j | 0 <= j < |v.ds| && j != i ensures OtherKept(v, v', j) {
      assert OtherKept(v, w, j) && OtherKept(w, v', j);
    }
  }

  lemma {:induction false} ExtendsOthers(v: Volume, v': Volume, i: nat)
    requires Extends(v, v', i)
    ensures OthersKept(v, v', i)
  {
  }

  /** After growing, a file keeps its old bytes and its new block reads as zeros. */
  lemma {:induction false} GrownBytes(v: Volume, v': Volume, i: nat, q: nat, m: nat, p: nat)
    requires Owned(v) && Owned(v') && Extends(v, v', i) && v.ds[i].Live() && q <= m && q < INODE_MAX_BLOCKS
    requires Mapped(v, i, m) && Mapped(v', i, if q == m then m + 1 else m)
    requires q == m ==> FileBlock(v'.blocks, v'.ds[i], q) < |v'.blocks|
                        && v'.blocks[FileBlock(v'.blocks, v'.ds[i], q)] == ZeroBlock()
    requires p < BLOCK_SIZE * if q == m then m + 1 else m
    ensures ByteAt(v', i, p) == if p < BLOCK_SIZE * m then ByteAt(v, i, p) else 0
  {
    var r := p / BLOCK_SIZE;
    if r < m {
      assert FileBlock(v.blocks, v.ds[i], r) != 0;
      assert SameData(v, v', i);
    }
  }

  lemma {:induction false} ChunkOthers(v: Volume, i: nat, q: nat, data: Block)
    requires Owned(v) && i < |v.ds| && v.ds[i].Live() && q < INODE_MAX_BLOCKS && FileBlock(v.blocks, v.ds[i], q) != 0
    ensures FileBlock(v.blocks, v.ds[i], q) < |v.blocks|
    ensures var v' := v.(blocks := v.blocks[FileBlock(v.blocks, v.ds[i], q) := data]);
            && Owned(v') && OthersKept(v, v', i) && forall m :: Mapped(v, i, m) ==> Mapped(v', i, m)
  {
    ChunkKeeps(v, i, q, data);
    var v' := v.(blocks := v.blocks[FileBlock(v.blocks, v.ds[i], q) := data]);
    hide Owned;
    forall j, m | 0 <= j < |v.ds| && v.ds[j].Live() && Mapped(v, j, m) ensures Mapped(v', j, m) {
      ChunkMapped(v, v', j, m);
    }
    forall j | 0 <= j < |v.ds| && j != i ensures OtherKept(v, v', j) {
    }
  }

  /** The file after chunk has been copied to offset off, from v through the grown volume w. */
  ghost function Written(w: Volume, i: nat, off: nat, chunk: seq<byte>): Volume
    requires ShapeOk(w.ds) && i < |w.ds| && off < INODE_MAX_BYTES && off % BLOCK_SIZE + |chunk| <= BLOCK_SIZE
    requires FileBlock(w.blocks, w.ds[i], off / BLOCK_SIZE) < |w.blocks|
  {
    var b := FileBlock(w.blocks, w.ds[i], off / BLOCK_SIZE);
    w.(blocks := w.blocks[b := Splice(w.blocks[b], off % BLOCK_SIZE, chunk)])
  }

  lemma {:induction false} WrittenBytes(v: Volume, w: Volume, i: nat, off: nat, chunk: seq<byte>, m: nat, p: nat)
    requires Owned(v) && Owned(w) && Extends(v, w, i) && v.ds[i].Live() && w.ds[i].Live() && off < INODE_MAX_BYTES
    requires off % BLOCK_SIZE + |chunk| <= BLOCK_SIZE && off / BLOCK_SIZE <= m && Mapped(v, i, m)
    requires Mapped(w, i, if off / BLOCK_SIZE == m then m + 1 else m)
    requires var b := FileBlock(w.blocks, w.ds[i], off / BLOCK_SIZE);
             b < |w.blocks| && (off / BLOCK_SIZE == m ==> w.blocks[b] == ZeroBlock())
    requires p < BLOCK_SIZE * if off / BLOCK_SIZE == m then m + 1 else m
    ensures ByteAt(Written(w, i, off, chunk), i, p) ==
            if off <= p < off + |chunk| then chunk[p - off] else if p < BLOCK_SIZE * m then ByteAt(v, i, p) else 0
  {
    var q, o := off / BLOCK_SIZE, off % BLOCK_SIZE;
    GrownBytes(v, w, i, q, m, p);
    ChunkBytes(w, i, q, o, chunk, if q == m then m + 1 else m, p);
    assert off <= p < off + |chunk| <==> p / BLOCK_SIZE == q && o <= p % BLOCK_SIZE < o + |chunk|;
  }

  lemma {:induction false} MappedTo(v: Volume, i: nat, q: nat, m: nat)
    requires Owned(v) && i < |v.ds| && v.ds[i].Live() && Mapped(v, i, m) && q < INODE_MAX_BLOCKS
    ensures m <= INODE_MAX_BLOCKS && (FileBlock(v.blocks, v.ds[i], q) != 0 <==> q < m)
    ensures q < m ==> v.start <= FileBlock(v.blocks, v.ds[i], q) < |v.blocks|
  {
    assert FileBlock(v.blocks, v.ds[i], q) != 0 <==> q < m;
    if q < m {
      RefOwned(v, i, PlaceOf(q));
    }
  }

  /** In a file of m blocks, reaching block q, in it or the next one, takes as many blocks as growing by it. */
  lemma {:induction false} NeedIs(v: Volume, i: nat, off: nat, n: nat, m: nat)
    requires Owned(v) && i < |v.ds| && v.ds[i].Live() && Mapped(v, i, m) && OneBlock(off, n, m)
    ensures Need(v.blocks, v.ds[i], off / BLOCK_SIZE) == BlocksNeeded(m, BlocksWith(off, m))
  {
    MappedTo(v, i, off / BLOCK_SIZE, m);
  }

  /** Changing the size field of a live inode moves no reference and no byte. */
  lemma {:induction false} Resized(w: Volume, v': Volume, i: nat, n: nat)
    requires Owned(w) && i < |w.ds| && w.ds[i].Live() && v' == w.(ds := w.ds[i := w.ds[i].(numBytes := n)])
    ensures Owned(v') && forall j, m :: 0 <= j < |w.ds| && w.ds[j].Live() && Mapped(w, j, m) ==> Mapped(v', j, m)
    ensures forall j, p :: 0 <= j < |w.ds| && 0 <= p < INODE_MAX_BYTES ==> ByteAt(v', j, p) == ByteAt(w, j, p)
  {
    assert SameRefs(w, v');
    SameRefsOwned(w, v');
    hide Owned;
    forall j, m | 0 <= j < |w.ds| && w.ds[j].Live() && Mapped(w, j, m) ensures Mapped(v', j, m) {
      ChunkMapped(w, v', j, m);
    }
  }

  ghost predicate WriteBytes(v: Volume, w: Volume, i: nat, off: nat, src: seq<byte>, m: nat)
    requires ShapeOk(v.ds) && ShapeOk(w.ds) && i < |v.ds| == |w.ds| && m <= INODE_MAX_BLOCKS
    requires v.ds[i].numBytes <= INODE_MAX_BYTES
  {
    forall p :: 0 <= p < BLOCK_SIZE * m ==>
      ByteAt(w, i, p) == if off <= p < off + |src| then src[p - off]
                         else if p < BLOCK_SIZE * BlocksFor(v.ds[i].numBytes) then ByteAt(v, i, p) else 0
  }

  /**
   How many bytes a transfer of count bytes moves at once, k bytes into it and at
   file offset off: what is left of the first block, then whole blocks.
   */
  function ChunkLength(off: nat, k: nat, count: nat): nat
    requires k < count
  {
    if k == 0 then (if BLOCK_SIZE - off % BLOCK_SIZE <= count then BLOCK_SIZE - off % BLOCK_SIZE else count)
    else if BLOCK_SIZE <= count - k then BLOCK_SIZE else count - k
  }

  predicate Aligned(off: nat) {
    off % BLOCK_SIZE == 0
  }

  /** n bytes at off lie in one block, which is one of the first m or the next one. */
  predicate OneBlock(off: nat, n: nat, m: nat) {
    off < INODE_MAX_BYTES && off / BLOCK_SIZE <= m && 0 < n && off % BLOCK_SIZE + n <= BLOCK_SIZE
  }

  /** The blocks of a file of m blocks after a write to its block off / BLOCK_SIZE. */
  function BlocksWith(off: nat, m: nat): nat {
    if off / BLOCK_SIZE == m then m + 1 else m
  }

  /**
   A transfer of count bytes goes block by block.  The first chunk ends at a block
   boundary, later ones start at one, and each needs at most one new block.
   */
  lemma {:induction false} ChunkStep(offset: nat, i: nat, count: nat, cnt: nat, m0: nat, m: nat)
    requires i < count && (0 < i ==> Aligned(offset + i)) && BlocksFor(offset) <= m0
    requires m == if BlocksFor(offset + i) > m0 then BlocksFor(offset + i) else m0
    requires cnt == ChunkLength(offset + i, i, count)
    ensures 0 < cnt <= count - i && (offset + i) % BLOCK_SIZE + cnt <= BLOCK_SIZE && (offset + i) / BLOCK_SIZE <= m
    ensures i + cnt < count ==> Aligned(offset + (i + cnt))
    ensures BlocksWith(offset + i, m)
            == if BlocksFor(offset + (i + cnt)) > m0 then BlocksFor(offset + (i + cnt)) else m0
    ensures offset + i <= BLOCK_SIZE * m
    ensures offset + count <= INODE_MAX_BYTES && m0 <= INODE_MAX_BLOCKS ==>
              offset + i < INODE_MAX_BYTES && BlocksWith(offset + i, m) <= INODE_MAX_BLOCKS
  {
    var off := offset + i;
    assert off == off / BLOCK_SIZE * BLOCK_SIZE + off % BLOCK_SIZE;
    assert BlocksFor(off) == if off % BLOCK_SIZE == 0 then off / BLOCK_SIZE else off / BLOCK_SIZE + 1;
    assert BlocksFor(off + cnt) == off / BLOCK_SIZE + 1;
    assert off + cnt == off / BLOCK_SIZE * BLOCK_SIZE + (off % BLOCK_SIZE + cnt);
  }

  /** Copying chunk to offset off took the volume from w to w'; file i had m blocks. */
  ghost predicate ChunkDone(w: Volume, w': Volume, i: nat, off: nat, chunk: seq<byte>, m: nat) {
    var m' := BlocksWith(off, m);
    && OthersKept(w, w', i) && m' <= INODE_MAX_BLOCKS && Mapped(w', i, m')
    && w'.ds[i] == w.ds[i].(addrs := w'.ds[i].addrs, indirect := w'.ds[i].indirect)
    && (m' == m ==> w'.ds[i] == w.ds[i])
    && forall p :: 0 <= p < BLOCK_SIZE * m' ==>
         ByteAt(w', i, p) == if off <= p < off + |chunk| then chunk[p - off]
                             else if p < BLOCK_SIZE * m then ByteAt(w, i, p) else 0
  }

  /** Mapping the block, which may have added it to the file, and then copying the chunk into it. */
  lemma {:induction false} ChunkWritten(v: Volume, w: Volume, i: nat, off: nat, chunk: seq<byte>, m: nat)
    requires Owned(v) && Owned(w) && Extends(v, w, i) && v.ds[i].Live() && w.ds[i].Live()
    requires OneBlock(off, |chunk|, m) && Mapped(v, i, m) && Mapped(w, i, BlocksWith(off, m))
    requires off / BLOCK_SIZE < m ==> w.ds[i] == v.ds[i]
    requires off / BLOCK_SIZE == m ==> var b := FileBlock(w.blocks, w.ds[i], m); b < |w.blocks| && w.blocks[b] == ZeroBlock()
    ensures FileBlock(w.blocks, w.ds[i], off / BLOCK_SIZE) < |w.blocks|
    ensures Owned(Written(w, i, off, chunk)) && ChunkDone(v, Written(w, i, off, chunk), i, off, chunk, m)
  {
    var q, m' := off / BLOCK_SIZE, BlocksWith(off, m);
    MappedTo(w, i, q, m');
    var b := FileBlock(w.blocks, w.ds[i], q);
    ChunkOthers(w, i, q, Splice(w.blocks[b], off % BLOCK_SIZE, chunk));
    ExtendsOthers(v, w, i);
    OthersTrans(v, w, Written(w, i, off, chunk), i);
    hide Owned, Extends, OthersKept, ByteAt, Ref, Splice;
    assert ShapeOk(v.ds) && i < |v.ds|;
    forall p | 0 <= p < BLOCK_SIZE * m'
      ensures ByteAt(Written(w, i, off, chunk), i, p) ==
              if off <= p < off + |chunk| then chunk[p - off] else if p < BLOCK_SIZE * m then ByteAt(v, i, p) else 0
    {
      WrittenBytes(v, w, i, off, chunk, m, p);
    }
  }

  /** The bytes src have been written to file i at offset; it now has m blocks. */
  ghost predicate Progress(v: Volume, w: Volume, i: nat, offset: nat, src: seq<byte>, m: nat) {
    && OthersKept(v, w, i) && v.ds[i].numBytes <= INODE_MAX_BYTES && m <= INODE_MAX_BLOCKS && Mapped(w, i, m)
    && m == (if BlocksFor(offset + |src|) > BlocksFor(v.ds[i].numBytes) then BlocksFor(offset + |src|)
             else BlocksFor(v.ds[i].numBytes))
    && w.ds[i] == v.ds[i].(addrs := w.ds[i].addrs, indirect := w.ds[i].indirect)
    && (m == BlocksFor(v.ds[i].numBytes) ==> w.ds[i] == v.ds[i])
    && WriteBytes(v, w, i, offset, src, m)
  }

  lemma {:induction false} ProgressStart(v: Volume, i: nat, offset: nat)
    requires Owned(v) && Dense(v) && i < |v.ds| && v.ds[i].Live() && offset <= v.ds[i].numBytes
    ensures Progress(v, v, i, offset, [], BlocksFor(v.ds[i].numBytes))
  {
    OthersRefl(v, i);
    assert Mapped(v, i, BlocksFor(v.ds[i].numBytes));
  }

  /** One more chunk of the source has reached the file. */
  lemma {:induction false} ProgressStep(v: Volume, w: Volume, w': Volume, i: nat, offset: nat, src: seq<byte>,
                                        k: nat, cnt: nat, m: nat)
    requires k < |src| && cnt == ChunkLength(offset + k, k, |src|) && k + cnt <= |src|
    requires Progress(v, w, i, offset, src[..k], m) && offset <= v.ds[i].numBytes
    requires ChunkDone(w, w', i, offset + k, src[k..k + cnt], m)
    requires (0 < k ==> Aligned(offset + k)) && offset + |src| <= INODE_MAX_BYTES
    ensures Progress(v, w', i, offset, src[..k + cnt], BlocksWith(offset + k, m))
  {
    var m' := BlocksWith(offset + k, m);
    ChunkStep(offset, k, |src|, cnt, BlocksFor(v.ds[i].numBytes), m);
    hide ByteAt, Mapped, OthersKept;
    OthersTrans(v, w, w', i);
    assert ShapeOk(v.ds) && ShapeOk(w.ds) && ShapeOk(w'.ds) && i < |v.ds| == |w.ds| == |w'.ds|;
    forall p | 0 <= p < BLOCK_SIZE * m'
      ensures ByteAt(w', i, p) == if offset <= p < offset + (k + cnt) then src[..k + cnt][p - offset]
                                  else if p < BLOCK_SIZE * BlocksFor(v.ds[i].numBytes) then ByteAt(v, i, p) else 0
    {
      if p < BLOCK_SIZE * m {
        assert ByteAt(w, i, p) == if offset <= p < offset + k then src[..k][p - offset]
                                  else if p < BLOCK_SIZE * BlocksFor(v.ds[i].numBytes) then ByteAt(v, i, p) else 0;
      }
    }
  }

  /** The next chunk fits one block, which is in the file or the first one past its end. */
  lemma {:induction false} ProgressNext(v: Volume, w: Volume, i: nat, offset: nat, src: seq<byte>, k: nat, cnt: nat, m: nat)
    requires k < |src| && Progress(v, w, i, offset, src[..k], m) && offset <= v.ds[i].numBytes
    requires (0 < k ==> Aligned(offset + k)) && offset + |src| <= INODE_MAX_BYTES
    requires cnt == ChunkLength(offset + k, k, |src|)
    ensures 0 < cnt <= |src| - k && OneBlock(offset + k, cnt, m) && Mapped(w, i, m)
    ensures k + cnt < |src| ==> Aligned(offset + (k + cnt))
  {
    ChunkStep(offset, k, |src|, cnt, BlocksFor(v.ds[i].numBytes), m);
  }

  /** The blocks that the chunks so far and the next one need are no more than the whole write needs. */
  lemma {:induction false} ProgressNeeds(v: Volume, w: Volume, i: nat, offset: nat, src: seq<byte>, k: nat, cnt: nat, m: nat)
    requires k < |src| && Progress(v, w, i, offset, src[..k], m) && offset <= v.ds[i].numBytes
    requires (0 < k ==> Aligned(offset + k)) && offset + |src| <= INODE_MAX_BYTES
    requires cnt == ChunkLength(offset + k, k, |src|)
    ensures var m0, m', end := BlocksFor(v.ds[i].numBytes), BlocksWith(offset + k, m), BlocksFor(offset + |src|);
            && BlocksNeeded(m0, m') == BlocksNeeded(m0, m) + BlocksNeeded(m, m')
            && BlocksNeeded(m0, m') <= BlocksNeeded(m0, end)
  {
    var m0, m', end := BlocksFor(v.ds[i].numBytes), BlocksWith(offset + k, m), BlocksFor(offset + |src|);
    ChunkStep(offset, k, |src|, cnt, m0, m);
    assert end >= BlocksFor(offset + (k + cnt));
    NeededAdds(m0, m, m');
    if m' <= end {
      NeededAdds(m0, m', end);
    }
  }

  /** A finished write needed the blocks that its size asks for. */
  lemma {:induction false} ProgressNeeded(v: Volume, w: Volume, i: nat, offset: nat, src: seq<byte>, m: nat)
    requires Progress(v, w, i, offset, src, m)
    ensures BlocksNeeded(BlocksFor(v.ds[i].numBytes), m) == BlocksNeeded(BlocksFor(v.ds[i].numBytes), BlocksFor(offset + |src|))
  {
  }

  lemma {:induction false} WriteContent(v: Volume, w: Volume, v': Volume, i: nat, off: nat, src: seq<byte>, m: nat)
    requires ShapeOk(v.ds) && ShapeOk(w.ds) && ShapeOk(v'.ds) && i < |v.ds| == |w.ds| == |v'.ds|
    requires v.ds[i].numBytes <= INODE_MAX_BYTES && v'.ds[i].numBytes <= INODE_MAX_BYTES && m <= INODE_MAX_BLOCKS
    requires off <= v.ds[i].numBytes && v'.ds[i].numBytes == if v.ds[i].numBytes < off + |src| then off + |src| else v.ds[i].numBytes
    requires BlocksFor(v'.ds[i].numBytes) <= m && WriteBytes(v, w, i, off, src, m)
    requires forall p :: 0 <= p < INODE_MAX_BYTES ==> ByteAt(v', i, p) == ByteAt(w, i, p)
    ensures Content(v', i) == Overwrite(Content(v, i), off, src)
  {
    var o := Overwrite(Content(v, i), off, src);
    hide ByteAt;
    forall p | 0 <= p < |o| ensures Content(v', i)[p] == o[p] {
      assert p < BLOCK_SIZE * m;
      assert ByteAt(v', i, p) == ByteAt(w, i, p);
    }
  }

  /** The volume after a whole write, once the size has been brought up to date. */
  lemma {:induction false} WriteDone(v: Volume, w: Volume, v': Volume, i: nat, off: nat, src: seq<byte>, m: nat)
    requires Owned(v) && Dense(v) && Owned(w) && i < |v.ds| && v.ds[i].Live() && Progress(v, w, i, off, src, m)
    requires off <= v.ds[i].numBytes && off + |src| <= INODE_MAX_BYTES
    requires v' == w.(ds := w.ds[i := w.ds[i].(numBytes := if v.ds[i].numBytes < off + |src| then off + |src| else v.ds[i].numBytes)])
    ensures Owned(v') && Dense(v') && Content(v', i) == Overwrite(Content(v, i), off, src)
    ensures |v'.ds| == |v.ds| && forall j :: 0 <= j < |v.ds| && j != i ==> v'.ds[j] == v.ds[j]
    ensures forall j :: 0 <= j < |v.ds| && j != i && v.ds[j].Live() ==> Content(v', j) == Content(v, j)
  {
    Resized(w, v', i, v'.ds[i].numBytes);
    WriteContent(v, w, v', i, off, src, m);
    hide Owned, Mapped, ByteAt, WriteBytes, SameData;
    forall j | 0 <= j < |v.ds| && j != i ensures v'.ds[j] == v.ds[j] {
      assert OtherKept(v, w, j);
    }
    forall j | 0 <= j < |v.ds| && j != i && v.ds[j].Live()
      ensures v.ds[j].numBytes <= INODE_MAX_BYTES && Mapped(v', j, BlocksFor(v.ds[j].numBytes))
      ensures Content(v', j) == Content(v, j)
    {
      assert OtherKept(v, w, j);
      assert Mapped(v, j, BlocksFor(v.ds[j].numBytes));
      SameContent(v, w, j);
      assert Content(v', j) == Content(w, j);
    }
    assert Mapped(v', i, m);
  }

  // ----- reading -----

  /** The bytes that one block holds of a stretch of a file. */
  lemma {:induction false} ReadChunk(v: Volume, i: nat, off: nat, cnt: nat)
    requires Owned(v) && Dense(v) && i < |v.ds| && v.ds[i].Live() && off + cnt <= v.ds[i].numBytes
    requires 0 < cnt && off % BLOCK_SIZE + cnt <= BLOCK_SIZE
    ensures v.ds[i].numBytes <= INODE_MAX_BYTES
    ensures 0 < FileBlock(v.blocks, v.ds[i], off / BLOCK_SIZE) < |v.blocks|
    ensures var o := off % BLOCK_SIZE;
            v.blocks[FileBlock(v.blocks, v.ds[i], off / BLOCK_SIZE)][o..o + cnt] == Content(v, i)[off..off + cnt]
  {
    var q, o, m := off / BLOCK_SIZE, off % BLOCK_SIZE, BlocksFor(v.ds[i].numBytes);
    assert Mapped(v, i, m) && q < m;
    MappedTo(v, i, q, m);
    hide Owned, Dense, Mapped;
    var there, here := v.blocks[FileBlock(v.blocks, v.ds[i], q)][o..o + cnt], Content(v, i)[off..off + cnt];
    forall x | 0 <= x < cnt ensures there[x] == here[x] {
      assert (off + x) / BLOCK_SIZE == q && (off + x) % BLOCK_SIZE == o + x;
    }
  }

  lemma {:induction false} DenseSize(v: Volume, i: nat)
    requires Owned(v) && Dense(v) && i < |v.ds| && v.ds[i].Live()
    ensures v.ds[i].numBytes <= INODE_MAX_BYTES
  {
  }

  lemma {:induction false} ReadStep(offset: nat, i: nat, count: nat, cnt: nat)
    requires i < count && (0 < i ==> Aligned(offset + i)) && cnt == ChunkLength(offset + i, i, count)
    ensures 0 < cnt <= count - i && (offset + i) % BLOCK_SIZE + cnt <= BLOCK_SIZE
    ensures i + cnt < count ==> Aligned(offset + (i + cnt))
  {
    var m0 := BlocksFor(offset);
    ChunkStep(offset, i, count, cnt, m0, if BlocksFor(offset + i) > m0 then BlocksFor(offset + i) else m0);
  }

  // ----- emptying a file -----

  /** The places lo to hi of inode i refer to nothing. */
  ghost predicate EmptyIn(v: Volume, i: nat, lo: nat, hi: nat) {
    ShapeOk(v.ds) && i < |v.ds| && hi <= NUM_SLOTS && forall k :: lo <= k < hi ==> Ref(v.blocks, v.ds[i], k) == 0
  }

  /**
   From v to v', inode i may have lost blocks and bytes; nothing else changed, and
   every other owner kept its blocks.
   */
  ghost predicate Released(v: Volume, v': Volume, i: nat) {
    && OthersKept(v, v', i) && v'.start == v.start && v'.pending == v.pending && |v'.bitmap| == |v.bitmap|
    && v'.ds[i] == v.ds[i].(addrs := v'.ds[i].addrs, indirect := v'.ds[i].indirect, numBytes := v'.ds[i].numBytes)
    && (forall b :: b in v'.owner ==> b in v.owner && v'.owner[b] == v.owner[b])
    && (forall b :: b in v.owner && v.owner[b].ino != i ==> b in v'.owner)
  }

  lemma {:induction false} ReleasedTrans(v: Volume, w: Volume, v': Volume, i: nat)
    requires Released(v, w, i) && Released(w, v', i)
    ensures Released(v, v', i)
  {
    hide OthersKept;
    OthersTrans(v, w, v', i);
  }

  lemma {:induction false} FreeReleases(v: Volume, i: nat, k: nat)
    requires Owned(v) && i < |v.ds| && v.ds[i].Live() && k < NUM_SLOTS && Ref(v.blocks, v.ds[i], k) != 0
    requires k == INODE_NUM_DIRECT ==> EmptyIn(v, i, INODE_NUM_DIRECT + 1, NUM_SLOTS)
    ensures v.start <= Ref(v.blocks, v.ds[i], k) < |v.bitmap|
    ensures k > INODE_NUM_DIRECT ==> v.ds[i].indirect < |v.blocks|
    ensures Owned(Freed(v, i, k)) && Released(v, Freed(v, i, k), i) && SameRefsBut(v, Freed(v, i, k), i, k)
    ensures Ref(Freed(v, i, k).blocks, Freed(v, i, k).ds[i], k) == 0
  {
    RefOwned(v, i, k);
    if k == INODE_NUM_DIRECT {
      forall w | 0 <= w < INODE_NUM_INDIRECT ensures WordAt(v.blocks[v.ds[i].indirect], w) == 0 {
        assert Ref(v.blocks, v.ds[i], INODE_NUM_DIRECT + 1 + w) == 0;
      }
    }
    FreeOwned(v, i, k);
    FreedOthers(v, i, k);
  }

  lemma {:induction false} FreedOthers(v: Volume, i: nat, k: nat)
    requires Owned(v) && i < |v.ds| && v.ds[i].Live() && k < NUM_SLOTS
    requires var b := Ref(v.blocks, v.ds[i], k); b != 0 && b < |v.bitmap| && b in v.owner && v.owner[b] == Site(i, k)
    requires k > INODE_NUM_DIRECT ==> 0 < v.ds[i].indirect < |v.blocks|
    requires SameRefsBut(v, Freed(v, i, k), i, k)
    ensures Released(v, Freed(v, i, k), i)
  {
    var v', c := Freed(v, i, k), v.ds[i].indirect;
    if c != 0 {
      RefOwned(v, i, INODE_NUM_DIRECT);
    }
    forall j | 0 <= j < |v.ds| && j != i ensures OtherKept(v, v', j) {
      if v.ds[j].Live() {
        OtherBlockKept(v, v', c, j);
        forall m | Mapped(v, j, m) ensures Mapped(v', j, m) {
          SameRefsMapped(v, v', i, k, j, m);
        }
      }
    }
  }

  /** An inode with no blocks and no bytes. */
  ghost function Blank(d: Dinode): Dinode {
    d.(numBytes := 0, addrs := seq(INODE_NUM_DIRECT, _ => 0), indirect := 0)
  }

  /** Inode i has given back all its blocks, and nothing else changed. */
  ghost predicate Wiped(v: Volume, v': Volume, i: nat) {
    && Owned(v') && Released(v, v', i) && v'.ds[i] == Blank(v.ds[i])
    && forall b :: b in v'.owner <==> b in v.owner && v.owner[b].ino != i
  }

  lemma {:induction false} AllReleased(v: Volume, w: Volume, i: nat)
    requires Owned(w) && Released(v, w, i) && i < |v.ds| && v.ds[i].Live() && EmptyIn(w, i, 0, NUM_SLOTS)
    ensures Wiped(v, w.(ds := w.ds[i := w.ds[i].(numBytes := 0)]), i)
  {
    var v' := w.(ds := w.ds[i := w.ds[i].(numBytes := 0)]);
    forall k | 0 <= k < INODE_NUM_DIRECT ensures w.ds[i].addrs[k] == 0 {
      assert Ref(w.blocks, w.ds[i], k) == 0;
    }
    assert Ref(w.blocks, w.ds[i], INODE_NUM_DIRECT) == 0;
    assert w.ds[i].addrs == seq(INODE_NUM_DIRECT, _ => 0);
    forall b | b in w.owner ensures w.owner[b].ino != i {
      assert Cites(w, w.owner[b], b);
    }
    Resized(w, v', i, 0);
    hide Owned, Mapped;
    forall j | 0 <= j < |v.ds| && j != i ensures OtherKept(v, v', j) {
      assert OtherKept(v, w, j);
    }
  }

  lemma {:induction false} ReleasedRefl(v: Volume, i: nat)
    requires Owned(v) && i < |v.ds|
    ensures Released(v, v, i)
  {
    OthersRefl(v, i);
  }

  lemma {:induction false} EmptyNone(v: Volume, i: nat, lo: nat)
    requires Owned(v) && i < |v.ds| && lo <= NUM_SLOTS
    ensures EmptyIn(v, i, lo, lo)
  {
  }

  /** Emptying place k, or keeping a range that does not reach it. */
  lemma {:induction false} EmptyStep(v: Volume, v': Volume, i: nat, lo: nat, hi: nat, k: nat)
    requires Owned(v) && Owned(v') && i < |v.ds| == |v'.ds| && lo <= hi <= NUM_SLOTS && k < NUM_SLOTS
    requires EmptyIn(v, i, lo, hi) && Ref(v'.blocks, v'.ds[i], k) == 0
    requires forall l :: 0 <= l < NUM_SLOTS && l != k ==> Ref(v'.blocks, v'.ds[i], l) == Ref(v.blocks, v.ds[i], l)
    ensures EmptyIn(v', i, lo, if k == hi then hi + 1 else hi)
  {
    hide Owned, Ref;
    ShapeOf(v);
    ShapeOf(v');
  }

  lemma {:induction false} EmptyJoin(v: Volume, i: nat)
    requires Owned(v) && i < |v.ds| && EmptyIn(v, i, 0, INODE_NUM_DIRECT + 1) && EmptyIn(v, i, INODE_NUM_DIRECT + 1, NUM_SLOTS)
    ensures EmptyIn(v, i, 0, NUM_SLOTS)
  {
  }

  lemma {:induction false} NoIndirect(v: Volume, i: nat)
    requires Owned(v) && i < |v.ds| && EmptyIn(v, i, 0, INODE_NUM_DIRECT) && v.ds[i].indirect == 0
    ensures EmptyIn(v, i, 0, NUM_SLOTS)
  {
  }

  /** A wiped volume has no holes and the other files read as before. */
  lemma {:induction false} WipedDense(v: Volume, v': Volume, i: nat)
    requires Owned(v) && Dense(v) && Wiped(v, v', i) && i < |v.ds|
    ensures ShapeOk(v'.ds) && |v'.ds| == |v.ds| && Owned(v') && Dense(v') && v'.pending == v.pending
    ensures v'.ds[i] == Blank(v.ds[i]) && Content(v', i) == []
    ensures forall j :: 0 <= j < |v.ds| && j != i ==> v'.ds[j] == v.ds[j]
    ensures forall j :: 0 <= j < |v.ds| && j != i && v.ds[j].Live() ==> Content(v', j) == Content(v, j)
  {
    assert Mapped(v', i, 0);
    forall j | 0 <= j < |v.ds| && j != i ensures v'.ds[j] == v.ds[j] {
      assert OtherKept(v, v', j);
    }
    hide Owned, Mapped, SameData, ByteAt;
    forall j | 0 <= j < |v.ds| && j != i && v.ds[j].Live()
      ensures v.ds[j].numBytes <= INODE_MAX_BYTES && Mapped(v', j, BlocksFor(v.ds[j].numBytes))
      ensures Content(v', j) == Content(v, j)
    {
      assert OtherKept(v, v', j);
      assert Mapped(v, j, BlocksFor(v.ds[j].numBytes));
      SameContent(v, v', j);
    }
    assert BlocksFor(0) == 0;
  }

  /** Replacing an entry that refers to nothing by one that is not live. */
  lemma {:induction false} DeadOwned(w: Volume, v': Volume, i: nat)
    requires Owned(w) && i < |w.ds| == |v'.ds| && w.ds[i] == Blank(w.ds[i])
    requires v' == w.(ds := w.ds[i := v'.ds[i]]) && !v'.ds[i].Live() && |v'.ds[i].addrs| == INODE_NUM_DIRECT
    ensures Owned(v')
  {
    forall j, k | Refers(v', j, k) ensures OwnedBy(v', j, k) {
      assert Refers(w, j, k);
    }
    forall b | b in v'.owner ensures Cites(v', v'.owner[b], b) {
      assert Cites(w, w.owner[b], b);
    }
  }

  /** Inode i is freed: it was wiped, and its entry is no longer live. */
  lemma {:induction false} DeadInode(v: Volume, w: Volume, v': Volume, i: nat)
    requires Owned(v) && Dense(v) && Wiped(v, w, i) && i < |v.ds| && v.pending == {}
    requires i < |w.ds| == |v'.ds| && v' == w.(ds := w.ds[i := v'.ds[i]]) && !v'.ds[i].Live() && |v'.ds[i].addrs| == INODE_NUM_DIRECT
    ensures Owned(v') && Dense(v') && v'.pending == {} && |v'.ds| == |v.ds| && |v'.bitmap| == |v.bitmap| && v'.start == v.start
    ensures forall b :: v'.start <= b < |v'.bitmap| ==> (v'.bitmap[b] <==> v.bitmap[b] && b in v.owner && v.owner[b].ino != i)
    ensures forall j :: 0 <= j < |v.ds| && j != i ==> v'.ds[j] == v.ds[j]
    ensures forall j :: 0 <= j < |v.ds| && j != i && v.ds[j].Live() ==> Content(v', j) == Content(v, j)
  {
    WipedDense(v, w, i);
    DeadOwned(w, v', i);
    SameFiles(w, v', i);
    hide OthersKept;
  }

  /** Entries other than i, and the blocks, are the same: the files are the same. */
  lemma {:induction false} SameFiles(w: Volume, v': Volume, i: nat)
    requires Owned(w) && Dense(w) && Owned(v') && i < |w.ds| == |v'.ds| && v'.blocks == w.blocks
    requires forall j :: 0 <= j < |w.ds| && j != i ==> v'.ds[j] == w.ds[j]
    requires v'.ds[i].Live() ==> v'.ds[i].numBytes == 0 && Mapped(v', i, 0)
    ensures Dense(v') && forall j :: 0 <= j < |w.ds| && j != i && w.ds[j].Live() ==> Content(v', j) == Content(w, j)
  {
    forall j | 0 <= j < |w.ds| && j != i && w.ds[j].Live()
      ensures w.ds[j].numBytes <= INODE_MAX_BYTES && Mapped(v', j, BlocksFor(w.ds[j].numBytes))
      ensures Content(v', j) == Content(w, j)
    {
      assert Mapped(w, j, BlocksFor(w.ds[j].numBytes));
    }
  }

  /** A free inode becomes an empty live one. */
  lemma {:induction false} FreshInode(v: Volume, v': Volume, i: nat, kind: nat)
    requires Owned(v) && Dense(v) && i < |v.ds| && !v.ds[i].Live() && kind != INODE_INVALID
    requires v' == v.(ds := v.ds[i := Dinode(kind, 0, 0, seq(INODE_NUM_DIRECT, _ => 0), 0, 0)])
    ensures Owned(v') && Dense(v') && Content(v', i) == []
    ensures forall j :: 0 <= j < |v.ds| && j != i && v.ds[j].Live() ==> Content(v', j) == Content(v, j)
  {
    forall j, k | Refers(v', j, k) ensures OwnedBy(v', j, k) {
      assert Refers(v, j, k);
      assert OwnedBy(v, j, k);
    }
    forall b | b in v'.owner ensures Cites(v', v'.owner[b], b) {
      assert Cites(v, v.owner[b], b);
    }
    assert Owned(v');
    assert Mapped(v', i, 0);
    hide Owned;
    SameFiles(v, v', i);
  }
}
