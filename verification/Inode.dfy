/**
 The inode layer over the cached view of the volume: allocation, block maps, byte
 reads and writes, truncation and release.  A method whose ok result is false has
 panicked.
 */
module Inode {
  import opened Bytes
  import opened FileBlocks

  const BITS_PER_BLOCK := 4096
  const USIZE_LIMIT := 0x1_0000_0000_0000_0000
  const INODE_DEVICE := 3
  const CONSOLE := 1

  type usize = x: nat | x < USIZE_LIMIT

  datatype ReadResult = ReadPanic | Bytes(data: seq<byte>)

  /** An in-memory inode: a copy of the on-disk entry once it is valid. */
  class MemInode {
    const no: nat
    var valid: bool
    var entry: Dinode
    var rc: nat

    constructor (no: nat)
      ensures this.no == no && !valid && rc == 1
    {
      this.no, valid, rc := no, false, 1;
      entry := Dinode(INODE_INVALID, 0, 0, seq(INODE_NUM_DIRECT, _ => 0), 0, 0);
    }
  }

  function Min(a: nat, b: nat): nat {
    if a <= b then a else b
  }

  function Max(a: nat, b: nat): nat {
    if a <= b then b else a
  }

  class FileSystem {
    const start: nat
    const numDataBlocks: nat
    var bitmap: seq<bool>
    var blocks: seq<Block>
    var dinodes: seq<Dinode>
    ghost var owner: map<nat, Site>
    ghost var pending: set<nat>

    ghost function Vol(): Volume
      reads this
    {
      Volume(bitmap, blocks, dinodes, start, owner, pending)
    }

    /** The volume with the in-memory entry of ip in place of the one on disk. */
    ghost function Cur(ip: MemInode): Volume
      reads this, ip
      requires ip.no < |dinodes|
    {
      Volume(bitmap, blocks, dinodes[ip.no := ip.entry], start, owner, pending)
    }

    /** Holds between any two calls. */
    ghost predicate Valid()
      reads this
    {
      Owned(Vol()) && pending == {} && Dense(Vol())
    }

    /** A loaded in-memory inode that agrees with the one on disk. */
    ghost predicate Loaded(ip: MemInode)
      reads this, ip
    {
      ip.valid && ip.no < |dinodes| && ip.entry == dinodes[ip.no] && ip.entry.Live()
    }

    /** A live inode whose in-memory entry may be ahead of the disk; every block has one owner. */
    ghost predicate Open(ip: MemInode)
      reads this, ip
    {
      && ip.no < |dinodes| && |ip.entry.addrs| == INODE_NUM_DIRECT && ip.entry.Live() && dinodes[ip.no].Live()
      && Owned(Cur(ip)) && pending == {} && 0 < start <= |bitmap| == |blocks| < 0x1_0000_0000
    }

    /** A freshly made volume: no live inode, and no block in use but those before the data area. */
    constructor Fresh(start: nat, numDataBlocks: nat, blocks: seq<Block>, numInodes: nat)
      requires 0 < start <= |blocks| < 0x1_0000_0000
      ensures Valid() && this.start == start && this.blocks == blocks && |dinodes| == numInodes
      ensures forall i :: 0 <= i < numInodes ==> !dinodes[i].Live()
    {
      this.start, this.numDataBlocks, this.blocks := start, numDataBlocks, blocks;
      bitmap := seq(|blocks|, b => b < start);
      dinodes := seq(numInodes, _ => Dinode(INODE_INVALID, 0, 0, seq(INODE_NUM_DIRECT, _ => 0), 0, 0));
      owner, pending := map[], {};
    }

    /** The first block number that the allocator does not look at. */
    ghost function ScanLimit(): nat
      reads this
    {
      Min((numDataBlocks + BITS_PER_BLOCK - 1) / BITS_PER_BLOCK * BITS_PER_BLOCK, |blocks|)
    }

    /** How many free blocks the allocator can find. */
    ghost function Free(): nat
      reads this
    {
      FreeBelow(bitmap, ScanLimit())
    }

    /** The scan looks at the blocks whose bit is in a bitmap block that begins below the number of data blocks. */
    lemma {:induction false} ScanIs()
      ensures forall c: nat :: c < ScanLimit() <==> c < |blocks| && c / 4096 * 4096 < numDataBlocks
    {
    }

    /** Takes the first free block, zeroed; panics exactly when the scan finds none. */
    method Alloc() returns (ok: bool, b: nat)
      requires 0 < start <= |bitmap| == |blocks| && forall c :: 0 <= c < start ==> bitmap[c]
      modifies this`bitmap, this`blocks, this`pending
      ensures ok <==> old(Free()) > 0
      ensures ok <==> exists c :: start <= c < |old(bitmap)| && c / 4096 * 4096 < numDataBlocks && !old(bitmap)[c]
      ensures ok ==> Free() == old(Free()) - 1
      ensures !ok ==> bitmap == old(bitmap) && blocks == old(blocks) && pending == old(pending)
      ensures ok ==> start <= b < old(ScanLimit()) && !old(bitmap)[b] && forall c :: 0 <= c < b ==> old(bitmap)[c]
      ensures ok ==> bitmap == old(bitmap)[b := true] && blocks == old(blocks)[b := ZeroBlock()] && pending == old(pending) + {b}
    {
      NoneFree(bitmap, ScanLimit());
      ScanIs();
      hide FreeBelow;
      b := 0;
      var n := (numDataBlocks + BITS_PER_BLOCK - 1) / BITS_PER_BLOCK;
      var i := 0;
      while i < n
        invariant 0 <= i <= n && bitmap == old(bitmap) && blocks == old(blocks)
        invariant forall c :: 0 <= c < i * BITS_PER_BLOCK && c < |blocks| ==> bitmap[c]
      {
        var j := 0;
        while j < BITS_PER_BLOCK
          invariant 0 <= j <= BITS_PER_BLOCK && bitmap == old(bitmap) && blocks == old(blocks)
          invariant forall c :: 0 <= c < i * BITS_PER_BLOCK + j && c < |blocks| ==> bitmap[c]
        {
          b := i * BITS_PER_BLOCK + j;
          if b >= |blocks| {
            return false, b;
          }
          if !bitmap[b] {
            assert b < n * BITS_PER_BLOCK;
            OneTaken(bitmap, ScanLimit(), b);
            blocks := blocks[b := ZeroBlock()];
            bitmap := bitmap[b := true];
            pending := pending + {b};
            return true, b;
          }
          j := j + 1;
        }
        i := i + 1;
      }
      return false, b;
    }

    /** Stores the number b at place k of ip. */
    method Store(ip: MemInode, k: nat, b: nat)
      requires ip.no < |dinodes| && |ip.entry.addrs| == INODE_NUM_DIRECT && k < NUM_SLOTS && b < 0x1_0000_0000
      requires k > INODE_NUM_DIRECT ==> ip.entry.indirect < |blocks|
      modifies this`blocks, ip`entry
      ensures Cur(ip) == SetPlace(old(Cur(ip)), ip.no, k, b)
      ensures (k > INODE_NUM_DIRECT ==> start <= old(ip.entry.indirect)) ==> MetaKept(old(blocks), blocks, start)
    {
      ghost var v := Cur(ip);
      if k < INODE_NUM_DIRECT {
        ip.entry := ip.entry.(addrs := ip.entry.addrs[k := b]);
      } else if k == INODE_NUM_DIRECT {
        ip.entry := ip.entry.(indirect := b);
      } else {
        blocks := blocks[ip.entry.indirect := SetWord(blocks[ip.entry.indirect], k - INODE_NUM_DIRECT - 1, b)];
      }
      assert v.ds[ip.no := ip.entry] == dinodes[ip.no := ip.entry];
    }

    /** Allocates a block and stores its number at the empty place k of ip. */
    method AllocAt(ip: MemInode, k: nat) returns (ok: bool, b: nat)
      requires Open(ip) && k < NUM_SLOTS && Ref(blocks, ip.entry, k) == 0
      requires k > INODE_NUM_DIRECT ==> ip.entry.indirect != 0
      modifies this`bitmap, this`blocks, this`pending, this`owner, ip`entry
      ensures ok <==> old(Free()) > 0
      ensures ok ==> Free() == old(Free()) - 1
      ensures ok ==> start <= b < |old(bitmap)| && !old(bitmap)[b] && b < 0x1_0000_0000
      ensures ok && k > INODE_NUM_DIRECT ==> old(ip.entry.indirect) < |old(blocks)|
      ensures ok ==> Cur(ip) == Grown(old(Cur(ip)), ip.no, k, b)
      ensures ok ==> Open(ip) && Extends(old(Cur(ip)), Cur(ip), ip.no)
      ensures ok ==> b < |blocks| && blocks[b] == ZeroBlock() && Ref(blocks, ip.entry, k) == b
      ensures ok && k != INODE_NUM_DIRECT ==> ip.entry.indirect == old(ip.entry.indirect)
    {
      ghost var v := Cur(ip);
      if k > INODE_NUM_DIRECT {
        RefOwned(v, ip.no, INODE_NUM_DIRECT);
      }
      assert 0 < start <= |bitmap| == |blocks| < 0x1_0000_0000 && forall c :: 0 <= c < start ==> bitmap[c];
      hide Owned, Extends, SameData, SameRefsBut, FreeBelow;
      ok, b := Alloc();
      if !ok {
        return;
      }
      assert Cur(ip) == Allocated(v, b);
      Store(ip, k, b);
      owner := owner[b := Site(ip.no, k)];
      pending := pending - {b};
      assert Cur(ip) == Grown(v, ip.no, k, b);
      GrowOwned(v, ip.no, k, b);
      GrowExtends(v, ip.no, k, b);
    }

    /** The block that holds block q of the file, 0 if there is none; nothing is allocated. */
    method Find(ip: MemInode, q: nat) returns (b: nat)
      requires |ip.entry.addrs| == INODE_NUM_DIRECT && q < INODE_MAX_BLOCKS
      requires ip.entry.indirect != 0 ==> ip.entry.indirect < |blocks|
      ensures b == FileBlock(blocks, ip.entry, q)
      ensures q < 12 ==> b == ip.entry.addrs[q]
      ensures q >= 12 && ip.entry.indirect == 0 ==> b == 0
      ensures q >= 12 && ip.entry.indirect != 0 ==>
                var w, o := blocks[ip.entry.indirect], 4 * (q - 12);
                b == (w[o] as int) + 0x100 * (w[o + 1] as int) + 0x1_0000 * (w[o + 2] as int) + 0x100_0000 * (w[o + 3] as int)
    {
      FileBlockIs(blocks, ip.entry, q);
      if q < INODE_NUM_DIRECT {
        b := ip.entry.addrs[q];
      } else if ip.entry.indirect == 0 {
        b := 0;
      } else {
        b := WordAt(blocks[ip.entry.indirect], q - INODE_NUM_DIRECT);
      }
    }

    /**
     The block that holds block q of the file.  A missing block is added, zeroed,
     and the indirect block before it if need be.
     */
    method Map(ip: MemInode, q: nat) returns (ok: bool, b: nat, modified: bool)
      requires Open(ip) && q < INODE_MAX_BLOCKS
      modifies this`bitmap, this`blocks, this`pending, this`owner, ip`entry
      ensures ok && !modified ==> Cur(ip) == old(Cur(ip))
      ensures ok ==> Open(ip) && b == FileBlock(blocks, ip.entry, q) != 0
      ensures old(FileBlock(blocks, ip.entry, q)) != 0 ==> ok && !modified
      ensures ok <==> old(Need(blocks, ip.entry, q)) <= old(Free())
      ensures ok ==> Free() == old(Free()) - old(Need(blocks, ip.entry, q))
      ensures ok ==> Extends(old(Cur(ip)), Cur(ip), ip.no)
      ensures ok && modified ==> b < |blocks| && blocks[b] == ZeroBlock()
      ensures forall m: nat :: ok && old(Mapped(Cur(ip), ip.no, m)) && q <= m ==>
                Mapped(Cur(ip), ip.no, if q == m then m + 1 else m)
    {
      hide Owned, Extends, SameData, Filled, Grown, Mapped, Free;
      ok, modified := true, false;
      ghost var v, c := Cur(ip), start;
      ExtendsRefl(v, ip.no);
      if q < INODE_NUM_DIRECT {
        b := ip.entry.addrs[q];
      } else {
        if ip.entry.indirect == 0 {
          ok, b := AllocAt(ip, INODE_NUM_DIRECT);
          if !ok {
            return;
          }
          modified := true;
          c := b;
          WordAtZero(q - INODE_NUM_DIRECT);
        }
        RefOwned(Cur(ip), ip.no, INODE_NUM_DIRECT);
        b := WordAt(blocks[ip.entry.indirect], q - INODE_NUM_DIRECT);
      }
      ghost var w := Cur(ip);
      if b == 0 {
        ok, b := AllocAt(ip, PlaceOf(q));
        if !ok {
          return;
        }
        modified := true;
        ExtendsTrans(v, w, Cur(ip), ip.no);
      }
      MapMapped(v, w, Cur(ip), ip.no, q, c, b);
    }

    /** Copies chunk, which fits one block, to offset off, growing the file by at most one block. */
    method WriteChunk(ip: MemInode, off: nat, chunk: seq<byte>, ghost m: nat) returns (ok: bool)
      requires Open(ip) && Mapped(Cur(ip), ip.no, m) && OneBlock(off, |chunk|, m)
      modifies this`bitmap, this`blocks, this`pending, this`owner, ip`entry
      ensures ok <==> BlocksNeeded(m, BlocksWith(off, m)) <= old(Free())
      ensures ok ==> Free() == old(Free()) - BlocksNeeded(m, BlocksWith(off, m))
      ensures ok ==> Open(ip) && ChunkDone(old(Cur(ip)), Cur(ip), ip.no, off, chunk, m) && MetaKept(old(blocks), blocks, start)
    {
      hide Owned, Extends, Mapped, ChunkDone, FreeBelow, Splice, BlocksNeeded, Need, MetaKept;
      ghost var v := Cur(ip);
      var q, o := off / BLOCK_SIZE, off % BLOCK_SIZE;
      NeedIs(v, ip.no, off, |chunk|, m);
      MappedTo(v, ip.no, q, m);
      var b, modified;
      ok, b, modified := Map(ip, q);
      if !ok {
        return;
      }
      ghost var w := Cur(ip);
      ShapeOf(w);
      ChunkWritten(v, w, ip.no, off, chunk, m);
      ExtendsMeta(v, w, ip.no);
      RefOwned(w, ip.no, PlaceOf(q));
      MetaUpdate(blocks, start, b, Splice(blocks[b], o, chunk));
      MetaTrans(v.blocks, w.blocks, blocks[b := Splice(blocks[b], o, chunk)], start);
      blocks := blocks[b := Splice(blocks[b], o, chunk)];
      assert Cur(ip) == Written(w, ip.no, off, chunk);
    }

    /**
     Writes the in-memory entry to disk, or loads it from there.  A write request
     for an entry that is not valid loads it instead.
     */
    method Sync(ip: MemInode, doWrite: bool)
      requires ip.no < |dinodes|
      modifies this`dinodes, ip`entry, ip`valid
      ensures old(ip.valid) && doWrite ==> dinodes == old(dinodes)[ip.no := ip.entry] && ip.entry == old(ip.entry) && ip.valid
      ensures old(ip.valid) && !doWrite ==> dinodes == old(dinodes) && ip.entry == old(ip.entry) && ip.valid
      ensures !old(ip.valid) ==> dinodes == old(dinodes) && ip.entry == dinodes[ip.no] && ip.valid
    {
      if doWrite && ip.valid {
        dinodes := dinodes[ip.no := ip.entry];
      } else if !ip.valid {
        ip.entry := dinodes[ip.no];
        ip.valid := true;
      }
    }

    /** Copies src to offset block by block, adding the blocks that are missing. */
    method WriteBlocks(ip: MemInode, src: seq<byte>, offset: nat) returns (ok: bool, ghost m: nat)
      requires Open(ip) && ip.valid && ip.entry == dinodes[ip.no] && Dense(Cur(ip))
      requires offset <= ip.entry.numBytes && offset + |src| <= INODE_MAX_BYTES
      modifies this`bitmap, this`blocks, this`pending, this`owner, ip`entry
      ensures ok <==> BlocksNeeded(BlocksFor(old(ip.entry.numBytes)), BlocksFor(offset + |src|)) <= old(Free())
      ensures ok ==> Free() == old(Free()) - BlocksNeeded(BlocksFor(old(ip.entry.numBytes)), BlocksFor(offset + |src|))
      ensures ok ==> Open(ip) && Progress(old(Cur(ip)), Cur(ip), ip.no, offset, src, m) && MetaKept(old(blocks), blocks, start)
    {
      hide MetaKept;
      MetaRefl(blocks, start);
      hide Owned, Mapped, Dense, BlocksFor, Progress, ChunkDone, ChunkLength, Aligned, BlocksWith, OneBlock;
      ghost var v, free := Cur(ip), Free();
      var i, off, count := 0, offset, |src|;
      m := BlocksFor(ip.entry.numBytes);
      ghost var m0 := m;
      ProgressStart(v, ip.no, offset);
      assert v.ds[ip.no].numBytes == ip.entry.numBytes;
      assert BlocksNeeded(m0, m0) == 0;
      hide Open, Cur, Free, BlocksNeeded;
      assert src[..0] == [];
      while i < count
        invariant 0 <= i <= count && off == offset + i && Open(ip)
        invariant 0 < i < count ==> Aligned(off)
        invariant Progress(v, Cur(ip), ip.no, offset, src[..i], m) && Free() + BlocksNeeded(m0, m) == free
        invariant MetaKept(v.blocks, blocks, start)
      {
        var cnt := ChunkLength(off, i, count);
        ghost var w := Cur(ip);
        ProgressNext(v, w, ip.no, offset, src, i, cnt, m);
        ProgressNeeds(v, w, ip.no, offset, src, i, cnt, m);
        ghost var blocks1 := blocks;
        ok := WriteChunk(ip, off, src[i..i + cnt], m);
        if !ok {
          return;
        }
        MetaTrans(v.blocks, blocks1, blocks, start);
        ProgressStep(v, w, Cur(ip), ip.no, offset, src, i, cnt, m);
        m := BlocksWith(off, m);
        i := i + cnt;
        off := off + cnt;
      }
      ok := true;
      assert src[..count] == src;
      ProgressNeeded(v, Cur(ip), ip.no, offset, src, m);
    }

    /** A write of n bytes at offset is in range, and there are as many free blocks as the growth needs. */
    ghost predicate Writable(ip: MemInode, offset: nat, n: nat)
      reads this, ip
    {
      && offset <= ip.entry.numBytes && offset + n <= INODE_MAX_BYTES
      && BlocksNeeded(BlocksFor(ip.entry.numBytes), BlocksFor(offset + n)) <= Free()
    }

    /**
     Writes src at offset.  The file becomes the old byte sequence overwritten
     there, and longer if need be; no other inode changes.  It panics exactly when
     the range is out of bounds or there are fewer free blocks than the growth needs.
     A device is the console, which must be device 1, and nothing on the volume changes.
     */
    method Write(ip: MemInode, src: seq<byte>, offset: usize) returns (ok: bool)
      requires Valid() && Loaded(ip) && |src| < USIZE_LIMIT
      modifies this, ip`entry, ip`valid
      ensures ok <==> if old(ip.entry.kind) == INODE_DEVICE then old(ip.entry.major) == CONSOLE else old(Writable(ip, offset, |src|))
      ensures ok ==> Valid() && Loaded(ip) && |dinodes| == |old(dinodes)|
      ensures ok ==> forall j :: 0 <= j < |dinodes| && j != ip.no ==> dinodes[j] == old(dinodes[j])
      ensures ok ==> forall j :: 0 <= j < |dinodes| && j != ip.no && dinodes[j].Live() ==> Content(Vol(), j) == old(Content(Vol(), j))
      ensures ok ==> ip.entry.kind == old(ip.entry.kind) && ip.entry.numLinks == old(ip.entry.numLinks) && ip.entry.major == old(ip.entry.major)
      ensures ok ==> MetaKept(old(blocks), blocks, start)
      ensures ok && ip.entry.kind == INODE_DEVICE ==> Vol() == old(Vol()) && ip.entry == old(ip.entry)
      ensures ok && ip.entry.kind != INODE_DEVICE ==> Content(Vol(), ip.no) == Overwrite(old(Content(Vol(), ip.no)), offset, src)
      ensures ok && ip.entry.kind != INODE_DEVICE ==> ip.entry.numBytes == Max(old(ip.entry.numBytes), offset + |src|)
      ensures ok && ip.entry.kind != INODE_DEVICE ==>
                Free() == old(Free()) - BlocksNeeded(BlocksFor(old(ip.entry.numBytes)), BlocksFor(offset + |src|))
    {
      if ip.entry.kind == INODE_DEVICE {
        return ip.entry.major == CONSOLE;
      }
      ghost var v := Vol();
      assert Cur(ip) == v;
      var end := (offset + |src|) % USIZE_LIMIT;
      if offset > ip.entry.numBytes || end > INODE_MAX_BYTES || offset > end {
        return false;
      }
      ghost var m;
      ok, m := WriteBlocks(ip, src, offset);
      if !ok {
        return;
      }
      ghost var w := Cur(ip);
      assert ip.entry.numBytes >= end ==> m == BlocksFor(v.ds[ip.no].numBytes);
      assert w.ds[ip.no] == v.ds[ip.no].(addrs := ip.entry.addrs, indirect := ip.entry.indirect);
      hide SameData, Filled, Mapped, OthersKept, WriteBytes, ByteAt, Progress, FreeBelow, ScanLimit, BlocksNeeded;
      if ip.entry.numBytes < end {
        ip.entry := ip.entry.(numBytes := end);
        Sync(ip, true);
      }
      WriteDone(v, w, Vol(), ip.no, offset, src, m);
    }

    /**
     Reads up to count bytes at offset.  The result is the stretch of the file that
     is there, nothing past the end; the sum of offset and count must not wrap.  A device
     is the console, which answers the given bytes.
     */
    method Read(ip: MemInode, offset: usize, count: usize, console: seq<byte>) returns (r: ReadResult)
      requires Valid() && Loaded(ip)
      ensures r.ReadPanic? <==> if ip.entry.kind == INODE_DEVICE then ip.entry.major != CONSOLE
                                else offset <= ip.entry.numBytes && offset + count >= USIZE_LIMIT
      ensures ip.entry.kind == INODE_DEVICE && ip.entry.major == CONSOLE ==> r == Bytes(console)
      ensures ip.entry.kind != INODE_DEVICE && offset > ip.entry.numBytes ==> r == Bytes([])
      ensures ip.entry.kind != INODE_DEVICE && offset <= ip.entry.numBytes && offset + count < USIZE_LIMIT ==>
                r == Bytes(Content(Vol(), ip.no)[offset..Min(offset + count, ip.entry.numBytes)])
    {
      hide Owned, Dense, Content;
      ShapeOf(Vol());
      DenseSize(Vol(), ip.no);
      if ip.entry.kind == INODE_DEVICE {
        return if ip.entry.major != CONSOLE then ReadPanic else Bytes(console);
      }
      var n: usize := count;
      if (n + offset) % USIZE_LIMIT > ip.entry.numBytes {
        n := (ip.entry.numBytes - offset) % USIZE_LIMIT;
      }
      var end := (offset + n) % USIZE_LIMIT;
      if offset > ip.entry.numBytes {
        return Bytes([]);
      }
      if end > ip.entry.numBytes || offset > end {
        return ReadPanic;
      }
      var data := ReadBlocks(ip, offset, n);
      r := Bytes(data);
    }

    /** Copies n bytes from offset block by block. */
    method ReadBlocks(ip: MemInode, offset: nat, n: nat) returns (data: seq<byte>)
      requires Valid() && Loaded(ip) && offset + n <= ip.entry.numBytes
      ensures ip.entry.numBytes <= INODE_MAX_BYTES && data == Content(Vol(), ip.no)[offset..offset + n]
    {
      hide Owned, Dense, Content, ChunkLength, Aligned, BlocksFor;
      ghost var v := Vol();
      ShapeOf(v);
      DenseSize(v, ip.no);
      ghost var s := Content(v, ip.no);
      data := [];
      var i, off := 0, offset;
      while i < n
        invariant 0 <= i <= n && off == offset + i && data == s[offset..off]
        invariant 0 < i < n ==> Aligned(off)
      {
        var cnt := ChunkLength(off, i, n);
        ReadStep(offset, i, n, cnt);
        ReadChunk(v, ip.no, off, cnt);
        if ip.entry.indirect != 0 {
          RefOwned(v, ip.no, INODE_NUM_DIRECT);
        }
        var b := Find(ip, off / BLOCK_SIZE);
        var o := off % BLOCK_SIZE;
        data := data + blocks[b][o..o + cnt];
        assert s[offset..off] + s[off..off + cnt] == s[offset..off + cnt];
        i := i + cnt;
        off := off + cnt;
      }
    }

    /** Frees the block that place k of ip refers to, if any, and empties the place. */
    method ClearPlace(ip: MemInode, k: nat)
      requires Open(ip) && k < NUM_SLOTS && (k == INODE_NUM_DIRECT ==> EmptyIn(Cur(ip), ip.no, INODE_NUM_DIRECT + 1, NUM_SLOTS))
      modifies this`bitmap, this`blocks, this`owner, ip`entry
      ensures Open(ip) && Released(old(Cur(ip)), Cur(ip), ip.no) && Ref(blocks, ip.entry, k) == 0
      ensures forall l :: 0 <= l < NUM_SLOTS && l != k ==> Ref(blocks, ip.entry, l) == old(Ref(blocks, ip.entry, l))
      ensures ip.entry.numBytes == old(ip.entry.numBytes) && ip.entry.kind == old(ip.entry.kind)
      ensures MetaKept(old(blocks), blocks, start)
    {
      ghost var v := Cur(ip);
      OthersRefl(v, ip.no);
      MetaRefl(blocks, start);
      hide Owned, OthersKept, MetaKept;
      var b := Ref(blocks, ip.entry, k);
      if b != 0 {
        FreeReleases(v, ip.no, k);
        if k > INODE_NUM_DIRECT {
          RefOwned(v, ip.no, INODE_NUM_DIRECT);
        }
        bitmap := bitmap[b := false];
        owner := owner - {b};
        Store(ip, k, 0);
        assert Cur(ip) == Freed(v, ip.no, k);
      }
    }

    /** Frees every block of ip, the indirect block last. */
    method ClearBlocks(ip: MemInode)
      requires Open(ip)
      modifies this`bitmap, this`blocks, this`owner, ip`entry
      ensures Open(ip) && Released(old(Cur(ip)), Cur(ip), ip.no) && EmptyIn(Cur(ip), ip.no, 0, NUM_SLOTS)
      ensures MetaKept(old(blocks), blocks, start)
    {
      hide Owned, OthersKept, Released, Ref, EmptyIn, MetaKept;
      ghost var v := Cur(ip);
      MetaRefl(blocks, start);
      ReleasedRefl(v, ip.no);
      EmptyNone(v, ip.no, 0);
      var i := 0;
      while i < INODE_NUM_DIRECT
        invariant 0 <= i <= INODE_NUM_DIRECT && Open(ip) && Released(v, Cur(ip), ip.no) && MetaKept(v.blocks, blocks, start)
        invariant EmptyIn(Cur(ip), ip.no, 0, i)
      {
        ghost var w := Cur(ip);
        ClearPlace(ip, i);
        ReleasedTrans(v, w, Cur(ip), ip.no);
        MetaTrans(v.blocks, w.blocks, blocks, start);
        EmptyStep(w, Cur(ip), ip.no, 0, i, i);
        i := i + 1;
      }
      if ip.entry.indirect != 0 {
        i := 0;
        EmptyNone(Cur(ip), ip.no, INODE_NUM_DIRECT + 1);
        while i < INODE_NUM_INDIRECT
          invariant 0 <= i <= INODE_NUM_INDIRECT && Open(ip) && Released(v, Cur(ip), ip.no) && MetaKept(v.blocks, blocks, start)
          invariant EmptyIn(Cur(ip), ip.no, 0, INODE_NUM_DIRECT)
          invariant EmptyIn(Cur(ip), ip.no, INODE_NUM_DIRECT + 1, INODE_NUM_DIRECT + 1 + i)
        {
          ghost var w, k := Cur(ip), INODE_NUM_DIRECT + 1 + i;
          ClearPlace(ip, INODE_NUM_DIRECT + 1 + i);
          ReleasedTrans(v, w, Cur(ip), ip.no);
          MetaTrans(v.blocks, w.blocks, blocks, start);
          EmptyStep(w, Cur(ip), ip.no, 0, INODE_NUM_DIRECT, k);
          EmptyStep(w, Cur(ip), ip.no, INODE_NUM_DIRECT + 1, k, k);
          i := i + 1;
        }
        ghost var w := Cur(ip);
        ClearPlace(ip, INODE_NUM_DIRECT);
        ReleasedTrans(v, w, Cur(ip), ip.no);
        MetaTrans(v.blocks, w.blocks, blocks, start);
        EmptyStep(w, Cur(ip), ip.no, 0, INODE_NUM_DIRECT, INODE_NUM_DIRECT);
        EmptyStep(w, Cur(ip), ip.no, INODE_NUM_DIRECT + 1, NUM_SLOTS, INODE_NUM_DIRECT);
        EmptyJoin(Cur(ip), ip.no);
      } else {
        NoIndirect(Cur(ip), ip.no);
      }
    }

    /**
     Truncates ip to nothing and stores the empty entry.  If the entry was not marked
     valid, the store turns into a load, and what is on disk stays as it was.
     */
    method Clear(ip: MemInode)
      requires Valid() && ip.no < |dinodes| && ip.entry == dinodes[ip.no] && ip.entry.Live()
      modifies this`bitmap, this`blocks, this`owner, this`dinodes, ip`entry, ip`valid
      ensures ip.valid && |dinodes| == |old(dinodes)| && ip.entry == dinodes[ip.no]
      ensures Wiped(old(Vol()), Vol().(ds := dinodes[ip.no := Blank(old(ip.entry))]), ip.no)
      ensures dinodes == if old(ip.valid) then old(dinodes)[ip.no := Blank(old(ip.entry))] else old(dinodes)
      ensures old(ip.valid) ==> Valid() && Loaded(ip) && Content(Vol(), ip.no) == []
      ensures MetaKept(old(blocks), blocks, start)
    {
      ghost var v := Vol();
      assert Cur(ip) == v;
      ClearBlocks(ip);
      ghost var w := Cur(ip);
      AllReleased(v, w, ip.no);
      ip.entry := ip.entry.(numBytes := 0);
      assert ip.entry == Blank(v.ds[ip.no]);
      assert Cur(ip) == w.(ds := w.ds[ip.no := w.ds[ip.no].(numBytes := 0)]);
      hide Owned, Wiped, Dense;
      WipedDense(v, Cur(ip), ip.no);
      Sync(ip, true);
      assert Vol().(ds := dinodes[ip.no := Blank(v.ds[ip.no])]) == w.(ds := w.ds[ip.no := w.ds[ip.no].(numBytes := 0)]);
    }

    /**
     Gives up a reference.  The last one to an inode without links frees its blocks
     and the inode; exactly the bits of its own blocks are cleared.
     */
    method Put(ip: MemInode) returns (freed: bool)
      requires Valid() && ip.rc > 0 && (ip.valid ==> Loaded(ip))
      modifies this`bitmap, this`blocks, this`owner, this`dinodes, ip
      ensures freed <==> old(ip.rc) == 1 && old(ip.entry.numLinks) == 0 && old(ip.valid)
      ensures Valid() && |dinodes| == |old(dinodes)| && MetaKept(old(blocks), blocks, start)
      ensures !freed ==> ip.rc == old(ip.rc) - 1 && Vol() == old(Vol()) && ip.entry == old(ip.entry) && ip.valid == old(ip.valid)
      ensures freed ==> ip.no < |dinodes| && dinodes[ip.no] == old(ip.entry).(kind := INODE_INVALID) && |bitmap| == |old(bitmap)|
      ensures freed ==> forall b :: start <= b < |bitmap| ==>
                (bitmap[b] <==> old(bitmap)[b] && b in old(owner) && old(owner)[b].ino != ip.no)
      ensures forall j :: 0 <= j < |dinodes| && j != ip.no ==> dinodes[j] == old(dinodes[j])
      ensures forall j :: 0 <= j < |dinodes| && j != ip.no && dinodes[j].Live() ==> Content(Vol(), j) == old(Content(Vol(), j))
    {
      freed := ip.rc == 1 && ip.entry.numLinks == 0 && ip.valid;
      if !freed {
        ip.rc := ip.rc - 1;
        return;
      }
      ghost var v := Vol();
      ip.valid := false;
      Clear(ip);
      ghost var w := Vol().(ds := dinodes[ip.no := Blank(v.ds[ip.no])]);
      WipedDense(v, w, ip.no);
      ip.entry := ip.entry.(kind := INODE_INVALID);
      Sync(ip, true);
      assert Vol() == w.(ds := w.ds[ip.no := ip.entry]);
      hide Owned, Wiped, Dense, Released, OthersKept;
      DeadInode(v, w, Vol(), ip.no);
    }

    /** Takes the first free inode but inode 0; panics exactly when there is none. */
    method AllocInode(kind: nat) returns (ok: bool, no: nat)
      requires Valid() && kind != INODE_INVALID
      modifies this`dinodes
      ensures ok <==> exists j :: 1 <= j < |old(dinodes)| && !old(dinodes)[j].Live()
      ensures !ok ==> dinodes == old(dinodes)
      ensures ok ==> 1 <= no < |old(dinodes)| && !old(dinodes)[no].Live() && forall j :: 1 <= j < no ==> old(dinodes)[j].Live()
      ensures ok ==> dinodes == old(dinodes)[no := Dinode(kind, 0, 0, seq(12, _ => 0), 0, 0)]
      ensures ok ==> Valid() && Content(Vol(), no) == []
      ensures ok ==> forall j :: 0 <= j < |dinodes| && j != no && dinodes[j].Live() ==>
                Content(Vol(), j) == old(Content(Vol(), j))
    {
      ghost var v := Vol();
      no := 1;
      while no < |dinodes|
        invariant 1 <= no && (no <= |dinodes| || no == 1) && dinodes == old(dinodes)
        invariant forall j :: 1 <= j < no && j < |dinodes| ==> dinodes[j].Live()
      {
        if !dinodes[no].Live() {
          dinodes := dinodes[no := Dinode(kind, 0, 0, seq(INODE_NUM_DIRECT, _ => 0), 0, 0)];
          FreshInode(v, Vol(), no, kind);
          return true, no;
        }
        no := no + 1;
      }
      ok := false;
    }
  }
}
