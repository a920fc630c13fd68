/**
 The write-ahead log of the block cache: the on-disk header, the device writes
 that commit a group of blocks and check-point it, and recovery at start-up.
 A crash keeps the writes made so far and loses everything in memory.
 */
module Wal {
  import opened Bytes

  const LOG_MAX_SIZE := 63

  type Word = x: nat | x < 0x1_0000_0000_0000_0000

  /** In-memory copy of the log header: only the first num entries are in use. */
  datatype Header = Header(num: Word, blockNo: seq<Word>)

  /** The part of the super block that places the log; numBlocks counts the header. */
  datatype LogArea = LogArea(start: nat, numBlocks: nat) {
    predicate Holds(n: nat) {
      start <= n < start + numBlocks
    }
  }

  datatype DeviceWrite = DeviceWrite(no: nat, data: Block)

  // ----- the header block -----

  function PackWords(ws: seq<Word>): (s: seq<byte>)
    ensures |s| == 8 * |ws|
  {
    if ws == [] then [] else ToLe(8, ws[0]) + PackWords(ws[1..])
  }

  function UnpackWords(s: seq<byte>): (ws: seq<Word>)
    ensures |ws| == |s| / 8
  {
    if |s| < 8 then [] else
      FromLeWord(s[..8]);
      [FromLe(s[..8])] + UnpackWords(s[8..])
  }

  lemma {:induction false} BaseEight()
    ensures Base(8) == 0x1_0000_0000_0000_0000
  {
    assert Base(4) == 0x1_0000_0000;
    assert Base(6) == 0x1_0000_0000_0000;
  }

  lemma {:induction false} FromLeWord(s: seq<byte>)
    requires |s| == 8
    ensures FromLe(s) < 0x1_0000_0000_0000_0000
  {
    FromLeBound(s);
    BaseEight();
  }

  lemma {:induction false} UnpackPacked(ws: seq<Word>)
    ensures UnpackWords(PackWords(ws)) == ws
  {
    if ws != [] {
      BaseEight();
      LeRoundTrip(8, ws[0]);
      UnpackPacked(ws[1..]);
      assert PackWords(ws)[..8] == ToLe(8, ws[0]);
      assert PackWords(ws)[8..] == PackWords(ws[1..]);
    }
  }

  function Encode(h: Header): Block
    requires |h.blockNo| == LOG_MAX_SIZE
  {
    PackWords([h.num] + h.blockNo)
  }

  function Decode(b: Block): (h: Header)
    ensures |h.blockNo| == LOG_MAX_SIZE
  {
    var ws := UnpackWords(b);
    Header(ws[0], ws[1..])
  }

  /** What the device stores for a header is what a later read of it gives back. */
  lemma {:induction false} DecodeEncode(h: Header)
    requires |h.blockNo| == LOG_MAX_SIZE
    ensures Decode(Encode(h)) == h
  {
    UnpackPacked([h.num] + h.blockNo);
  }

  lemma {:induction false} FromLeSplit(s: seq<byte>, n: nat)
    requires n <= |s|
    ensures FromLe(s) == FromLe(s[..n]) + Base(n) * FromLe(s[n..])
  {
    if n == 0 {
      assert s[0..] == s;
    } else {
      FromLeSplit(s[1..], n - 1);
      assert s[1..][..n - 1] == s[..n][1..] && s[1..][n - 1..] == s[n..];
      var x := FromLe(s[n..]);
      assert Base(n) * x == 256 * (Base(n - 1) * x);
    }
  }

  lemma {:induction false} UnpackAt(s: seq<byte>, i: nat)
    requires 8 * i + 8 <= |s|
    ensures i < |UnpackWords(s)| && UnpackWords(s)[i] == FromLe(s[8 * i..8 * i + 8])
    decreases i
  {
    if i > 0 {
      UnpackAt(s[8..], i - 1);
      assert s[8..][8 * (i - 1)..8 * (i - 1) + 8] == s[8 * i..8 * i + 8];
    }
  }

  /** Eight bytes at o are a number, the least significant byte first. */
  lemma {:induction false} EightBytes(b: Block, o: nat)
    requires o + 8 <= 512
    ensures FromLe(b[o..o + 8]) ==
            (b[o] as int) + 0x100 * (b[o + 1] as int) + 0x1_0000 * (b[o + 2] as int) + 0x100_0000 * (b[o + 3] as int)
            + 0x1_0000_0000 * (b[o + 4] as int) + 0x100_0000_0000 * (b[o + 5] as int)
            + 0x1_0000_0000_0000 * (b[o + 6] as int) + 0x100_0000_0000_0000 * (b[o + 7] as int)
  {
    var s := b[o..o + 8];
    FromLeSplit(s, 4);
    FromLeFour(s[..4]);
    FromLeFour(s[4..]);
    assert Base(4) == 0x1_0000_0000;
    assert s[4..][0] == b[o + 4] && s[4..][1] == b[o + 5] && s[4..][2] == b[o + 6] && s[4..][3] == b[o + 7];
  }

  /** The header block: the count in bytes 0 to 7, and block number i in the eight bytes at 8 + 8i. */
  lemma {:induction false} DecodeBytes(b: Block, i: nat)
    requires i < 63
    ensures Decode(b).num ==
            (b[0] as int) + 0x100 * (b[1] as int) + 0x1_0000 * (b[2] as int) + 0x100_0000 * (b[3] as int)
            + 0x1_0000_0000 * (b[4] as int) + 0x100_0000_0000 * (b[5] as int)
            + 0x1_0000_0000_0000 * (b[6] as int) + 0x100_0000_0000_0000 * (b[7] as int)
    ensures var o := 8 + 8 * i;
            Decode(b).blockNo[i] ==
            (b[o] as int) + 0x100 * (b[o + 1] as int) + 0x1_0000 * (b[o + 2] as int) + 0x100_0000 * (b[o + 3] as int)
            + 0x1_0000_0000 * (b[o + 4] as int) + 0x100_0000_0000 * (b[o + 5] as int)
            + 0x1_0000_0000_0000 * (b[o + 6] as int) + 0x100_0000_0000_0000 * (b[o + 7] as int)
  {
    hide FromLe;
    UnpackAt(b, 0);
    UnpackAt(b, i + 1);
    EightBytes(b, 0);
    EightBytes(b, 8 + 8 * i);
  }

  lemma {:induction false} PackAt(ws: seq<Word>, i: nat)
    requires i < |ws|
    ensures PackWords(ws)[8 * i..8 * i + 8] == ToLe(8, ws[i])
    decreases i
  {
    hide ToLe;
    var s := PackWords(ws);
    if i == 0 {
      assert s[..8] == ToLe(8, ws[0]) && s[0..8] == s[..8];
    } else {
      PackAt(ws[1..], i - 1);
      assert s[8..] == PackWords(ws[1..]);
      assert s[8..][8 * (i - 1)..8 * (i - 1) + 8] == s[8 * i..8 * i + 8];
    }
  }

  /** What is stored for a header: byte j of the count at j, and byte j of block number i at 8 + 8i + j. */
  lemma {:induction false} EncodeBytes(h: Header, i: nat, j: nat)
    requires |h.blockNo| == LOG_MAX_SIZE && i < 63 && j < 8
    ensures Encode(h)[j] == h.num / Base(j) % 256 && Encode(h)[8 + 8 * i + j] == h.blockNo[i] / Base(j) % 256
  {
    hide ToLe, Base;
    var ws := [h.num] + h.blockNo;
    var b := Encode(h);
    PackAt(ws, 0);
    PackAt(ws, i + 1);
    LeByte(8, h.num, j);
    LeByte(8, h.blockNo[i], j);
    assert b[0..8][j] == b[j] && b[8 * (i + 1)..8 * (i + 1) + 8][j] == b[8 + 8 * i + j];
  }

  lemma {:induction false} Bases()
    ensures Base(0) == 1 && Base(1) == 0x100 && Base(2) == 0x1_0000 && Base(3) == 0x100_0000
    ensures Base(4) == 0x1_0000_0000 && Base(5) == 0x100_0000_0000 && Base(6) == 0x1_0000_0000_0000 && Base(7) == 0x100_0000_0000_0000
  {
    assert Base(2) == 256 * Base(1);
    assert Base(4) == 256 * Base(3);
    assert Base(6) == 256 * Base(5);
  }

  // ----- disks and device writes -----

  type Disk = seq<Block>

  ghost predicate InRange(ws: seq<DeviceWrite>, size: nat) {
    forall i :: 0 <= i < |ws| ==> ws[i].no < size
  }

  /** The disk after the given device writes, oldest first. */
  ghost function Apply(d: Disk, ws: seq<DeviceWrite>): (r: Disk)
    requires InRange(ws, |d|)
    ensures |r| == |d|
  {
    if ws == [] then d
    else Apply(d, ws[..|ws| - 1])[ws[|ws| - 1].no := ws[|ws| - 1].data]
  }

  ghost predicate Writes(ws: seq<DeviceWrite>, n: nat) {
    exists i :: 0 <= i < |ws| && ws[i].no == n
  }

  lemma {:induction false} ApplyAppend(d: Disk, ws: seq<DeviceWrite>, more: seq<DeviceWrite>)
    requires InRange(ws, |d|) && InRange(more, |d|)
    ensures InRange(ws + more, |d|)
    ensures Apply(d, ws + more) == Apply(Apply(d, ws), more)
  {
    if more == [] {
      assert ws + more == ws;
    } else {
      var k := |more| - 1;
      ApplyAppend(d, ws, more[..k]);
      assert (ws + more)[..|ws| + k] == ws + more[..k];
    }
  }

  lemma {:induction false} ApplyUntouched(d: Disk, ws: seq<DeviceWrite>, n: nat)
    requires InRange(ws, |d|) && n < |d| && !Writes(ws, n)
    ensures Apply(d, ws)[n] == d[n]
  {
    if ws != [] {
      var k := |ws| - 1;
      assert ws[k].no != n;
      forall i | 0 <= i < k ensures ws[..k][i].no != n { assert ws[i].no != n; }
      ApplyUntouched(d, ws[..k], n);
    }
  }

  /** A block that is written ends up the same whatever the disk held before. */
  lemma {:induction false} ApplyTouched(d: Disk, e: Disk, ws: seq<DeviceWrite>, n: nat)
    requires |d| == |e| && InRange(ws, |d|) && n < |d| && Writes(ws, n)
    ensures Apply(d, ws)[n] == Apply(e, ws)[n]
  {
    var k := |ws| - 1;
    if ws[k].no != n {
      var i :| 0 <= i < |ws| && ws[i].no == n;
      assert ws[..k][i].no == n;
      ApplyTouched(d, e, ws[..k], n);
    }
  }

  lemma {:induction false} ApplyDistinct(d: Disk, ws: seq<DeviceWrite>, i: nat)
    requires InRange(ws, |d|) && i < |ws|
    requires forall j :: i < j < |ws| ==> ws[j].no != ws[i].no
    ensures Apply(d, ws)[ws[i].no] == ws[i].data
  {
    var k := |ws| - 1;
    if i < k {
      assert ws[..k][i] == ws[i];
      ApplyDistinct(d, ws[..k], i);
    }
  }

  // ----- the blocks outside the log -----

  /** The two disks agree on every block outside the log area. */
  ghost predicate HomeEq(a: LogArea, d: Disk, e: Disk) {
    |d| == |e| && forall n :: 0 <= n < |d| && !a.Holds(n) ==> d[n] == e[n]
  }

  lemma {:induction false} ApplyHomeEq(a: LogArea, d: Disk, e: Disk, ws: seq<DeviceWrite>)
    requires HomeEq(a, d, e) && InRange(ws, |d|)
    ensures HomeEq(a, Apply(d, ws), Apply(e, ws))
  {
    forall n | 0 <= n < |d| && !a.Holds(n) ensures Apply(d, ws)[n] == Apply(e, ws)[n] {
      if Writes(ws, n) {
        ApplyTouched(d, e, ws, n);
      } else {
        ApplyUntouched(d, ws, n);
        ApplyUntouched(e, ws, n);
      }
    }
  }

  /** Applying a group again after any of its writes gives the group's result. */
  lemma {:induction false} ApplyAbsorbs(d: Disk, ws: seq<DeviceWrite>, j: nat)
    requires InRange(ws, |d|) && j <= |ws|
    ensures Apply(Apply(d, ws[..j]), ws) == Apply(d, ws)
  {
    var e := Apply(d, ws[..j]);
    forall n | 0 <= n < |d| ensures Apply(e, ws)[n] == Apply(d, ws)[n] {
      if Writes(ws, n) {
        ApplyTouched(e, d, ws, n);
      } else {
        forall i | 0 <= i < j ensures ws[..j][i].no != n { assert ws[i].no != n; }
        ApplyUntouched(d, ws[..j], n);
        ApplyUntouched(e, ws, n);
        ApplyUntouched(d, ws, n);
      }
    }
  }

  // ----- commit and recovery -----

  /** A group of blocks to commit: header h lists their home numbers in order. */
  ghost predicate GroupOk(a: LogArea, size: nat, h: Header, g: seq<DeviceWrite>) {
    && |h.blockNo| == LOG_MAX_SIZE && h.num == |g| && |g| <= LOG_MAX_SIZE
    && |g| + 1 <= a.numBlocks && a.start + a.numBlocks <= size
    && forall i :: 0 <= i < |g| ==>
         g[i].no == h.blockNo[i] && g[i].no < size && !a.Holds(g[i].no)
  }

  /** The disk's own header is well formed and its entries lie outside the log. */
  ghost predicate HeaderOk(a: LogArea, d: Disk) {
    && a.start + a.numBlocks <= |d| && a.numBlocks > 0
    && var h := Decode(d[a.start]);
    && h.num <= LOG_MAX_SIZE && h.num + 1 <= a.numBlocks
    && forall i :: 0 <= i < h.num ==> h.blockNo[i] < |d| && !a.Holds(h.blockNo[i])
  }

  ghost function LogWrites(a: LogArea, g: seq<DeviceWrite>): seq<DeviceWrite> {
    seq(|g|, i requires 0 <= i < |g| => DeviceWrite(a.start + 1 + i, g[i].data))
  }

  ghost function HeaderWrite(a: LogArea, h: Header): DeviceWrite
    requires |h.blockNo| == LOG_MAX_SIZE
  {
    DeviceWrite(a.start, Encode(h))
  }

  /** Every device write of a commit: log, header, home blocks, emptied header. */
  ghost function CommitWrites(a: LogArea, h: Header, g: seq<DeviceWrite>): seq<DeviceWrite>
    requires |h.blockNo| == LOG_MAX_SIZE
  {
    LogWrites(a, g) + [HeaderWrite(a, h)] + g + [HeaderWrite(a, h.(num := 0))]
  }

  /** The group that the disk's own log describes. */
  ghost function LoggedGroup(a: LogArea, d: Disk): seq<DeviceWrite>
    requires HeaderOk(a, d)
  {
    var h := Decode(d[a.start]);
    seq(h.num, i requires 0 <= i < h.num => DeviceWrite(h.blockNo[i], d[a.start + 1 + i]))
  }

  /** Every device write of recovery: the logged home blocks, then an emptied header. */
  ghost function RecoveryWrites(a: LogArea, d: Disk): seq<DeviceWrite>
    requires HeaderOk(a, d)
  {
    LoggedGroup(a, d) + [HeaderWrite(a, Decode(d[a.start]).(num := 0))]
  }

  /** A start-up that is cut off after some of recovery's writes. */
  ghost function PartialRecovery(a: LogArea, d: Disk, cut: nat): (r: Disk)
    requires HeaderOk(a, d)
    ensures |r| == |d|
  {
    var ws := RecoveryWrites(a, d);
    Apply(d, ws[..if cut < |ws| then cut else |ws|])
  }

  /** Start-ups that crash after the given numbers of writes, then one that completes. */
  ghost predicate Restarts(a: LogArea, d: Disk, cuts: seq<nat>, r: Disk)
    decreases |cuts|
  {
    && HeaderOk(a, d)
    && if cuts == [] then r == Apply(d, RecoveryWrites(a, d))
       else Restarts(a, PartialRecovery(a, d, cuts[0]), cuts[1..], r)
  }

  /** No group is in the log. */
  ghost predicate Quiet(a: LogArea, d: Disk) {
    HeaderOk(a, d) && Decode(d[a.start]).num == 0
  }

  /** After any number of writes, recovery can start again and has the same goal. */
  lemma {:induction false} PartialRecoveryKeepsGoal(a: LogArea, d: Disk, j: nat)
    requires HeaderOk(a, d) && j <= |LoggedGroup(a, d)|
    ensures var e := Apply(d, RecoveryWrites(a, d)[..j]);
            HeaderOk(a, e) && LoggedGroup(a, e) == LoggedGroup(a, d)
            && Apply(e, LoggedGroup(a, e)) == Apply(d, LoggedGroup(a, d))
  {
    hide Encode, Decode;
    var g := LoggedGroup(a, d);
    assert RecoveryWrites(a, d)[..j] == g[..j];
    var e := Apply(d, g[..j]);
    forall n | a.start <= n <= a.start + |g| ensures e[n] == d[n] {
      ApplyUntouched(d, g[..j], n);
    }
    assert LoggedGroup(a, e) == g;
    ApplyAbsorbs(d, g, j);
  }

  lemma {:induction false} FullRecovery(a: LogArea, d: Disk)
    requires HeaderOk(a, d)
    ensures var e := Apply(d, RecoveryWrites(a, d));
            Quiet(a, e) && HomeEq(a, e, Apply(d, LoggedGroup(a, d)))
  {
    hide Encode, Decode;
    var h := Decode(d[a.start]).(num := 0);
    ApplyAppend(d, LoggedGroup(a, d), [HeaderWrite(a, h)]);
    DecodeEncode(h);
    assert [HeaderWrite(a, h)][..0] == [];
  }

  /** However often start-up crashes, the completed one installs the logged group. */
  lemma {:induction false} RestartsInstallGroup(a: LogArea, d: Disk, cuts: seq<nat>, r: Disk)
    requires Restarts(a, d, cuts, r)
    ensures Quiet(a, r) && HomeEq(a, r, Apply(d, LoggedGroup(a, d)))
    decreases |cuts|
  {
    hide Encode, Decode;
    if cuts == [] {
      FullRecovery(a, d);
    } else {
      var n := |LoggedGroup(a, d)|;
      var e := PartialRecovery(a, d, cuts[0]);
      RestartsInstallGroup(a, e, cuts[1..], r);
      var ws := RecoveryWrites(a, d);
      if cuts[0] <= n {
        PartialRecoveryKeepsGoal(a, d, cuts[0]);
      } else {
        assert ws[..|ws|] == ws;
        FullRecovery(a, d);
      }
    }
  }

  /** From a well-formed disk start-up always has a run, however it is cut. */
  lemma {:induction false} RestartsExists(a: LogArea, d: Disk, cuts: seq<nat>) returns (r: Disk)
    requires HeaderOk(a, d)
    ensures Restarts(a, d, cuts, r)
    decreases |cuts|
  {
    hide Encode, Decode;
    if cuts == [] {
      r := Apply(d, RecoveryWrites(a, d));
    } else {
      var ws := RecoveryWrites(a, d);
      if cuts[0] < |ws| {
        PartialRecoveryKeepsGoal(a, d, cuts[0]);
      } else {
        assert ws[..|ws|] == ws;
        FullRecovery(a, d);
      }
      r := RestartsExists(a, PartialRecovery(a, d, cuts[0]), cuts[1..]);
    }
  }

  // ----- a crash at any point of a commit -----

  ghost predicate GroupFor(a: LogArea, d: Disk, h: Header, g: seq<DeviceWrite>) {
    Quiet(a, d) && GroupOk(a, |d|, h, g)
  }

  /** While only the log slots are being filled, nothing outside the log changes. */
  lemma {:induction false} CrashWhileLogging(a: LogArea, d: Disk, h: Header, g: seq<DeviceWrite>, k: nat)
    requires GroupFor(a, d, h, g) && k <= |g|
    ensures var e := Apply(d, CommitWrites(a, h, g)[..k]);
            Quiet(a, e) && HomeEq(a, e, d)
  {
    hide Encode, Decode;
    var ws := LogWrites(a, g)[..k];
    assert CommitWrites(a, h, g)[..k] == ws;
    var e := Apply(d, ws);
    forall n | 0 <= n < |d| && (n == a.start || !a.Holds(n)) ensures e[n] == d[n] {
      ApplyUntouched(d, ws, n);
    }
  }

  lemma {:induction false} LogSlotFilled(a: LogArea, d: Disk, g: seq<DeviceWrite>, i: nat)
    requires a.start + |g| < |d| && i < |g|
    ensures InRange(LogWrites(a, g), |d|)
    ensures Apply(d, LogWrites(a, g))[a.start + 1 + i] == g[i].data
  {
    var lw := LogWrites(a, g);
    ApplyDistinct(d, lw, i);
    assert lw[i].no == a.start + 1 + i;
  }

  lemma {:induction false} LogThenHeader(a: LogArea, d: Disk, h: Header, g: seq<DeviceWrite>) returns (e: Disk)
    requires GroupFor(a, d, h, g)
    ensures InRange(LogWrites(a, g) + [HeaderWrite(a, h)], |d|)
    ensures e == Apply(d, LogWrites(a, g) + [HeaderWrite(a, h)])
    ensures HomeEq(a, e, d) && e[a.start] == Encode(h)
    ensures forall i :: 0 <= i < |g| ==> e[a.start + 1 + i] == g[i].data
  {
    hide Encode, Decode;
    var hw := [HeaderWrite(a, h)];
    var mid := Apply(d, LogWrites(a, g));
    assert HomeEq(a, mid, d) by {
      assert CommitWrites(a, h, g)[..|g|] == LogWrites(a, g);
      CrashWhileLogging(a, d, h, g, |g|);
    }
    ApplyAppend(d, LogWrites(a, g), hw);
    assert hw[..0] == [];
    e := mid[a.start := Encode(h)];
    forall i | 0 <= i < |g| ensures e[a.start + 1 + i] == g[i].data {
      LogSlotFilled(a, d, g, i);
    }
  }

  /** Once the header is on disk the log describes exactly the group. */
  lemma {:induction false} HeaderSealsGroup(a: LogArea, d: Disk, h: Header, g: seq<DeviceWrite>)
    requires GroupFor(a, d, h, g)
    ensures InRange(LogWrites(a, g) + [HeaderWrite(a, h)], |d|)
    ensures var e := Apply(d, LogWrites(a, g) + [HeaderWrite(a, h)]);
            HeaderOk(a, e) && LoggedGroup(a, e) == g && HomeEq(a, e, d)
  {
    hide Encode, Decode;
    var lw := LogWrites(a, g);
    ApplyAppend(d, lw, [HeaderWrite(a, h)]);
    var e := LogThenHeader(a, d, h, g);
    DecodeEncode(h);
    assert LoggedGroup(a, e) == g;
  }

  /** After the header write a commit does what recovery from that disk would do. */
  lemma {:induction false} SealedThenRecovered(a: LogArea, d: Disk, h: Header, g: seq<DeviceWrite>)
    requires GroupFor(a, d, h, g)
    ensures var head := LogWrites(a, g) + [HeaderWrite(a, h)];
            && InRange(head, |d|) && HeaderOk(a, Apply(d, head)) && Decode(Apply(d, head)[a.start]) == h
            && LoggedGroup(a, Apply(d, head)) == g && HomeEq(a, Apply(d, head), d)
            && CommitWrites(a, h, g) == head + RecoveryWrites(a, Apply(d, head))
  {
    hide Encode, Decode;
    var head := LogWrites(a, g) + [HeaderWrite(a, h)];
    HeaderSealsGroup(a, d, h, g);
    DecodeEncode(h);
    ApplyDistinct(d, head, |g|);
  }

  /** From the header write on, the log holds the whole group or is already emptied. */
  lemma {:induction false} CrashAfterHeader(a: LogArea, d: Disk, h: Header, g: seq<DeviceWrite>, k: nat)
    requires GroupFor(a, d, h, g) && |g| < k <= |CommitWrites(a, h, g)|
    ensures var e := Apply(d, CommitWrites(a, h, g)[..k]);
            HeaderOk(a, e) && HomeEq(a, Apply(e, LoggedGroup(a, e)), Apply(d, g))
  {
    hide Encode, Decode;
    var head := LogWrites(a, g) + [HeaderWrite(a, h)];
    SealedThenRecovered(a, d, h, g);
    var sealed := Apply(d, head);
    var ws := RecoveryWrites(a, sealed);
    var j := k - |head|;
    assert CommitWrites(a, h, g)[..k] == head + ws[..j];
    ApplyAppend(d, head, ws[..j]);
    ApplyHomeEq(a, sealed, d, g);
    if j <= |g| {
      PartialRecoveryKeepsGoal(a, sealed, j);
    } else {
      assert ws[..j] == ws;
      FullRecovery(a, sealed);
    }
  }

  /**
   Crash atomicity.  Cut a commit after any number k of its device writes, crash
   any number of start-ups, then let one complete: the log is empty and the home
   blocks are all as before the commit, or all as after it; they are new exactly
   when the header write was made.
   */
  lemma {:induction false} CrashAtomicity(a: LogArea, d: Disk, h: Header, g: seq<DeviceWrite>, k: nat, cuts: seq<nat>, r: Disk)
    requires GroupFor(a, d, h, g) && k <= |CommitWrites(a, h, g)|
    requires Restarts(a, Apply(d, CommitWrites(a, h, g)[..k]), cuts, r)
    ensures Quiet(a, r)
    ensures HomeEq(a, r, if k <= |g| then d else Apply(d, g))
  {
    hide Encode, Decode;
    RestartsInstallGroup(a, Apply(d, CommitWrites(a, h, g)[..k]), cuts, r);
    if k <= |g| {
      CrashWhileLogging(a, d, h, g, k);
    } else {
      CrashAfterHeader(a, d, h, g, k);
    }
  }

  /** A commit that is not interrupted installs the group and empties the log. */
  lemma {:induction false} CommitInstalls(a: LogArea, d: Disk, h: Header, g: seq<DeviceWrite>)
    requires GroupFor(a, d, h, g)
    ensures var e := Apply(d, CommitWrites(a, h, g));
            Quiet(a, e) && HomeEq(a, e, Apply(d, g))
  {
    hide Encode, Decode;
    var ws := CommitWrites(a, h, g);
    assert ws[..|ws|] == ws;
    CrashAfterHeader(a, d, h, g, |ws|);
    var e := Apply(d, ws);
    assert ws[|ws| - 1] == HeaderWrite(a, h.(num := 0));
    DecodeEncode(h.(num := 0));
  }

  // ----- whole histories -----

  /**
   One group: committed without interruption, or cut by a crash after k device
   writes, followed by crashed start-ups and a completed one that leaves disk end.
   */
  datatype Event =
    | Committed(h: Header, g: seq<DeviceWrite>)
    | Crashed(h: Header, g: seq<DeviceWrite>, k: nat, cuts: seq<nat>)

  ghost predicate Step(a: LogArea, d: Disk, ev: Event, e: Disk) {
    && GroupOk(a, |d|, ev.h, ev.g)
    && match ev
       case Committed(h, g) => e == Apply(d, CommitWrites(a, h, g))
       case Crashed(h, g, k, cuts) =>
         && k <= |CommitWrites(a, h, g)|
         && Restarts(a, Apply(d, CommitWrites(a, h, g)[..k]), cuts, e)
  }

  /** disks[i] is the disk before event i. */
  ghost predicate History(a: LogArea, disks: seq<Disk>, evs: seq<Event>) {
    && |disks| == |evs| + 1
    && forall i :: 0 <= i < |evs| ==> Step(a, disks[i], evs[i], disks[i + 1])
  }

  /** The home writes of the groups whose header reached the disk, in order. */
  ghost function Survivors(evs: seq<Event>): seq<DeviceWrite> {
    if evs == [] then []
    else
      var ev := evs[|evs| - 1];
      Survivors(evs[..|evs| - 1]) + if ev.Crashed? && ev.k <= |ev.g| then [] else ev.g
  }

  /**
   Over every history of commits and crashes, the disk outside the log is the
   first disk with the surviving groups applied whole and in order.
   */
  lemma {:induction false} HistoryIsAtomic(a: LogArea, disks: seq<Disk>, evs: seq<Event>)
    requires History(a, disks, evs) && Quiet(a, disks[0])
    ensures Quiet(a, disks[|evs|]) && |disks[|evs|]| == |disks[0]|
    ensures InRange(Survivors(evs), |disks[0]|)
    ensures HomeEq(a, disks[|evs|], Apply(disks[0], Survivors(evs)))
  {
    hide Encode, Decode;
    if evs != [] {
      var n := |evs| - 1;
      var ev := evs[n];
      var d := disks[n];
      HistoryIsAtomic(a, disks[..n + 1], evs[..n]);
      assert Step(a, d, ev, disks[n + 1]);
      var before := Apply(disks[0], Survivors(evs[..n]));
      if ev.Crashed? {
        CrashAtomicity(a, d, ev.h, ev.g, ev.k, ev.cuts, disks[n + 1]);
      } else {
        CommitInstalls(a, d, ev.h, ev.g);
      }
      if !(ev.Crashed? && ev.k <= |ev.g|) {
        ApplyAppend(disks[0], Survivors(evs[..n]), ev.g);
        ApplyHomeEq(a, d, before, ev.g);
      } else {
        assert Survivors(evs) == Survivors(evs[..n]);
      }
    }
  }

  // ----- groups that do not fit the log area -----

  // ----- groups of any size -----

  /** All slots and home blocks of a header are blocks of the device. */
  ghost predicate Reaches(a: LogArea, size: nat, h: Header) {
    && |h.blockNo| == LOG_MAX_SIZE && h.num <= LOG_MAX_SIZE && a.start + h.num < size
    && forall i :: 0 <= i < h.num ==> h.blockNo[i] < size
  }

  /** The first n writes that replay a log: each slot is read when its turn comes. */
  ghost function ReplayWrites(a: LogArea, d: Disk, h: Header, n: nat): (ws: seq<DeviceWrite>)
    requires Reaches(a, |d|, h) && n <= h.num
    ensures |ws| == n && InRange(ws, |d|)
  {
    if n == 0 then []
    else
      var ws := ReplayWrites(a, d, h, n - 1);
      ws + [DeviceWrite(h.blockNo[n - 1], Apply(d, ws)[a.start + n])]
  }

  lemma {:induction false} ReplayNext(a: LogArea, d: Disk, h: Header, n: nat)
    requires Reaches(a, |d|, h) && n < h.num
    ensures var ws := ReplayWrites(a, d, h, n); var w := DeviceWrite(h.blockNo[n], Apply(d, ws)[a.start + 1 + n]);
            ReplayWrites(a, d, h, n + 1) == ws + [w] && Apply(d, ws + [w]) == Apply(d, ws)[w.no := w.data]
  {
    hide ReplayWrites, Apply;
    var ws := ReplayWrites(a, d, h, n);
    var w := DeviceWrite(h.blockNo[n], Apply(d, ws)[a.start + 1 + n]);
    OneWrite(d, ws, w);
    UnfoldReplay(a, d, h, n);
  }

  lemma {:induction false} UnfoldReplay(a: LogArea, d: Disk, h: Header, n: nat)
    requires Reaches(a, |d|, h) && n < h.num
    ensures var ws := ReplayWrites(a, d, h, n);
            ReplayWrites(a, d, h, n + 1) == ws + [DeviceWrite(h.blockNo[n], Apply(d, ws)[a.start + 1 + n])]
  {
    hide Apply;
  }

  lemma {:induction false} OneWrite(d: Disk, ws: seq<DeviceWrite>, w: DeviceWrite)
    requires InRange(ws, |d|) && w.no < |d|
    ensures InRange(ws + [w], |d|) && Apply(d, ws + [w]) == Apply(d, ws)[w.no := w.data]
  {
    assert (ws + [w])[..|ws|] == ws;
  }

  /** The writes of a recovery, whatever the size of the group in the log. */
  ghost function CheckWrites(a: LogArea, d: Disk): (ws: seq<DeviceWrite>)
    requires a.start < |d| && Reaches(a, |d|, Decode(d[a.start]))
    ensures InRange(ws, |d|)
  {
    var h := Decode(d[a.start]);
    ReplayWrites(a, d, h, h.num) + [HeaderWrite(a, h.(num := 0))]
  }

  lemma {:induction false} HeaderReaches(a: LogArea, d: Disk)
    requires HeaderOk(a, d)
    ensures a.start < |d| && Reaches(a, |d|, Decode(d[a.start])) && |LoggedGroup(a, d)| == Decode(d[a.start]).num
  {
    hide Decode;
  }

  /** In a well-formed log no home block is a slot, so replaying installs what is in the log. */
  lemma {:induction false} ReplayIsGroup(a: LogArea, d: Disk, n: nat)
    requires HeaderOk(a, d) && n <= Decode(d[a.start]).num
    ensures Reaches(a, |d|, Decode(d[a.start])) && |LoggedGroup(a, d)| == Decode(d[a.start]).num
    ensures ReplayWrites(a, d, Decode(d[a.start]), n) == LoggedGroup(a, d)[..n]
  {
    hide Decode, Apply, Reaches;
    HeaderReaches(a, d);
    if n > 0 {
      ReplayIsGroup(a, d, n - 1);
      UnfoldReplay(a, d, Decode(d[a.start]), n - 1);
      hide ReplayWrites;
      var g := LoggedGroup(a, d);
      SlotUnchanged(a, d, n - 1);
      assert g[..n] == g[..n - 1] + [g[n - 1]];
    }
  }

  /** Installing the first blocks of a well-formed log leaves the slot of the next alone. */
  lemma {:induction false} SlotUnchanged(a: LogArea, d: Disk, n: nat)
    requires HeaderOk(a, d) && n < |LoggedGroup(a, d)|
    ensures var g := LoggedGroup(a, d);
            InRange(g[..n], |d|) && Apply(d, g[..n])[a.start + 1 + n] == g[n].data && g[n].no == Decode(d[a.start]).blockNo[n]
  {
    hide Decode;
    ApplyUntouched(d, LoggedGroup(a, d)[..n], a.start + 1 + n);
  }

  lemma {:induction false} CheckIsRecovery(a: LogArea, d: Disk)
    requires HeaderOk(a, d)
    ensures a.start < |d| && Reaches(a, |d|, Decode(d[a.start])) && CheckWrites(a, d) == RecoveryWrites(a, d)
  {
    hide Decode, Encode;
    var g := LoggedGroup(a, d);
    ReplayIsGroup(a, d, |g|);
    assert g[..|g|] == g;
  }

  /** The writes up to the header of a commit. */
  ghost function HeadWrites(a: LogArea, h: Header, g: seq<DeviceWrite>): seq<DeviceWrite>
    requires |h.blockNo| == LOG_MAX_SIZE
  {
    LogWrites(a, g) + [HeaderWrite(a, h)]
  }

  lemma {:induction false} HeadSeals(a: LogArea, d: Disk, h: Header, g: seq<DeviceWrite>)
    requires Reaches(a, |d|, h) && |g| == h.num
    ensures InRange(HeadWrites(a, h, g), |d|) && Decode(Apply(d, HeadWrites(a, h, g))[a.start]) == h
  {
    hide Decode, Encode;
    var head := HeadWrites(a, h, g);
    assert head[..|g|] == LogWrites(a, g) && head[|g|] == HeaderWrite(a, h);
    DecodeEncode(h);
  }

  /** All the writes of a commit, whatever the size of the group. */
  ghost function CommitTrace(a: LogArea, d: Disk, h: Header, g: seq<DeviceWrite>): (ws: seq<DeviceWrite>)
    requires Reaches(a, |d|, h) && |g| == h.num
    ensures InRange(ws, |d|)
  {
    HeadSeals(a, d, h, g);
    HeadWrites(a, h, g) + CheckWrites(a, Apply(d, HeadWrites(a, h, g)))
  }

  lemma {:induction false} TraceIsCommit(a: LogArea, d: Disk, h: Header, g: seq<DeviceWrite>)
    requires GroupFor(a, d, h, g)
    ensures Reaches(a, |d|, h) && CommitTrace(a, d, h, g) == CommitWrites(a, h, g)
  {
    hide Decode, Encode;
    SealedThenRecovered(a, d, h, g);
    CheckIsRecovery(a, Apply(d, HeadWrites(a, h, g)));
  }

  /**
   The writes of a commit one by one: the blocks to the slots after the header, the header,
   the blocks to their homes, and a header with count 0.
   */
  lemma {:induction false} CommitLayout(a: LogArea, d: Disk, h: Header, g: seq<DeviceWrite>)
    requires Reaches(a, |d|, h) && |g| == h.num
    ensures var ws, n := CommitTrace(a, d, h, g), |g|;
            && |ws| == 2 * n + 2
            && (forall i :: 0 <= i < n ==> ws[i] == DeviceWrite(a.start + 1 + i, g[i].data))
            && ws[n].no == a.start && Decode(ws[n].data) == h
            && (forall i :: 0 <= i < n ==> ws[n + 1 + i].no == h.blockNo[i] && (GroupFor(a, d, h, g) ==> ws[n + 1 + i] == g[i]))
            && ws[2 * n + 1].no == a.start && Decode(ws[2 * n + 1].data) == h.(num := 0)
  {
    hide Decode, Encode, ReplayWrites, Apply;
    HeadSeals(a, d, h, g);
    DecodeEncode(h);
    DecodeEncode(h.(num := 0));
    var ws, n, e := CommitTrace(a, d, h, g), |g|, Apply(d, HeadWrites(a, h, g));
    assert forall i :: 0 <= i < n ==> ws[i] == LogWrites(a, g)[i];
    forall i | 0 <= i < n ensures ws[n + 1 + i].no == h.blockNo[i] {
      ReplayNo(a, e, h, h.num, i);
      assert ws[n + 1 + i] == ReplayWrites(a, e, h, h.num)[i];
    }
    if GroupFor(a, d, h, g) {
      TraceIsCommit(a, d, h, g);
      assert forall i :: 0 <= i < n ==> CommitWrites(a, h, g)[n + 1 + i] == g[i];
    }
  }

  lemma {:induction false} ReplayNo(a: LogArea, d: Disk, h: Header, n: nat, i: nat)
    requires Reaches(a, |d|, h) && i < n <= h.num
    ensures ReplayWrites(a, d, h, n)[i].no == h.blockNo[i]
  {
    UnfoldReplay(a, d, h, n - 1);
    hide ReplayWrites, Apply;
    if i < n - 1 {
      ReplayNo(a, d, h, n - 1, i);
    }
  }

  /** A commit of a group of any size ends with an empty log. */
  lemma {:induction false} CommitQuiets(a: LogArea, d: Disk, h: Header, g: seq<DeviceWrite>)
    requires Reaches(a, |d|, h) && |g| == h.num && Quiet(a, d)
    ensures Quiet(a, Apply(d, CommitTrace(a, d, h, g)))
  {
    hide Decode, Encode;
    HeadSeals(a, d, h, g);
    var ws := CommitTrace(a, d, h, g);
    assert ws[|ws| - 1] == HeaderWrite(a, h.(num := 0));
    DecodeEncode(h.(num := 0));
  }

  /** The log writes of a group stay inside the log area exactly if the group is smaller than it. */
  lemma {:induction false} LogStaysInside(a: LogArea, g: seq<DeviceWrite>)
    requires a.numBlocks > 0
    ensures (forall w :: w in LogWrites(a, g) ==> a.Holds(w.no)) <==> |g| < a.numBlocks
  {
    var lw := LogWrites(a, g);
    if |g| >= a.numBlocks {
      assert lw[a.numBlocks - 1] in lw && !a.Holds(lw[a.numBlocks - 1].no);
    }
  }

  /**
   The code never compares the group with the log area.  A group with a slot past
   the area overwrites the block after the log before anything is committed.
   */
  lemma {:induction false} OversizedGroupSpills(a: LogArea, d: Disk, h: Header, g: seq<DeviceWrite>)
    requires Quiet(a, d) && |h.blockNo| == LOG_MAX_SIZE && h.num == |g| <= LOG_MAX_SIZE
    requires a.numBlocks <= |g| && a.start + |g| < |d| && InRange(g, |d|)
    ensures var e := Apply(d, CommitWrites(a, h, g)[..|g|]);
            var spill := a.start + a.numBlocks;
            !a.Holds(spill) && e[spill] == g[a.numBlocks - 1].data
            && (HomeEq(a, e, d) ==> d[spill] == g[a.numBlocks - 1].data)
  {
    hide Encode, Decode;
    var lw := LogWrites(a, g);
    assert CommitWrites(a, h, g)[..|g|] == lw;
    ApplyDistinct(d, lw, a.numBlocks - 1);
    assert lw[a.numBlocks - 1].no == a.start + a.numBlocks;
  }
}
