/** Bytes and little-endian words, as the file system lays them out on disk. */
module Bytes {

  type byte = x: int | 0 <= x < 256

  const BLOCK_SIZE := 512

  type Block = b: seq<byte> | |b| == BLOCK_SIZE witness seq(512, _ => 0)

  function ZeroBlock(): Block {
    seq(BLOCK_SIZE, _ => 0)
  }

  /** The bytes s with chunk in place of those at o. */
  function Splice(s: seq<byte>, o: nat, chunk: seq<byte>): (r: seq<byte>)
    requires o + |chunk| <= |s|
    ensures |r| == |s|
  {
    s[..o] + chunk + s[o + |chunk|..]
  }

  /** 256 to the power n. */
  function Base(n: nat): (r: nat)
    ensures r > 0
  {
    if n == 0 then 1 else 256 * Base(n - 1)
  }

  /** The n low-order bytes of x, least significant first. */
  function ToLe(n: nat, x: nat): (s: seq<byte>)
    ensures |s| == n
  {
    if n == 0 then [] else [x % 256] + ToLe(n - 1, x / 256)
  }

  /** The number whose bytes, least significant first, are s. */
  function FromLe(s: seq<byte>): (x: nat) {
    if s == [] then 0 else s[0] + 256 * FromLe(s[1..])
  }

  lemma {:induction false} FromLeBound(s: seq<byte>)
    ensures FromLe(s) < Base(|s|)
  {
    if s != [] {
      FromLeBound(s[1..]);
    }
  }

  lemma {:induction false} LeRoundTrip(n: nat, x: nat)
    requires x < Base(n)
    ensures FromLe(ToLe(n, x)) == x
  {
    if n > 0 {
      LeRoundTrip(n - 1, x / 256);
      assert ToLe(n, x)[1..] == ToLe(n - 1, x / 256);
    }
  }

  lemma {:induction false} DivTwice(x: nat, n: nat)
    requires n > 0
    ensures x / 256 / n == x / (256 * n)
  {
    var y := x / 256;
    var q, r := y / n, y % n;
    Division(y, n);
    var p := q * n;
    assert q * (256 * n) == 256 * p by {
      Shuffle(q, n);
    }
    assert x == 256 * p + (256 * r + x % 256) && 256 * r + x % 256 < 256 * n;
    Quotient(x, 256 * n, q, 256 * r + x % 256);
  }

  lemma {:induction false} Division(y: nat, n: nat)
    requires n > 0
    ensures y == y / n * n + y % n && y % n < n
  {
  }

  lemma {:induction false} Shuffle(q: nat, n: nat)
    ensures q * (256 * n) == 256 * (q * n)
  {
  }

  lemma {:induction false} Quotient(x: nat, d: nat, q: nat, r: nat)
    requires x == q * d + r && r < d
    ensures x / d == q
  {
    var e := x / d - q;
    Division(x, d);
    assert (q + e) * d == q * d + e * d;
    assert e * d == r - x % d;
    assert e >= 1 ==> e * d >= d;
    assert e <= -1 ==> e * d + d <= 0;
  }

  /** Byte i of a stored number counts 256 to the power i. */
  lemma {:induction false} LeByte(n: nat, x: nat, i: nat)
    requires i < n
    ensures ToLe(n, x)[i] == x / Base(i) % 256
  {
    if i > 0 {
      LeByte(n - 1, x / 256, i - 1);
      DivTwice(x, Base(i - 1));
    }
  }

  // ----- an array of 32-bit words in a block -----

  type u32 = x: nat | x < 0x1_0000_0000

  function WordAt(b: Block, i: nat): (x: u32)
    requires i < 128
  {
    FromLeBound(b[4 * i..4 * i + 4]);
    assert Base(4) == 0x1_0000_0000;
    FromLe(b[4 * i..4 * i + 4])
  }

  function SetWord(b: Block, i: nat, x: u32): (r: Block)
    requires i < 128
  {
    b[..4 * i] + ToLe(4, x) + b[4 * i + 4..]
  }

  lemma {:induction false} FromLeFour(s: seq<byte>)
    requires |s| == 4
    ensures FromLe(s) == (s[0] as int) + 0x100 * (s[1] as int) + 0x1_0000 * (s[2] as int) + 0x100_0000 * (s[3] as int)
  {
    assert s[1..][1..] == s[2..] && s[2..][1..] == s[3..] && s[3..][1..] == [];
    assert FromLe(s[3..]) == s[3] && FromLe(s[2..]) == s[2] + 256 * FromLe(s[3..]);
    assert FromLe(s[1..]) == s[1] + 256 * FromLe(s[2..]);
  }

  /** Word i is bytes 4i to 4i + 3, the least significant first. */
  lemma {:induction false} WordBytes(b: Block, i: nat)
    requires i < 128
    ensures WordAt(b, i) == (b[4 * i] as int) + 0x100 * (b[4 * i + 1] as int)
                            + 0x1_0000 * (b[4 * i + 2] as int) + 0x100_0000 * (b[4 * i + 3] as int)
  {
    FromLeFour(b[4 * i..4 * i + 4]);
  }

  /** Storing a word puts its bytes, the least significant first, at 4i to 4i + 3, and changes no other byte. */
  lemma {:induction false} SetWordBytes(b: Block, i: nat, x: u32)
    requires i < 128
    ensures var r := SetWord(b, i, x);
            && r[4 * i] == x % 256 && r[4 * i + 1] == x / 256 % 256
            && r[4 * i + 2] == x / 0x1_0000 % 256 && r[4 * i + 3] == x / 0x100_0000 % 256
            && forall k :: 0 <= k < 512 && !(4 * i <= k < 4 * i + 4) ==> r[k] == b[k]
  {
    LeByte(4, x, 0);
    LeByte(4, x, 1);
    LeByte(4, x, 2);
    LeByte(4, x, 3);
    assert Base(1) == 256 && Base(2) == 0x1_0000 && Base(3) == 256 * Base(2);
    var r := SetWord(b, i, x);
    assert r[4 * i..4 * i + 4] == ToLe(4, x);
    assert r[4 * i..4 * i + 4][0] == r[4 * i] && r[4 * i..4 * i + 4][1] == r[4 * i + 1];
    assert r[4 * i..4 * i + 4][2] == r[4 * i + 2] && r[4 * i..4 * i + 4][3] == r[4 * i + 3];
  }

  /** Storing a word changes that word and no other. */
  lemma {:induction false} WordAtSet(b: Block, i: nat, x: u32, j: nat)
    requires i < 128 && j < 128
    ensures WordAt(SetWord(b, i, x), j) == if j == i then x else WordAt(b, j)
  {
    var r := SetWord(b, i, x);
    if j == i {
      assert Base(4) == 0x1_0000_0000;
      LeRoundTrip(4, x);
      assert r[4 * i..4 * i + 4] == ToLe(4, x);
    } else if j < i {
      assert r[4 * j..4 * j + 4] == b[4 * j..4 * j + 4];
    } else {
      assert r[4 * j..4 * j + 4] == b[4 * j..4 * j + 4];
    }
  }

  lemma {:induction false} WordAtZero(i: nat)
    requires i < 128
    ensures WordAt(ZeroBlock(), i) == 0
  {
    assert ZeroBlock()[4 * i..4 * i + 4] == seq(4, _ => 0);
    FromLeZero(4);
  }

  lemma {:induction false} FromLeZero(n: nat)
    ensures FromLe(seq(n, _ => 0)) == 0
  {
    if n > 0 {
      assert seq<byte>(n, _ => 0)[1..] == seq(n - 1, _ => 0);
      FromLeZero(n - 1);
    }
  }
}
