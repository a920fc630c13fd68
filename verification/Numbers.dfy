/** Powers of two and products. */
module Numbers {

  function Pow2(k: nat): (r: nat)
    ensures r > 0
  {
    if k == 0 then 1 else 2 * Pow2(k - 1)
  }

  lemma {:induction false} Pow2Add(a: nat, b: nat)
    ensures Pow2(a + b) == Pow2(a) * Pow2(b)
  {
    if a > 0 {
      Pow2Add(a - 1, b);
    }
  }

  lemma {:induction false} Pow2Mono(a: nat, b: nat)
    requires a <= b
    ensures Pow2(a) <= Pow2(b)
  {
    if a < b {
      Pow2Mono(a, b - 1);
    }
  }

  lemma {:induction false} MulMono(a: nat, b: nat, c: nat)
    requires a <= b
    ensures a * c <= b * c && c * a <= c * b
  {
    assert b * c == a * c + (b - a) * c;
  }

  lemma {:induction false} SquareMono(a: nat, b: nat)
    requires a <= b
    ensures a * a <= b * b
  {
    MulMono(a, b, a);
    MulMono(a, b, b);
  }

  /** Two multiples of size are equal or at least size apart. */
  lemma {:induction false} MultiplesApart(x: nat, y: nat, size: nat)
    requires size > 0 && x % size == 0 && y % size == 0 && x < y
    ensures x + size <= y
  {
    assert x == size * (x / size) && y == size * (y / size);
    if x / size >= y / size {
      MulMono(y / size, x / size, size);
    } else {
      MulMono(x / size + 1, y / size, size);
      assert size * (x / size + 1) == size * (x / size) + size;
    }
  }

  lemma {:induction false} MultipleMod(size: nat, r: nat)
    requires size > 0
    ensures (size * r) % size == 0
  {
    var x := size * r;
    var q := x / size;
    assert x == size * q + x % size && size * (q + 1) == size * q + size;
    if q < r {
      MulMono(q + 1, r, size);
    } else {
      MulMono(r, q, size);
    }
  }
}
