/** Integer widths, and facts about division by a positive width that the screen layout needs. */
module Arith {

  const I32_MIN := -0x8000_0000
  const I32_MAX := 0x7FFF_FFFF
  const U32_MAX := 0xFFFF_FFFF

  type Width = n: int | 0 < n witness 1

  function Max(a: int, b: int): int { if a < b then b else a }

  function Min(a: int, b: int): int { if a < b then a else b }

  lemma Distribute(a: int, b: int, c: int)
    ensures (a - b) * c == a * c - b * c
  {
  }

  lemma SmallMultiple(d: int, c: Width)
    ensures d * c < c ==> d <= 0
  {
    Distribute(d, 1, c);
  }

  lemma DivUnique(q: int, r: int, c: Width)
    requires 0 <= r < c
    ensures (q * c + r) / c == q && (q * c + r) % c == r
  {
    var k := q * c + r;
    var q', r' := k / c, k % c;
    assert k == q' * c + r';
    Distribute(q', q, c);
    Distribute(q, q', c);
    SmallMultiple(q' - q, c);
    SmallMultiple(q - q', c);
  }

  lemma DivStep(k: nat, c: Width)
    ensures k % c == c - 1 ==> (k + 1) / c == k / c + 1 && (k + 1) % c == 0
    ensures k % c != c - 1 ==> (k + 1) / c == k / c && (k + 1) % c == k % c + 1
  {
    assert k == (k / c) * c + k % c;
    if k % c == c - 1 {
      assert (k / c + 1) * c == (k / c) * c + c;
      DivUnique(k / c + 1, 0, c);
    } else {
      DivUnique(k / c, k % c + 1, c);
    }
  }

  lemma DivMono(a: nat, b: nat, c: Width)
    requires a <= b
    ensures a / c <= b / c
  {
    var q, q' := a / c, b / c;
    assert a == q * c + a % c && b == q' * c + b % c;
    Distribute(q, q', c);
    SmallMultiple(q - q', c);
  }

  lemma DivNextRow(k: nat, c: Width)
    ensures (k + c) / c == k / c + 1 && (k + c) % c == k % c
  {
    assert k == (k / c) * c + k % c;
    assert (k / c + 1) * c == (k / c) * c + c;
    DivUnique(k / c + 1, k % c, c);
  }

  /** Rows needed by `n` cells: the row of the last cell, plus one. */
  lemma CeilRows(n: nat, c: Width)
    ensures (n + c - 1) / c == if n == 0 then 0 else (n - 1) / c + 1
  {
    if n == 0 {
      DivUnique(0, c - 1, c);
    } else {
      DivNextRow(n - 1, c);
    }
  }

  lemma DivSmall(k: nat, c: Width)
    ensures k < c <==> k / c == 0
    ensures k < c ==> k % c == k
  {
    if k < c {
      DivUnique(0, k, c);
    } else {
      DivMono(c, k, c);
      DivUnique(1, 0, c);
    }
  }
}
