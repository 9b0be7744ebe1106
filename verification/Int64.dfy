/** Go's 64-bit `int`: truncation and remainder. */
module Int64 {

  const TWO63 := 0x8000_0000_0000_0000
  const TWO64 := 0x1_0000_0000_0000_0000

  /** Two's complement 64-bit truncation. */
  function Wrap64(x: int): (w: int)
    ensures -TWO63 <= w < TWO63
    ensures -TWO63 <= x < TWO63 ==> w == x
  {
    var m := x % TWO64;
    if m >= TWO63 then m - TWO64 else m
  }

  /** Go's remainder: it takes the sign of the dividend. */
  function Rem(a: int, n: int): int
    requires n > 0
  {
    if a >= 0 then a % n else -((-a) % n)
  }

  lemma WrapShift(x: int)
    ensures x == Wrap64(x) + ((x - Wrap64(x)) / TWO64) * TWO64
  {
  }

  lemma Distribute(a: int, b: int, n: int)
    ensures (a - b) * n == a * n - b * n
  {
  }

  lemma Grows(a: int, n: int)
    requires n > 0
    ensures a >= 1 ==> a * n >= n
    ensures a <= -1 ==> a * n <= -n
  {
  }

  lemma SmallMultiple(a: int, n: int)
    requires -n < a * n < n
    ensures a == 0
  {
    Grows(a, n);
  }

  lemma DivModUnique(q: int, r: int, x: int, n: int)
    requires x == q * n + r && 0 <= r < n
    ensures x / n == q && x % n == r
  {
    Distribute(q, x / n, n);
    SmallMultiple(q - x / n, n);
  }

  /** The residue after counting `k` on from `a`. */
  function Turn(a: int, k: int, n: int): int
    requires n > 0
  {
    (a + k) % n
  }

  lemma TurnAt(a: int, k: int, n: int)
    requires 0 <= k < n
    ensures Turn(a, k, n) == if a % n + k < n then a % n + k else a % n + k - n
  {
    var q, r := a / n, a % n;
    if r + k < n {
      DivModUnique(q, r + k, a + k, n);
    } else {
      Distribute(q, -1, n);
      DivModUnique(q + 1, r + k - n, a + k, n);
    }
  }

  /** Counting on from `a`, every residue comes up once before the count returns. */
  lemma EachResidueOnce(a: int, n: int, p: int) returns (k: int)
    requires 0 <= p < n
    ensures 0 <= k < n && Turn(a, k, n) == p
    ensures forall i :: 0 <= i < n && Turn(a, i, n) == p ==> i == k
  {
    var r := a % n;
    k := if p >= r then p - r else p - r + n;
    TurnAt(a, k, n);
    forall i | 0 <= i < n && Turn(a, i, n) == p ensures i == k {
      TurnAt(a, i, n);
    }
  }
}
