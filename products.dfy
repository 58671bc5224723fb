/** Integer products written as repeated addition. Array sizes and row-major offsets
    are products of two variables; stated with `Mul`, the solver sees them one
    addition at a time instead of as nonlinear terms, and the facts needed about
    them are the lemmas below. */
module Products {

  /** a * b. */
  function Mul(a: int, b: int): (p: int)
    ensures a >= 0 && b >= 0 ==> p >= 0
    decreases if a < 0 then -a else a
  {
    if a == 0 then 0 else if a > 0 then Mul(a - 1, b) + b else Mul(a + 1, b) - b
  }

  lemma {:induction false} MulIsProduct(a: int, b: int)
    ensures Mul(a, b) == a * b
    decreases if a < 0 then -a else a
  {
    if a > 0 {
      MulIsProduct(a - 1, b);
    } else if a < 0 {
      MulIsProduct(a + 1, b);
    }
  }

  lemma MulSucc(a: int, b: int)
    ensures Mul(a + 1, b) == Mul(a, b) + b
  {
    MulIsProduct(a + 1, b);
    MulIsProduct(a, b);
  }

  lemma MulZero(a: int)
    ensures Mul(a, 0) == 0 && Mul(0, a) == 0
  {
    MulIsProduct(a, 0);
  }

  lemma MulComm(a: int, b: int)
    ensures Mul(a, b) == Mul(b, a)
  {
    MulIsProduct(a, b);
    MulIsProduct(b, a);
  }

  /** (x + y) * b == x * b + y * b. */
  lemma {:induction false} MulAddLeft(x: nat, y: nat, b: int)
    ensures Mul(x + y, b) == Mul(x, b) + Mul(y, b)
  {
    if x > 0 {
      MulAddLeft(x - 1, y, b);
    }
  }

  lemma {:induction false} MulAssoc(a: nat, b: nat, c: int)
    ensures Mul(Mul(a, b), c) == Mul(a, Mul(b, c))
  {
    if a > 0 {
      MulAssoc(a - 1, b, c);
      MulAddLeft(Mul(a - 1, b), b, c);
    }
  }

  lemma MulByTwo(a: int)
    ensures Mul(a, 2) == 2 * a && Mul(2, a) == 2 * a
  {
    MulIsProduct(a, 2);
    MulIsProduct(2, a);
  }

  lemma {:induction false} MulDouble(a: nat, b: int)
    ensures Mul(a, 2 * b) == 2 * Mul(a, b)
  {
    if a > 0 {
      MulDouble(a - 1, b);
    }
  }

  lemma {:induction false} MulMonotone(a: nat, a': nat, b: nat)
    requires a <= a'
    ensures Mul(a, b) <= Mul(a', b)
    decreases a' - a
  {
    if a < a' {
      MulMonotone(a, a' - 1, b);
      MulSucc(a' - 1, b);
    }
  }

  /** The offset of (i, j) in an (n, m) row-major grid lies inside the grid. */
  lemma GridIndex(n: nat, m: nat, i: nat, j: nat)
    requires i < n && j < m
    ensures Mul(i, m) + j < Mul(n, m)
  {
    MulSucc(i, m);
    MulMonotone(i + 1, n, m);
  }

  /** Every offset inside an (n, m) row-major grid is the offset of some cell. */
  lemma GridCell(n: nat, m: nat, p: nat) returns (i: nat, j: nat)
    requires p < Mul(n, m)
    ensures i < n && j < m && p == Mul(i, m) + j
  {
    if m == 0 {
      MulZero(n);
    }
    i, j := p / m, p % m;
    MulIsProduct(i, m);
    if i >= n {
      MulMonotone(n, i, m);
    }
  }
}
