/** The machine integers of a 16-bit compiler, where they matter. */
module CInts {

  type byte = b: int | 0 <= b < 256

  function Min(a: nat, b: nat): nat {
    if a < b then a else b
  }

  /** Division and remainder as C defines them: the quotient is cut toward zero. */
  function CDiv(a: int, b: nat): int
    requires b > 0
  {
    if a >= 0 then a / b else -((-a) / b)
  }

  function CMod(a: int, b: nat): int
    requires b > 0
  {
    if a >= 0 then a % b else -((-a) % b)
  }

  /** Conversion to an 8-bit unsigned. */
  function Byte(v: int): byte {
    v % 256
  }

  /** Conversion to a 16-bit unsigned. */
  function Word(v: int): nat {
    v % 65536
  }

  /** Conversion to a 16-bit signed. */
  function Int16(v: int): int {
    (v + 32768) % 65536 - 32768
  }

  // ---------- arithmetic the other modules lean on ----------

  lemma MultipleIsLarge(d: int, n: nat)
    ensures d > 0 ==> d * n >= n
    ensures d < 0 ==> d * n <= -1 * n
  {
    if d > 0 {
      assert d * n == n + (d - 1) * n;
    } else if d < 0 {
      assert d * n == -1 * n + (d + 1) * n;
    }
  }

  lemma Divided(a: int, n: nat)
    requires n > 0
    ensures a == n * (a / n) + a % n && 0 <= a % n < n
  {
  }

  lemma ModUnique(a: int, n: nat, q: int, r: nat)
    requires n > 0 && r < n && a == q * n + r
    ensures a % n == r && a / n == q
  {
    Divided(a, n);
    var d := a / n - q;
    assert d * n == (a / n) * n - q * n;
    MultipleIsLarge(d, n);
  }

  lemma Int16Next(v: int)
    ensures Int16(Int16(v) + 1) == Int16(v + 1)
  {
  }

  lemma Larger(a: nat, q: nat, n: nat)
    requires q >= n
    ensures a * q >= a * n
  {
    assert a * q == a * n + a * (q - n);
  }

  lemma OneStepMore(step: nat, m: nat, e: nat)
    ensures step * (m + 1 + e) >= step * m + step
  {
    assert step * (m + 1 + e) == step * m + step + step * e;
  }

  lemma Cancel(step: nat, i: nat, m: nat)
    requires step > 0 && step * i <= step * m
    ensures i <= m
  {
    if i > m {
      OneStepMore(step, m, i - m - 1);
    }
  }

  /** One step on, and one step back, around a cycle. */
  lemma ModNext(i: int, n: nat)
    requires n > 0
    ensures (i + 1) % n == if i % n + 1 == n then 0 else i % n + 1
  {
    var q, r := i / n, i % n;
    Divided(i, n);
    assert n * q == q * n && (q + 1) * n == q * n + n;
    if r + 1 == n {
      ModUnique(i + 1, n, q + 1, 0);
    } else {
      ModUnique(i + 1, n, q, r + 1);
    }
  }

  lemma ModPrevious(i: int, n: nat)
    requires n > 0
    ensures (i - 1) % n == if i % n == 0 then n - 1 else i % n - 1
  {
    var q, r := i / n, i % n;
    Divided(i, n);
    assert n * q == q * n && (q - 1) * n == q * n - n;
    if r == 0 {
      ModUnique(i - 1, n, q - 1, n - 1);
    } else {
      ModUnique(i - 1, n, q, r - 1);
    }
  }
}
