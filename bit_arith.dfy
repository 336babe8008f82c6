/**
 * Powers of two and the few facts about multiplication, division and
 * remainder that the packed encodings of the model rely on.  Each fact is
 * stated on plain integers so that callers see only the step they need.
 */
module BitArith {

  /** `2^n`, the value of the bit `1 << n`. */
  function Pow2(n: nat): (r: nat)
    ensures r >= 1
  {
    if n == 0 then 1 else 2 * Pow2(n - 1)
  }

  lemma Assoc2(x: int, y: int)
    ensures 2 * (x * y) == (2 * x) * y
  {
  }

  lemma {:induction false} Pow2Add(a: nat, b: nat)
    ensures Pow2(a + b) == Pow2(a) * Pow2(b)
    decreases a
  {
    if a > 0 {
      Pow2Add(a - 1, b);
      Assoc2(Pow2(a - 1), Pow2(b));
    }
  }

  lemma {:induction false} Pow2Mono(a: nat, b: nat)
    requires a <= b
    ensures Pow2(a) <= Pow2(b)
  {
    Pow2Add(a, b - a);
    MulMono(1, Pow2(b - a), Pow2(a));
  }

  lemma MulMono(a: int, b: int, m: int)
    requires a <= b && m >= 0
    ensures a * m <= b * m
  {
    var d := b - a;
    assert b * m == a * m + d * m;
  }

  lemma MulSucc(n: int, b: int)
    ensures (n + 1) * b == b + n * b
  {
  }

  lemma Distrib(c: int, p: int, w: int, v: int, r: int)
    ensures c + p * (w + v * r) == (c + p * w) + v * (p * r)
  {
  }

  /** A digit below `p` followed by a number below `r` stays below `p * r`. */
  lemma BoundStep(f: int, p: int, w: int, r: int)
    requires 0 <= f < p && 0 <= w < r
    ensures f + p * w < p * r
  {
    MulMono(w + 1, r, p);
    assert (w + 1) * p == w * p + p;
  }

  /** Euclidean division: `x` is `x / m` times `m`, plus a remainder below `m`. */
  lemma DivMod(x: int, m: int)
    requires m > 0
    ensures x == (x / m) * m + x % m && 0 <= x % m < m
  {
  }

  /** `x / m` and `x % m` as a pair. */
  lemma Split(x: nat, m: nat) returns (q: nat, r: nat)
    requires m > 0
    ensures q == x / m && r == x % m
    ensures x == q * m + r && r < m
  {
    DivMod(x, m);
    q, r := x / m, x % m;
  }

  /** Quotient and remainder are determined by `x == q * m + r`, `0 <= r < m`. */
  lemma DivModUnique(x: int, m: int, q: int, r: int)
    requires m > 0 && 0 <= r < m && x == q * m + r
    ensures x / m == q && x % m == r
  {
    var q' := x / m;
    var r' := x % m;
    assert q' * m + r' == q * m + r;
    if q' > q {
      MulMono(q + 1, q', m);
      assert false;
    } else if q' < q {
      MulMono(q' + 1, q, m);
      assert false;
    }
  }

  /** Dividing by `p * q` is dividing by `p`, then by `q`. */
  lemma DivDiv(x: nat, p: nat, q: nat)
    requires p > 0 && q > 0
    ensures x / (p * q) == (x / p) / q
  {
    var a := x / p;
    var b := a / q;
    var r1 := x % p;
    var r2 := a % q;
    assert x == a * p + r1;
    assert a == b * q + r2;
    assert a * p == b * (p * q) + r2 * p by {
      assert a * p == (b * q + r2) * p;
    }
    MulMono(r2, q - 1, p);
    assert (q - 1) * p == q * p - p;
    DivModUnique(x, p * q, b, r2 * p + r1);
  }

  /** A multiple of `m` that does not exceed `n` has a factor at most `n / m`. */
  lemma DivLower(q: int, m: int, n: int)
    requires m > 0 && 0 <= n && q * m <= n
    ensures q <= n / m
  {
    var d := n / m;
    assert n == d * m + n % m;
    if q > d {
      MulMono(d + 1, q, m);
      assert false;
    }
  }

  /** A number below 256 comes back from `as u8` unchanged. */
  lemma ByteRoundTrip(n: int)
    requires 0 <= n < 256
    ensures (n as bv8) as int == n
  {
    // one range of 32 at a time keeps each case small for the solver
    if n < 32 {
    } else if n < 64 {
    } else if n < 96 {
    } else if n < 128 {
    } else if n < 160 {
    } else if n < 192 {
    } else if n < 224 {
    } else {
    }
  }
}
