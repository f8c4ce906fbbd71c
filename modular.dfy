/** Modular arithmetic of affine.ts and hill.ts: Euclid's gcd, the coprimality
    test, and the modular inverse found by exhaustive search. */
module Modular {
  import opened Letters

  /** `d` divides `x` (only 0 is divisible by 0). */
  predicate Divides(d: int, x: int) {
    if d == 0 then x == 0 else x % d == 0
  }

  /** `gcd(x, y) = y === 0 ? x : gcd(y, x % y)`, with JavaScript's `%`. */
  function Gcd(x: int, y: int): int
    decreases Abs(y)
  {
    if y == 0 then x else Gcd(y, JsRem(x, y))
  }

  /** `isCoprime(a, m)`: the recursion above yields exactly 1. */
  predicate IsCoprime(a: int, m: int) {
    Gcd(a, m) == 1
  }

  /** `i` is a multiplicative inverse of `a` modulo `m`. */
  predicate IsInverse(a: int, i: int, m: int)
    requires m > 0
  {
    (a * i) % m == 1
  }

  /** The first `i` in `[from, m)` that is an inverse of `a`, or -1. */
  function InverseFrom(a: int, m: int, from: int): (r: int)
    requires m > 0 && from >= 1
    ensures r == -1 || (from <= r < m && IsInverse(a, r, m))
    ensures r == -1 <==> forall j :: from <= j < m ==> !IsInverse(a, j, m)
    ensures r != -1 ==> forall j :: from <= j < r ==> !IsInverse(a, j, m)
    decreases m - from
  {
    if from >= m then -1
    else if IsInverse(a, from, m) then from
    else InverseFrom(a, m, from + 1)
  }

  /** What `modInverse(a, m)` returns: `a` is normalised into `[0, m)`, then the
      least inverse in `[1, m)` is returned, or -1 when there is none. */
  function Inverse(a: int, m: int): (r: int)
    requires m > 0
    ensures r == -1 <==> forall j :: 1 <= j < m ==> !IsInverse(a % m, j, m)
    ensures r != -1 ==> 1 <= r < m && (a * r) % m == 1
    ensures r != -1 ==> forall j :: 1 <= j < r ==> (a * j) % m != 1
  {
    NormalizedRem(a, m);
    NormalizedSearch(a, m);
    InverseFrom(JsRem(JsRem(a, m) + m, m), m, 1)
  }

  /** Searching with the normalised `a` finds inverses of `a` itself. */
  lemma NormalizedSearch(a: int, m: int)
    requires m > 0
    ensures var r := InverseFrom(a % m, m, 1);
      && (r != -1 ==> (a * r) % m == 1)
      && (r != -1 ==> forall j :: 1 <= j < r ==> (a * j) % m != 1)
  {
    var r := InverseFrom(a % m, m, 1);
    if r != -1 {
      MulMod(a, r, m);
      forall j | 1 <= j < r ensures (a * j) % m != 1 {
        MulMod(a, j, m);
        assert !IsInverse(a % m, j, m);
      }
    }
  }

  /** `modInverse(a, m)` as the search loop of the source. */
  method ModInverse(a: int, m: int) returns (inv: int)
    requires m > 0
    ensures inv == Inverse(a, m)
  {
    NormalizedRem(a, m);
    var b := JsRem(JsRem(a, m) + m, m);
    var i := 1;
    while i < m
      invariant 1 <= i && (i <= m || m == 1)
      invariant InverseFrom(b, m, 1) == InverseFrom(b, m, i)
    {
      // `b` and `i` are non-negative, so Dafny's `%` is JavaScript's here.
      if (b * i) % m == 1 {
        return i;
      }
      i := i + 1;
    }
    return -1;
  }

  lemma AddMultipleMod(x: int, k: int, m: int)
    requires m > 0
    ensures (x + m * k) % m == x % m
  {
    assert x + m * k == m * (x / m + k) + x % m;
    DivModUnique(x + m * k, m, x / m + k, x % m);
  }

  lemma MulMod(a: int, b: int, m: int)
    requires m > 0
    ensures ((a % m) * b) % m == (a * b) % m
  {
    var q := a / m;
    assert a * b == (a % m) * b + m * (q * b);
    AddMultipleMod((a % m) * b, q * b, m);
  }

  lemma AddMod(a: int, b: int, m: int)
    requires m > 0
    ensures ((a % m) + b) % m == (a + b) % m
  {
    AddMultipleMod((a % m) + b, a / m, m);
  }

  /** `(x * t + b) % m` depends on `x` only modulo `m`. */
  lemma MulAddMod(x: int, t: int, b: int, m: int)
    requires m > 0
    ensures ((x % m) * t + b) % m == (x * t + b) % m
  {
    var q := x / m;
    assert x * t + b == (x % m) * t + b + m * (q * t);
    AddMultipleMod((x % m) * t + b, q * t, m);
  }

  /** A common divisor of `a` and `b` divides every `a * k + b`. */
  lemma DividesCombination(d: int, a: int, b: int, k: int)
    requires Divides(d, a) && Divides(d, b)
    ensures Divides(d, a * k + b)
  {
    if d != 0 {
      DivModUnique(a, d, a / d, 0);
      DivModUnique(b, d, b / d, 0);
      assert a * k + b == d * ((a / d) * k + b / d);
      ModOfMultiple(d, (a / d) * k + b / d);
    }
  }

  lemma DividesSelf(x: int)
    ensures Divides(x, x) && Divides(x, 0)
  {
    if x != 0 { ModOfMultiple(x, 1); ModOfMultiple(x, 0); }
  }

  /** One step of Euclid's algorithm: `x = y * q + r`, so `r = y * (-q) + x`. */
  lemma EuclidSplit(x: int, y: int, q: int, r: int)
    requires y > 0 && q == x / y && r == x % y
    ensures x == y * q + r && r == y * (-q) + x
  {
    assert y * (-q) == -(y * q);
  }

  /** For non-negative arguments the recursion computes the greatest common
      divisor: a non-negative common divisor that every common divisor divides. */
  lemma {:induction false} GcdIsGreatest(x: int, y: int)
    requires x >= 0 && y >= 0
    ensures Gcd(x, y) >= 0
    ensures Divides(Gcd(x, y), x) && Divides(Gcd(x, y), y)
    ensures forall d :: Divides(d, x) && Divides(d, y) ==> Divides(d, Gcd(x, y))
    decreases y
  {
    if y == 0 {
      DividesSelf(x);
    } else {
      var q, r := x / y, x % y;
      assert JsRem(x, y) == r;
      GcdIsGreatest(y, r);
      var g := Gcd(y, r);
      EuclidSplit(x, y, q, r);
      DividesCombination(g, y, r, q);
      forall d | Divides(d, x) && Divides(d, y) ensures Divides(d, g) {
        DividesCombination(d, y, x, -q);
      }
    }
  }

  /** An inverse exists only for an `a` coprime with `m`. */
  lemma InverseNeedsCoprime(a: int, m: int, i: int)
    requires a >= 0 && m > 0
    ensures (a * i) % m == 1 ==> IsCoprime(a, m)
  {
    if (a * i) % m == 1 {
      GcdIsGreatest(a, m);
      var g := Gcd(a, m);
      assert a * i == m * ((a * i) / m) + 1;
      assert Divides(g, a * i) by {
        DividesCombination(g, a, 0, i);
      }
      assert 1 == a * i + m * (-((a * i) / m));
      DividesCombination(g, m, a * i, -((a * i) / m));
      assert g == 1;
    }
  }

  /** Two inverses of `a` modulo `m` are congruent. */
  lemma InverseUnique(a: int, i: int, j: int, m: int)
    requires m > 0 && (a * i) % m == 1 && (a * j) % m == 1
    ensures i % m == j % m
  {
    // i == i * (a * j) == j * (a * i), modulo m
    MulMod(a * j, i, m);
    MulMod(a * i, j, m);
    MulSwap(a, i, j);
  }

  lemma MulSwap(a: int, i: int, j: int)
    ensures (a * j) * i == (a * i) * j
  {
    calc {
      (a * j) * i;
      a * (j * i);
      a * (i * j);
      (a * i) * j;
    }
  }

  /** With `m` = 26, `gcd(a, 26) = 1` for a non-negative `a` exactly when
      the search finds an inverse. */
  lemma CoprimeIffInverse26(a: int)
    requires a >= 0
    ensures IsCoprime(a, 26) <==> Inverse(a, 26) != -1
  {
    var r := a % 26;
    assert Gcd(a, 26) == Gcd(26, r);
    if r in {1, 3, 5, 7, 9, 11, 15, 17, 19, 21, 23, 25} {
      UnitHasInverse(r);
      InverseNeedsCoprime(a, 26, Inverse(a, 26));
    } else {
      NonUnitNotCoprime(r);
      forall j | 1 <= j < 26 ensures !IsInverse(r, j, 26) {
        InverseNeedsCoprime(r, 26, j);
      }
    }
  }

  lemma UnitHasInverse(r: int)
    requires r in {1, 3, 5, 7, 9, 11, 15, 17, 19, 21, 23, 25}
    ensures exists j :: 1 <= j < 26 && IsInverse(r, j, 26)
  {
    var inv := map[1 := 1, 3 := 9, 5 := 21, 7 := 15, 9 := 3, 11 := 19,
                   15 := 7, 17 := 23, 19 := 11, 21 := 5, 23 := 17, 25 := 25];
    assert IsInverse(r, inv[r], 26);
  }

  lemma NonUnitNotCoprime(r: int)
    requires 0 <= r < 26 && r !in {1, 3, 5, 7, 9, 11, 15, 17, 19, 21, 23, 25}
    ensures !IsCoprime(26, r)
  {
    GcdIsGreatest(26, r);
    var d := if r == 13 then 13 else 2;
    assert Divides(d, 26) && Divides(d, r);
    assert Divides(d, Gcd(26, r));
  }
}
