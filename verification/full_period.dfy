/** The number theory behind the probing recurrences of the real dict.

    On a table whose size n is a power of two, the recurrence idx := (5 * idx + 1) % n
    runs through all n slots before it comes back to where it started (a case of the
    Hull–Dobell theorem: increment 1 is odd, and multiplier minus one, 4, is divisible
    by 4). This is what lets every probe loop of the dict terminate once perturb has
    decayed to zero. */
module FullPeriod {

  /** 2^k */
  function Pow2(k: nat): (r: nat)
    ensures r >= 1
  {
    if k == 0 then 1 else 2 * Pow2(k - 1)
  }

  /** n is one of 1, 2, 4, 8, ... */
  predicate IsPowerOfTwo(n: nat)
  {
    n == 1 || (n >= 2 && n % 2 == 0 && IsPowerOfTwo(n / 2))
  }

  /** The exponent of a power of two. */
  function Log2(n: nat): (k: nat)
    requires IsPowerOfTwo(n)
    ensures Pow2(k) == n
  {
    if n == 1 then 0 else 1 + Log2(n / 2)
  }

  /** 5^t */
  function Pow5(t: nat): (r: nat)
    ensures r >= 1
  {
    if t == 0 then 1 else 5 * Pow5(t - 1)
  }

  /** 1 + 5 + ... + 5^(t-1): the orbit of 0 under x -> 5x + 1, over the integers. */
  function GeomSum(t: nat): nat
  {
    if t == 0 then 0 else 5 * GeomSum(t - 1) + 1
  }

  /** t steps of the recurrence idx := (5 * idx + 1) % n, starting from y. */
  function Iterate(y: nat, n: nat, t: nat): (r: nat)
    requires n > 0
    ensures t > 0 ==> r < n
  {
    if t == 0 then y else (5 * Iterate(y, n, t - 1) + 1) % n
  }

  /** The set of slots the recurrence visits in its first t steps. */
  ghost function Orbit(y: nat, n: nat, t: nat): set<nat>
    requires n > 0
  {
    if t == 0 then {} else Orbit(y, n, t - 1) + {Iterate(y, n, t - 1)}
  }

  /** The slots 0 .. n-1. */
  ghost function Range(n: nat): (r: set<nat>)
    ensures forall x: nat :: x in r <==> x < n
  {
    if n == 0 then {} else Range(n - 1) + {n - 1}
  }

  // ---------------------------------------------------------------------------
  // Arithmetic building blocks

  lemma MulNonneg(a: int, b: int)
    requires a >= 0 && b >= 0
    ensures a * b >= 0
  {
  }

  lemma MulAtLeast(d: int, n: int)
    requires d >= 1 && n > 0
    ensures d * n >= n
  {
    assert d * n == (d - 1) * n + n;
    MulNonneg(d - 1, n);
  }

  lemma MulAssoc(a: int, b: int, c: int)
    ensures (a * b) * c == a * (b * c)
  {
  }

  lemma MulDistrib(g: int, p: int)
    ensures g + p * g == g * (1 + p)
  {
  }

  /** Euclidean division has one quotient and one remainder. */
  lemma ModUnique(x: int, n: int, q: int, r: int)
    requires n > 0 && 0 <= r < n && x == q * n + r
    ensures x % n == r && x / n == q
  {
    var q', r' := x / n, x % n;
    assert x == q' * n + r';
    assert (q' - q) * n == r - r';
    if q' > q {
      MulAtLeast(q' - q, n);
    } else if q' < q {
      MulAtLeast(q - q', n);
    }
  }

  lemma ModAddMultiple(x: int, k: int, n: int)
    requires n > 0
    ensures (x + k * n) % n == x % n
  {
    assert x == (x / n) * n + x % n;
    assert x + k * n == (x / n + k) * n + x % n;
    ModUnique(x + k * n, n, x / n + k, x % n);
  }

  lemma ModStep(a: nat, n: int)
    requires n > 0
    ensures (5 * (a % n) + 1) % n == (5 * a + 1) % n
  {
    var q, r := a / n, a % n;
    assert a == q * n + r;
    assert 5 * a + 1 == (5 * r + 1) + (5 * q) * n;
    ModAddMultiple(5 * r + 1, 5 * q, n);
  }

  /** If moving y by x lands on y again, x is a multiple of n. */
  lemma ReturnIsMultiple(y: int, x: int, n: int)
    requires 0 <= y < n && (y + x) % n == y
    ensures x % n == 0 && x == (x / n) * n
  {
    assert x == (x / n) * n + x % n;
    ModAddMultiple(y + x % n, x / n, n);
    assert (y + x % n) % n == y;
    if y + x % n >= n {
      ModUnique(y + x % n, n, 1, y + x % n - n);
    } else {
      ModUnique(y + x % n, n, 0, y + x % n);
    }
  }

  /** A multiple of a power of two that is also 2^a times an odd number has exponent at most a. */
  lemma {:induction false} PowerOfTwoDividesOdd(k: nat, q: int, a: nat, w: int)
    requires Pow2(k) * q == Pow2(a) * w
    requires w % 2 == 1
    ensures k <= a
    decreases a
  {
    if k > 0 {
      var x := Pow2(k - 1) * q;
      MulAssoc(2, Pow2(k - 1), q);
      assert Pow2(k) * q == 2 * x;
      if a == 0 {
        assert false;
      } else {
        var z := Pow2(a - 1) * w;
        MulAssoc(2, Pow2(a - 1), w);
        assert Pow2(a) * w == 2 * z;
        PowerOfTwoDividesOdd(k - 1, q, a - 1, w);
      }
    }
  }

  lemma OddTimesOdd(x: int, y: int)
    requires x % 2 == 1 && y % 2 == 1
    ensures (x * y) % 2 == 1
  {
    var a, b := x / 2, y / 2;
    assert x == 2 * a + 1 && y == 2 * b + 1;
    assert x * y == 2 * (2 * a * b + a + b) + 1;
  }

  // ---------------------------------------------------------------------------
  // Facts about 5^t and the geometric sum

  lemma {:induction false} Pow5GeomSum(t: nat)
    ensures Pow5(t) == 4 * GeomSum(t) + 1
  {
    if t > 0 {
      Pow5GeomSum(t - 1);
    }
  }

  lemma {:induction false} GeomSumParity(t: nat)
    ensures GeomSum(t) % 2 == t % 2
  {
    if t > 0 {
      GeomSumParity(t - 1);
    }
  }

  /** Splitting a sum of a + b powers: the last b terms, then 5^b times the first a. */
  lemma {:induction false} GeomSumAdd(a: nat, b: nat)
    ensures GeomSum(a + b) == GeomSum(b) + Pow5(b) * GeomSum(a)
  {
    if b > 0 {
      GeomSumAdd(a, b - 1);
      var g, p := GeomSum(a), Pow5(b - 1);
      assert GeomSum(a + b) == 5 * (GeomSum(b - 1) + p * g) + 1;
      MulAssoc(5, p, g);
      assert GeomSum(a + b) == GeomSum(b) + (5 * p) * g;
    }
  }

  /** A sum of 2u powers is the sum of u powers times 2(1 + 2 GeomSum(u)). */
  lemma GeomSumDouble(u: nat)
    ensures GeomSum(u + u) == GeomSum(u) * (2 * (1 + 2 * GeomSum(u)))
  {
    GeomSumAdd(u, u);
    Pow5GeomSum(u);
    MulDistrib(GeomSum(u), Pow5(u));
  }

  /** GeomSum(t) is 2^a times an odd number with 2^a <= t: the power of two in the sum
      never exceeds t itself. */
  lemma {:induction false} GeomSumFactor(t: nat) returns (a: nat, o: int)
    requires t >= 1
    ensures GeomSum(t) == Pow2(a) * o && o % 2 == 1 && Pow2(a) <= t
    decreases t
  {
    if t % 2 == 1 {
      GeomSumParity(t);
      a, o := 0, GeomSum(t);
    } else {
      var u := t / 2;
      var a', o' := GeomSumFactor(u);
      GeomSumDouble(u);
      var odd := 1 + 2 * GeomSum(u);
      OddTimesOdd(o', odd);
      Regroup(Pow2(a'), o', odd);
      a, o := a' + 1, o' * odd;
    }
  }

  lemma Regroup(p: int, o: int, d: int)
    ensures (p * o) * (2 * d) == (2 * p) * (o * d)
  {
  }

  // ---------------------------------------------------------------------------
  // The recurrence

  /** Closed form: t steps from y move y by GeomSum(t) * (4y + 1), modulo n. */
  lemma {:induction false} IterateClosedForm(y: nat, n: nat, t: nat)
    requires 0 < n && y < n
    ensures Iterate(y, n, t) == (y + GeomSum(t) * (4 * y + 1)) % n
  {
    if t > 0 {
      IterateClosedForm(y, n, t - 1);
      var m := 4 * y + 1;
      var g := GeomSum(t - 1);
      MulNonneg(g, m);
      var a: nat := y + g * m;
      assert Iterate(y, n, t) == (5 * (a % n) + 1) % n;
      ModStep(a, n);
      ClosedFormStep(y, g, m);
      assert GeomSum(t) == 5 * g + 1;
    }
  }

  lemma ClosedFormStep(y: int, g: int, m: int)
    requires m == 4 * y + 1
    ensures 5 * (y + g * m) + 1 == y + (5 * g + 1) * m
  {
    assert (5 * g + 1) * m == 5 * (g * m) + m;
  }

  lemma {:induction false} IterateAdd(y: nat, n: nat, a: nat, b: nat)
    requires n > 0
    ensures Iterate(y, n, a + b) == Iterate(Iterate(y, n, a), n, b)
  {
    if b > 0 {
      IterateAdd(y, n, a, b - 1);
    }
  }

  /** On a power-of-two table, no slot is revisited before n steps. */
  lemma NoEarlyReturn(y: nat, n: nat, t: nat)
    requires IsPowerOfTwo(n) && y < n
    requires 0 < t < n
    ensures Iterate(y, n, t) != y
  {
    IterateClosedForm(y, n, t);
    ShiftNotMultiple(y, n, t, GeomSum(t) * (4 * y + 1));
  }

  lemma ShiftNotMultiple(y: nat, n: nat, t: nat, x: int)
    requires IsPowerOfTwo(n) && y < n
    requires 0 < t < n
    requires x == GeomSum(t) * (4 * y + 1)
    ensures (y + x) % n != y
  {
    if (y + x) % n == y {
      ReturnIsMultiple(y, x, n);
      NotMultipleOfSize(n, t, x / n, 4 * y + 1);
    }
  }

  /** For 0 < t < n, GeomSum(t) times an odd number is not a multiple of the power of two n. */
  lemma NotMultipleOfSize(n: nat, t: nat, q: int, m: int)
    requires IsPowerOfTwo(n) && 0 < t < n && m % 2 == 1
    ensures q * n != GeomSum(t) * m
  {
    var a, o := GeomSumFactor(t);
    OddTimesOdd(o, m);
    var k := Log2(n);
    if q * n == GeomSum(t) * m {
      calc {
        Pow2(k) * q;
        q * n;
        GeomSum(t) * m;
        (Pow2(a) * o) * m;
      }
      MultipleOfPowerOfTwo(k, q, a, o, m);
      Pow2Monotone(k, a);
    }
  }

  lemma MultipleOfPowerOfTwo(k: nat, q: int, a: nat, o: int, m: int)
    requires Pow2(k) * q == (Pow2(a) * o) * m
    requires (o * m) % 2 == 1
    ensures k <= a
  {
    MulAssoc(Pow2(a), o, m);
    PowerOfTwoDividesOdd(k, q, a, o * m);
  }

  lemma {:induction false} Pow2Monotone(k: nat, a: nat)
    requires k <= a
    ensures Pow2(k) <= Pow2(a)
    decreases a
  {
    if k < a {
      Pow2Monotone(k, a - 1);
    }
  }

  lemma IterateInjective(y: nat, n: nat, i: nat, j: nat)
    requires IsPowerOfTwo(n) && y < n
    requires i < j < n
    ensures Iterate(y, n, i) != Iterate(y, n, j)
  {
    IterateAdd(y, n, i, j - i);
    var z := Iterate(y, n, i);
    assert z < n;
    NoEarlyReturn(z, n, j - i);
  }

  /** Every member of the orbit is reached at some step before t. */
  lemma {:induction false} OrbitMember(y: nat, n: nat, t: nat, x: nat) returns (i: nat)
    requires n > 0 && x in Orbit(y, n, t)
    ensures i < t && Iterate(y, n, i) == x
  {
    if x == Iterate(y, n, t - 1) {
      i := t - 1;
    } else {
      i := OrbitMember(y, n, t - 1, x);
    }
  }

  lemma {:induction false} OrbitSize(y: nat, n: nat, t: nat)
    requires IsPowerOfTwo(n) && y < n && t <= n
    ensures |Orbit(y, n, t)| == t
  {
    if t > 0 {
      OrbitSize(y, n, t - 1);
      var last := Iterate(y, n, t - 1);
      if last in Orbit(y, n, t - 1) {
        var i := OrbitMember(y, n, t - 1, last);
        IterateInjective(y, n, i, t - 1);
      }
    }
  }

  lemma {:induction false} RangeSize(n: nat)
    ensures |Range(n)| == n
  {
    if n > 0 {
      RangeSize(n - 1);
      CardAddFresh(Range(n - 1), n - 1);
    }
  }

  lemma CardAddFresh<T>(s: set<T>, e: T)
    requires e !in s
    ensures |s + {e}| == |s| + 1
  {
  }

  lemma SubsetSize<T>(a: set<T>, b: set<T>)
    requires a <= b
    ensures |a| <= |b|
  {
    assert b == a + (b - a);
    assert |b| == |a| + |b - a|;
  }

  /** A set of nats below n with n elements is all of them. */
  lemma FullSubsetOfRange(s: set<nat>, n: nat)
    requires forall x | x in s :: x < n
    requires |s| == n
    ensures s == Range(n)
  {
    RangeSize(n);
    if s != Range(n) {
      var e :| e in Range(n) && e !in s;
      SubsetSize(s, Range(n) - {e});
    }
  }

  /** Full period: from any start y, every slot e of a power-of-two table is reached
      within n steps of idx := (5 * idx + 1) % n. */
  lemma FullPeriodWitness(y: nat, n: nat, e: nat) returns (t: nat)
    requires IsPowerOfTwo(n) && y < n && e < n
    ensures t < n && Iterate(y, n, t) == e
  {
    OrbitSize(y, n, n);
    forall x | x in Orbit(y, n, n) ensures x < n {
      var i := OrbitMember(y, n, n, x);
    }
    FullSubsetOfRange(Orbit(y, n, n), n);
    t := OrbitMember(y, n, n, e);
  }
}
