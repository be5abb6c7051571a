/**
 * Modular arithmetic for ecdsa/recover.js and ecdsa/sign.js: congruence, Euclid's
 * lemma, Fermat's little theorem, inverses and square roots by powers.
 */
module NumberTheory {
  import opened Bytes

  // ---- congruence ----------------------------------------------------------

  predicate Cong(a: int, b: int, m: nat)
    requires m > 0
  {
    a % m == b % m
  }

  lemma {:induction false} SmallMultiple(k: int, m: nat)
    requires -(m as int) < k * m < m
    ensures k == 0
  {
    assert k >= 1 ==> (k - 1) * m >= 0;
    assert k <= -1 ==> (-1 - k) * m >= 0;
  }

  /** Remainders are unique. */
  lemma {:induction false} Remainder(a: int, q: int, r: int, m: nat)
    requires a == q * m + r && 0 <= r < m
    ensures a % m == r && a / m == q
  {
    assert (a / m - q) * m == r - a % m;
    SmallMultiple(a / m - q, m);
  }

  lemma {:induction false} CongFrom(a: int, b: int, k: int, m: nat)
    requires m > 0 && a == b + k * m
    ensures Cong(a, b, m)
  {
    assert a == (b / m + k) * m + b % m;
    Remainder(a, b / m + k, b % m, m);
  }

  lemma {:induction false} CongTo(a: int, b: int, m: nat) returns (k: int)
    requires m > 0 && Cong(a, b, m)
    ensures a == b + k * m
  {
    k := a / m - b / m;
  }

  lemma {:induction false} CongRefl(a: int, p: nat)
    requires p > 0
    ensures Cong(a, a, p)
  {
  }

  lemma {:induction false} CongTrans(a: int, b: int, c: int, p: nat)
    requires p > 0 && Cong(a, b, p) && Cong(b, c, p)
    ensures Cong(a, c, p)
  {
  }

  lemma {:induction false} CongMeet(a: int, b: int, c: int, p: nat)
    requires p > 0 && Cong(a, c, p) && Cong(b, c, p)
    ensures Cong(a, b, p)
  {
  }

  lemma {:induction false} CongMod(a: int, m: nat)
    requires m > 0
    ensures Cong(a % m, a, m)
  {
    Remainder(a % m, 0, a % m, m);
  }

  lemma {:induction false} CongAdd(a: int, a': int, b: int, b': int, m: nat)
    requires m > 0 && Cong(a, a', m) && Cong(b, b', m)
    ensures Cong(a + b, a' + b', m)
  {
    var k := CongTo(a, a', m);
    var l := CongTo(b, b', m);
    assert a + b == a' + b' + (k + l) * m;
    CongFrom(a + b, a' + b', k + l, m);
  }

  lemma {:induction false} CongSub(a: int, a': int, b: int, b': int, m: nat)
    requires m > 0 && Cong(a, a', m) && Cong(b, b', m)
    ensures Cong(a - b, a' - b', m)
  {
    var k := CongTo(a, a', m);
    var l := CongTo(b, b', m);
    assert a - b == a' - b' + (k - l) * m;
    CongFrom(a - b, a' - b', k - l, m);
  }

  lemma {:induction false} CongMul(a: int, a': int, b: int, b': int, m: nat)
    requires m > 0 && Cong(a, a', m) && Cong(b, b', m)
    ensures Cong(a * b, a' * b', m)
  {
    var k := CongTo(a, a', m);
    var l := CongTo(b, b', m);
    Expand(a', k, b', l, m);
    CongFrom(a * b, a' * b', a' * l + k * b' + k * l * m, m);
  }

  lemma {:induction false} Expand(a: int, k: int, b: int, l: int, m: int)
    ensures (a + k * m) * (b + l * m) == a * b + (a * l + k * b + k * l * m) * m
  {
  }

  // ---- primes and Euclid's lemma -------------------------------------------

  ghost predicate Prime(p: nat) {
    p >= 2 && forall d {:trigger p % d} :: 2 <= d < p ==> p % d != 0
  }

  lemma {:induction false} PrimeBound(p: nat)
    requires Prime(p)
    ensures p >= 2
  {
  }

  /** A prime that divides a product of a non-multiple and b divides b. */
  lemma {:induction false} EuclidSmall(a: nat, b: int, p: nat)
    requires Prime(p) && 0 < a < p && (a * b) % p == 0
    ensures b % p == 0
    decreases a
  {
    if a > 1 {
      var q, r := p / a, p % a;
      assert r != 0;
      assert r * b == p * b - q * (a * b);
      var k := CongTo(a * b, 0, p);
      assert q * (a * b) == (q * k) * p;
      CongFrom(r * b, 0, b - q * k, p);
      EuclidSmall(r, b, p);
    }
  }

  lemma {:induction false} Euclid(a: int, b: int, p: nat)
    requires Prime(p) && (a * b) % p == 0
    ensures a % p == 0 || b % p == 0
  {
    CongMod(a, p);
    CongMul(a % p, a, b, b, p);
    if a % p != 0 {
      EuclidSmall(a % p, b, p);
    }
  }

  /** A factor prime to p cancels. */
  lemma {:induction false} Cancel(a: int, b: int, c: int, p: nat)
    requires Prime(p) && a % p != 0 && Cong(a * b, a * c, p)
    ensures Cong(b, c, p)
  {
    var k := CongTo(a * b, a * c, p);
    assert a * (b - c) == 0 + k * p;
    CongFrom(a * (b - c), 0, k, p);
    Euclid(a, b - c, p);
    var l := CongTo(b - c, 0, p);
    CongFrom(b, c, l, p);
  }

  // ---- powers --------------------------------------------------------------

  function Pow(b: int, e: nat): int {
    if e == 0 then 1 else b * Pow(b, e - 1)
  }

  lemma {:induction false} PowSum(b: int, e: nat, f: nat)
    ensures Pow(b, e + f) == Pow(b, e) * Pow(b, f)
  {
    if e != 0 {
      PowSum(b, e - 1, f);
      assert b * (Pow(b, e - 1) * Pow(b, f)) == (b * Pow(b, e - 1)) * Pow(b, f);
    }
  }

  lemma {:induction false} PowSquare(b: int, e: nat)
    ensures Pow(b * b, e) == Pow(b, 2 * e)
  {
    if e != 0 {
      PowSquare(b, e - 1);
      PowSum(b, 2, 2 * e - 2);
      PowTwo(b);
    }
  }

  lemma {:induction false} PowTwo(b: int)
    ensures Pow(b, 2) == b * b
  {
    assert Pow(b, 1) == b * 1;
  }

  lemma {:induction false} PowCong(b: int, c: int, e: nat, m: nat)
    requires m > 0 && Cong(b, c, m)
    ensures Cong(Pow(b, e), Pow(c, e), m)
  {
    if e != 0 {
      PowCong(b, c, e - 1, m);
      CongMul(b, c, Pow(b, e - 1), Pow(c, e - 1), m);
    }
  }

  /** What modPow returns. With no exponent bits it returns an unreduced 1. */
  function PowMod(b: int, e: int, m: nat): int
    requires m > 0
  {
    if e <= 0 then 1 else Pow(b, e) % m
  }

  lemma {:induction false} PowModCong(b: int, e: nat, m: nat)
    requires m > 0
    ensures Cong(PowMod(b, e, m), Pow(b, e), m)
  {
    CongMod(Pow(b, e), m);
  }

  lemma {:induction false} PowModRange(b: int, e: nat, m: nat)
    requires m >= 2
    ensures 0 <= PowMod(b, e, m) < m
  {
  }

  /** One bit of square and multiply keeps result * b^e. */
  lemma {:induction false} SquareStep(r: int, b: int, e: nat, m: nat)
    requires m > 0 && e > 0
    ensures var r' := if e % 2 == 1 then (r * b) % m else r;
            Cong(r' * Pow((b * b) % m, e / 2), r * Pow(b, e), m)
  {
    var h, b' := e / 2, (b * b) % m;
    var r' := if e % 2 == 1 then (r * b) % m else r;
    CongMod(b * b, m);
    PowCong(b', b * b, h, m);
    PowSquare(b, h);
    if e % 2 == 1 {
      CongMod(r * b, m);
      CongMul(r', r * b, Pow(b', h), Pow(b, 2 * h), m);
      assert (r * b) * Pow(b, 2 * h) == r * (b * Pow(b, 2 * h));
      assert Pow(b, e) == b * Pow(b, 2 * h);
    } else {
      CongMul(r, r, Pow(b', h), Pow(b, 2 * h), m);
    }
  }

  /** modPow: square and multiply. */
  method ModPow(base: int, exp: int, m: nat) returns (result: int)
    requires m > 0
    ensures result == PowMod(base, exp, m)
  {
    hide Pow;
    result := 1;
    var b := base % m;
    var e := exp;
    if exp > 0 {
      CongMod(base, m);
      PowCong(b, base, exp, m);
    }
    while e > 0
      invariant exp <= 0 ==> result == 1 && e == exp
      invariant exp > 0 ==> e >= 0 && Cong(result * Pow(b, e), Pow(base, exp), m)
      invariant exp > 0 && e == 0 ==> 0 <= result < m
      decreases e
    {
      SquareStep(result, b, e, m);
      if e % 2 == 1 {
        result := (result * b) % m;
      }
      b := (b * b) % m;
      e := e / 2;
    }
    if exp > 0 {
      PowZero(b);
      Remainder(result, 0, result, m);
    }
  }

  lemma {:induction false} PowZero(b: int)
    ensures Pow(b, 0) == 1
  {
  }

  // ---- Fermat's little theorem ---------------------------------------------

  /** The product of the members of s in 1..n. */
  function Product(s: set<int>, n: nat): int {
    if n == 0 then 1 else (if n in s then n else 1) * Product(s, n - 1)
  }

  lemma {:induction false} ProductInsert(s: set<int>, x: nat, n: nat)
    requires 1 <= x <= n && x !in s
    ensures Product(s + {x}, n) == x * Product(s, n)
  {
    if x == n {
      ProductIgnores(s, x, n - 1);
    } else {
      ProductInsert(s, x, n - 1);
      var f := if n in s then n else 1;
      assert Product(s + {x}, n) == f * Product(s + {x}, n - 1);
      SwapFactors(f, x, Product(s, n - 1));
    }
  }

  lemma {:induction false} SwapFactors(a: int, b: int, c: int)
    ensures a * (b * c) == b * (a * c)
  {
  }

  lemma {:induction false} ProductIgnores(s: set<int>, x: nat, n: nat)
    requires x > n
    ensures Product(s + {x}, n) == Product(s, n)
  {
    if n != 0 {
      ProductIgnores(s, x, n - 1);
    }
  }

  /** 1..n as a set. */
  function UpTo(n: nat): (s: set<int>)
    ensures |s| == n && forall x :: x in s <==> 1 <= x <= n
  {
    if n == 0 then {} else UpTo(n - 1) + {n}
  }

  /** The residues a, 2a, ..., ia. */
  function Multiples(a: int, i: nat, p: nat): set<int>
    requires p > 0
  {
    if i == 0 then {} else Multiples(a, i - 1, p) + {(a * i) % p}
  }

  lemma {:induction false} MultiplesMember(a: int, i: nat, p: nat, y: int)
    requires p > 0 && y in Multiples(a, i, p)
    ensures exists j :: 1 <= j <= i && y == (a * j) % p
  {
    if y == (a * i) % p {
    } else {
      MultiplesMember(a, i - 1, p, y);
    }
  }

  lemma {:induction false} NewMultiple(a: int, i: nat, p: nat)
    requires Prime(p) && a % p != 0 && 1 <= i < p
    ensures 1 <= (a * i) % p < p
    ensures (a * i) % p !in Multiples(a, i - 1, p)
  {
    hide Multiples, Prime;
    Remainder(i, 0, i, p);
    if (a * i) % p == 0 {
      Euclid(a, i, p);
    }
    if (a * i) % p in Multiples(a, i - 1, p) {
      MultiplesMember(a, i - 1, p, (a * i) % p);
      var j :| 1 <= j <= i - 1 && (a * i) % p == (a * j) % p;
      Cancel(a, i, j, p);
      Remainder(j, 0, j, p);
    }
  }

  /** The first i multiples are i different non-zero residues. */
  lemma {:induction false} MultiplesDistinct(a: int, i: nat, p: nat)
    requires Prime(p) && a % p != 0 && i < p
    ensures Multiples(a, i, p) <= UpTo(p - 1) && |Multiples(a, i, p)| == i
  {
    hide Prime;
    if i != 0 {
      MultiplesDistinct(a, i - 1, p);
      NewMultiple(a, i, p);
    }
  }

  /** One more multiple enters the product as a factor. */
  lemma {:induction false} MultiplesStep(a: int, i: nat, p: nat)
    requires Prime(p) && a % p != 0 && 1 <= i < p
    ensures Product(Multiples(a, i, p), p - 1) == ((a * i) % p) * Product(Multiples(a, i - 1, p), p - 1)
    ensures Pow(a, i) == a * Pow(a, i - 1)
  {
    hide Prime, Product;
    NewMultiple(a, i, p);
    ProductInsert(Multiples(a, i - 1, p), (a * i) % p, p - 1);
  }

  /** Their product is a^i times i factorial. */
  lemma {:induction false} MultiplesProduct(a: int, i: nat, p: nat)
    requires Prime(p) && a % p != 0 && i < p
    ensures Cong(Product(Multiples(a, i, p), p - 1), Pow(a, i) * Product(UpTo(i), i), p)
  {
    hide Prime;
    if i == 0 {
      EmptyProduct(p - 1);
    } else {
      hide Multiples, Product, UpTo, Pow;
      MultiplesProduct(a, i - 1, p);
      MultiplesStep(a, i, p);
      FactorialStep(i);
      NextProduct(
        a, i, Product(Multiples(a, i - 1, p), p - 1), Pow(a, i - 1), Product(UpTo(i - 1), i - 1), p);
    }
  }

  lemma {:induction false} NextProduct(a: int, i: int, q: int, w: int, below: int, p: nat)
    requires p > 0 && Cong(q, w * below, p)
    ensures Cong(((a * i) % p) * q, (a * w) * (i * below), p)
  {
    hide Cong;
    CongMod(a * i, p);
    CongMul((a * i) % p, a * i, q, w * below, p);
    Interchange(a, i, w, below);
  }

  lemma {:induction false} Interchange(a: int, b: int, c: int, d: int)
    ensures (a * b) * (c * d) == (a * c) * (b * d)
  {
  }

  lemma {:induction false} FactorialStep(i: nat)
    requires i >= 1
    ensures Product(UpTo(i), i) == i * Product(UpTo(i - 1), i - 1)
  {
    ProductIgnores(UpTo(i - 1), i, i - 1);
  }

  lemma {:induction false} EmptyProduct(n: nat)
    ensures Product({}, n) == 1
  {
    if n != 0 {
      EmptyProduct(n - 1);
    }
  }

  lemma {:induction false} ProductCoprime(i: nat, f: int, p: nat)
    requires Prime(p) && 0 < i < p && f % p != 0
    ensures (i * f) % p != 0
  {
    hide Prime;
    Remainder(i, 0, i, p);
    if (i * f) % p == 0 {
      Euclid(i, f, p);
    }
  }

  lemma {:induction false} NoFactors()
    ensures Product(UpTo(0), 0) == 1
  {
  }

  lemma {:induction false} FactorialCoprime(i: nat, p: nat)
    requires Prime(p) && i < p
    ensures Product(UpTo(i), i) % p != 0
  {
    hide Prime, Product, UpTo;
    PrimeBound(p);
    if i == 0 {
      NoFactors();
      Remainder(1, 0, 1, p);
    } else {
      FactorialCoprime(i - 1, p);
      FactorialStep(i);
      ProductCoprime(i, Product(UpTo(i - 1), i - 1), p);
    }
  }

  lemma {:induction false} FullSubset(s: set<int>, n: nat)
    requires s <= UpTo(n) && |s| == n
    ensures s == UpTo(n)
  {
    var rest := UpTo(n) - s;
    assert UpTo(n) == s + rest && |s + rest| == |s| + |rest|;
  }

  lemma {:induction false} Fermat(a: int, p: nat)
    requires Prime(p) && a % p != 0
    ensures Pow(a, p - 1) % p == 1
  {
    hide Prime, Product, UpTo, Multiples, Pow;
    PrimeBound(p);
    MultiplesDistinct(a, p - 1, p);
    MultiplesProduct(a, p - 1, p);
    FullSubset(Multiples(a, p - 1, p), p - 1);
    FactorialCoprime(p - 1, p);
    UnitFactor(Product(UpTo(p - 1), p - 1), Pow(a, p - 1), p);
  }

  lemma {:induction false} UnitFactor(f: int, w: int, p: nat)
    requires Prime(p) && f % p != 0 && Cong(f, w * f, p)
    ensures w % p == 1
  {
    hide Prime;
    PrimeBound(p);
    assert f * w == w * f && f * 1 == f;
    Cancel(f, w, 1, p);
    Remainder(1, 0, 1, p);
  }

  // ---- inverse and square root ---------------------------------------------

  /** modInv: null for zero, or when the power is not an inverse. */
  function ModInv(a: int, m: nat): Option<int>
    requires m > 0
  {
    if a == 0 then None
    else
      var inv := PowMod(a, m - 2, m);
      if (inv * a) % m != 1 then None else Some(inv)
  }

  /** Modulo a prime, modInv inverts everything but the multiples of the prime. */
  lemma {:induction false} ModInvPrime(a: int, p: nat)
    requires Prime(p)
    ensures ModInv(a, p).Some? <==> a % p != 0
    ensures a % p != 0 ==>
              var inv := ModInv(a, p).value;
              0 <= inv < p && inv % p != 0 && (inv * a) % p == 1
  {
    hide Prime, PowMod;
    PrimeBound(p);
    var inv := PowMod(a, p - 2, p);
    PowModRange(a, p - 2, p);
    if a % p != 0 {
      FermatInverse(a, p);
      ZeroFactor(inv, a, p);
    } else {
      ZeroFactor(a, inv, p);
    }
  }

  lemma {:induction false} FermatInverse(a: int, p: nat)
    requires Prime(p) && a % p != 0
    ensures p >= 2 && (PowMod(a, p - 2, p) * a) % p == 1
  {
    hide Prime, PowMod, Pow;
    PrimeBound(p);
    Fermat(a, p);
    PowModCong(a, p - 2, p);
    CongMul(PowMod(a, p - 2, p), Pow(a, p - 2), a, a, p);
    PowNext(a, p - 2);
  }

  lemma {:induction false} PowNext(a: int, e: nat)
    ensures Pow(a, e + 1) == Pow(a, e) * a
  {
  }

  /** A product with a factor that is zero modulo p is zero. */
  lemma {:induction false} ZeroFactor(a: int, b: int, p: nat)
    requires p > 0
    ensures a % p == 0 ==> (a * b) % p == 0 && (b * a) % p == 0
  {
    if a % p == 0 {
      var k := CongTo(a, 0, p);
      ThirdFactor(k, p, b);
      CongFrom(a * b, 0, k * b, p);
    }
  }

  lemma {:induction false} ThirdFactor(k: int, p: int, b: int)
    ensures (k * p) * b == (k * b) * p
  {
  }

  /** modSqrt, by the power (p + 1) / 4. */
  function ModSqrt(a: int, p: nat): Option<int>
    requires p > 0
  {
    var aa := a % p;
    if aa == 0 then Some(0)
    else
      var root := PowMod(aa, (p + 1) / 4, p);
      if (root * root) % p != aa then None else Some(root)
  }

  /** A square modulo a prime that is 3 mod 4 is found, as one of its two roots. */
  lemma {:induction false} ModSqrtOfSquare(a: int, y: int, p: nat)
    requires Prime(p) && p % 4 == 3 && Cong(a, y * y, p)
    ensures ModSqrt(a, p).Some?
    ensures var root := ModSqrt(a, p).value;
            0 <= root < p && (Cong(root, y, p) || Cong(root, -y, p))
  {
    hide Prime, Pow;
    var aa := a % p;
    CongMod(a, p);
    if aa == 0 {
      Euclid(y, y, p);
    } else {
      var root := PowMod(aa, (p + 1) / 4, p);
      if y % p == 0 {
        CongMul(y, 0, y, 0, p);
      }
      RootSquared(aa, y, p);
      hide PowMod;
      TwoRoots(root, y, p);
    }
  }

  predicate IsRoot(y: int, a: int, p: nat)
    requires p > 0
  {
    Cong(y * y, a, p)
  }

  /** Modulo a prime that is 3 mod 4, a root is found exactly where there is one. */
  lemma {:induction false} ModSqrtExactly(a: int, p: nat)
    requires Prime(p) && p % 4 == 3
    ensures ModSqrt(a, p).Some? <==> exists y :: IsRoot(y, a, p)
    ensures ModSqrt(a, p).Some? ==> 0 <= ModSqrt(a, p).value < p && IsRoot(ModSqrt(a, p).value, a, p)
  {
    hide Prime, PowMod, ModSqrt, Cong;
    if y :| IsRoot(y, a, p) {
      RootSquares(y, a, p);
      ModSqrtOfSquare(a, y, p);
    }
    if ModSqrt(a, p).Some? {
      PrimeBound(p);
      FoundIsRoot(a, p);
    }
  }

  lemma {:induction false} RootSquares(y: int, a: int, p: nat)
    requires p > 0 && IsRoot(y, a, p)
    ensures Cong(a, y * y, p)
  {
  }

  lemma {:induction false} FoundIsRoot(a: int, p: nat)
    requires p >= 2 && ModSqrt(a, p).Some?
    ensures 0 <= ModSqrt(a, p).value < p && IsRoot(ModSqrt(a, p).value, a, p)
  {
    hide PowMod;
    PowModRange(a % p, (p + 1) / 4, p);
    SquareOfZero(a, p);
  }

  lemma {:induction false} SquareOfZero(a: int, p: nat)
    requires p > 0
    ensures a % p == 0 ==> IsRoot(0, a, p)
  {
    Remainder(0, 0, 0, p);
  }

  /** Two square roots of one residue are equal or opposite. */
  lemma {:induction false} TwoRoots(x: int, y: int, p: nat)
    requires Prime(p) && Cong(x * x, y * y, p)
    ensures Cong(x, y, p) || Cong(x, -y, p)
  {
    hide Prime;
    PrimeBound(p);
    var k := CongTo(x * x, y * y, p);
    assert (x - y) * (x + y) == x * x - y * y;
    CongFrom((x - y) * (x + y), 0, k, p);
    Euclid(x - y, x + y, p);
    if (x - y) % p == 0 {
      CongAdd(x - y, 0, y, y, p);
    } else {
      CongSub(x + y, 0, y, y, p);
    }
  }

  lemma {:induction false} RootSquared(aa: int, y: int, p: nat)
    requires Prime(p) && p % 4 == 3 && y % p != 0 && Cong(aa, y * y, p)
    ensures var root := PowMod(aa, (p + 1) / 4, p); Cong(root * root, y * y, p)
  {
    hide Prime, Pow, PowMod, Cong;
    PrimeBound(p);
    var e := (p + 1) / 4;
    var root := PowMod(aa, e, p);
    PowModCong(aa, e, p);
    RootPower(root, aa, y, e, p);
    FermatSquare(y, 2 * e + 2 * e, p);
    CongTrans(root * root, Pow(y, 2 * e + 2 * e), y * y, p);
  }

  /** The square of an e-th power of a square is a 4e-th power. */
  lemma {:induction false} RootPower(root: int, aa: int, y: int, e: nat, p: nat)
    requires p > 0 && Cong(root, Pow(aa, e), p) && Cong(aa, y * y, p)
    ensures Cong(root * root, Pow(y, 2 * e + 2 * e), p)
  {
    hide Pow, Cong;
    PowCong(aa, y * y, e, p);
    PowSquare(y, e);
    CongTrans(root, Pow(aa, e), Pow(y, 2 * e), p);
    CongMul(root, Pow(y, 2 * e), root, Pow(y, 2 * e), p);
    PowSum(y, 2 * e, 2 * e);
  }

  /** By Fermat, the power p + 1 is the square. */
  lemma {:induction false} FermatSquare(y: int, e: nat, p: nat)
    requires Prime(p) && y % p != 0 && e == p + 1
    ensures p >= 2 && Cong(Pow(y, e), y * y, p)
  {
    hide Prime, Pow;
    PrimeBound(p);
    PowSum(y, 2, p - 1);
    PowTwo(y);
    Fermat(y, p);
    Remainder(1, 0, 1, p);
    CongMul(y * y, y * y, Pow(y, p - 1), 1, p);
  }
}
