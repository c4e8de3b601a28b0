/** Ratios of integer formulas. */
module Ratios {

  function Abs(x: int): nat {
    if x < 0 then -x else x
  }

  function Gcd(a: nat, b: nat): (g: nat)
    ensures a > 0 || b > 0 ==> g > 0
    decreases b
  {
    if b == 0 then a else Gcd(b, a % b)
  }

  ghost predicate Divides(x: int, y: int) {
    exists k: int :: y == k * x
  }

  lemma {:induction false} GcdDivides(a: nat, b: nat)
    ensures Divides(Gcd(a, b), a) && Divides(Gcd(a, b), b)
    decreases b
  {
    if b == 0 {
      assert a == 1 * a;
      assert b == 0 * a;
    } else {
      GcdDivides(b, a % b);
      var g := Gcd(a, b);
      var k: int :| b == k * g;
      var m: int :| a % b == m * g;
      assert a == (a / b * k + m) * g by {
        assert a == a / b * b + a % b;
        assert a / b * (k * g) == (a / b * k) * g;
      }
    }
  }

  /** The greatest common divisor is a combination of both numbers. */
  lemma {:induction false} Bezout(a: nat, b: nat) returns (x: int, y: int)
    ensures x * a + y * b == Gcd(a, b)
    decreases b
  {
    if b == 0 {
      x, y := 1, 0;
    } else {
      var v, w := Bezout(b, a % b);
      x, y := w, v - a / b * w;
      assert a % b == a - a / b * b;
      assert v * b + w * (a - a / b * b) == w * a + (v - a / b * w) * b;
    }
  }

  /** Every common divisor divides it. */
  lemma GcdIsGreatest(a: nat, b: nat, c: int)
    requires Divides(c, a) && Divides(c, b)
    ensures Divides(c, Gcd(a, b))
  {
    var x, y := Bezout(a, b);
    var k: int :| a == k * c;
    var m: int :| b == m * c;
    Factored(x, k, y, m, c);
  }

  predicate Coprime(a: int, b: int) {
    Gcd(Abs(a), Abs(b)) == 1
  }

  lemma CoprimeBezout(a: int, b: int) returns (x: int, y: int)
    requires Coprime(a, b)
    ensures x * a + y * b == 1
  {
    var v, w := Bezout(Abs(a), Abs(b));
    x, y := if a < 0 then -v else v, if b < 0 then -w else w;
    assert x * a == v * Abs(a) && y * b == w * Abs(b);
  }

  lemma Combine(m: int, x: int, a: int, y: int, b: int)
    ensures m * (x * a + y * b) == m * x * a + y * (m * b)
  {
    assert m * (y * b) == y * (m * b);
  }

  /** A number that divides a product and has nothing in common with one factor divides the other. */
  lemma CoprimeDivides(a: int, b: int, m: int)
    requires Coprime(a, b) && Divides(a, m * b)
    ensures Divides(a, m)
  {
    var x, y := CoprimeBezout(a, b);
    var k: int :| m * b == k * a;
    assert m == m * (x * a + y * b) == m * x * a + y * (m * b) by {
      Combine(m, x, a, y, b);
    }
    assert y * (k * a) == y * k * a;
    assert m == (m * x + y * k) * a;
  }

  /** Euclid's algorithm, started from the smaller argument. */
  method GreatestCommonDenominator(arg1: nat, arg2: nat) returns (a: nat)
    ensures arg1 == 0 || arg2 == 0 ==> a == 0
    ensures arg1 > 0 && arg2 > 0 ==> a == Gcd(arg1, arg2) && Divides(a, arg1) && Divides(a, arg2)
    ensures arg1 > 0 && arg2 > 0 ==> forall c: int | Divides(c, arg1) && Divides(c, arg2) :: Divides(c, a)
  {
    if arg1 > 0 && arg2 > 0 {
      GcdDivides(arg1, arg2);
      forall c: int | Divides(c, arg1) && Divides(c, arg2) ensures Divides(c, Gcd(arg1, arg2)) {
        GcdIsGreatest(arg1, arg2, c);
      }
    }
    if arg1 == 0 || arg2 == 0 {
      return 0;
    }
    var b: nat;
    if arg1 > arg2 {
      a, b := arg2, arg1 % arg2;
    } else {
      a, b := arg1, arg2 % arg1;
      GcdSwaps(arg1, arg2);
    }
    while b != 0
      invariant Gcd(a, b) == Gcd(arg1, arg2)
      decreases b
    {
      a, b := b, a % b;
    }
  }

  lemma GcdSwaps(a: nat, b: nat)
    requires 0 < a <= b
    ensures Gcd(a, b) == Gcd(a, b % a)
  {
    if a == b {
      assert a % b == 0 && Gcd(a, b) == Gcd(b, 0);
    } else {
      assert a % b == a;
      assert Gcd(a, b) == Gcd(b, a) == Gcd(a, b % a);
    }
  }

  datatype Ratio = None | Ratio(f1: int, f2: int)

  /** Two constants in lowest terms; a common sign is dropped, and a zero has no ratio to anything but zero. */
  function HasIntegerRatio(c1: int, c2: int): Ratio {
    if c1 == 0 && c2 == 0 then Ratio(0, 0)
    else if c1 == 0 || c2 == 0 then None
    else Ratio(c1 / Unit(c1, c2), c2 / Unit(c1, c2))
  }

  /** What both constants are multiples of: their greatest common divisor, with the sign that they share. */
  function Unit(c1: int, c2: int): (u: int)
    requires c1 != 0 && c2 != 0
    ensures u != 0
  {
    var g: int := Gcd(Abs(c1), Abs(c2));
    if c1 < 0 && c2 < 0 then -g else g
  }

  lemma ExactQuotient(x: int, k: int, u: int)
    requires u != 0 && x == k * u
    ensures x / u == k
  {
    assert x == x / u * u + x % u && 0 <= x % u < Abs(u);
    assert (k - x / u) * u == x % u;
    NoSmallMultiple(k - x / u, u);
  }

  lemma NoSmallMultiple(k: int, u: int)
    ensures k == 0 || Abs(k * u) >= Abs(u)
  {
    AbsProduct(k, u);
    if k != 0 {
      var m: nat := Abs(k) - 1;
      assert Abs(k) * Abs(u) == m * Abs(u) + Abs(u);
      NatProduct(m, Abs(u));
    }
  }

  lemma NatProduct(m: nat, n: nat)
    ensures m * n >= 0
  {
  }

  lemma DividesAbs(g: int, x: int)
    requires Divides(g, Abs(x))
    ensures Divides(g, x)
  {
    var k: int :| Abs(x) == k * g;
    if x < 0 {
      assert x == (-k) * g;
    }
  }

  lemma SignOfProduct(k: int, u: int)
    requires k != 0 && u != 0
    ensures k * u != 0 && (k * u > 0 <==> (k > 0 <==> u > 0))
  {
  }

  lemma RatioOf(c1: int, c2: int)
    requires c1 != 0 && c2 != 0
    ensures var r, u := HasIntegerRatio(c1, c2), Unit(c1, c2);
      && r.Ratio? && c1 == r.f1 * u && c2 == r.f2 * u && r.f1 != 0 && r.f2 != 0
      && (r.f1 > 0 || r.f2 > 0) && (u < 0 <==> c1 < 0 && c2 < 0)
      && Coprime(r.f1, r.f2) && forall c: int | Divides(c, c1) && Divides(c, c2) :: Divides(c, u)
  {
    var g, u := Gcd(Abs(c1), Abs(c2)), Unit(c1, c2);
    GcdDivides(Abs(c1), Abs(c2));
    DividesAbs(g, c1);
    DividesAbs(g, c2);
    var k: int :| c1 == k * g;
    var m: int :| c2 == m * g;
    if u == g {
      ExactQuotient(c1, k, u);
      ExactQuotient(c2, m, u);
    } else {
      assert c1 == (-k) * u && c2 == (-m) * u;
      ExactQuotient(c1, -k, u);
      ExactQuotient(c2, -m, u);
    }
    var r := HasIntegerRatio(c1, c2);
    SignOfProduct(r.f1, u);
    SignOfProduct(r.f2, u);
    FactorsCoprime(r.f1, r.f2, u);
    forall c: int | Divides(c, c1) && Divides(c, c2) ensures Divides(c, u) {
      DividesOfAbs(c, c1);
      DividesOfAbs(c, c2);
      GcdIsGreatest(Abs(c1), Abs(c2), c);
      DividesAbs(c, u);
    }
  }

  lemma DividesOfAbs(c: int, x: int)
    requires Divides(c, x)
    ensures Divides(c, Abs(x))
  {
    var k: int :| x == k * c;
    if x < 0 {
      assert -x == (-k) * c;
    }
  }

  lemma CancelUnit(t: int, w: nat)
    requires w > 0 && w == t * w
    ensures t == 1
  {
    NoSmallMultiple(t - 1, w);
    assert (t - 1) * w == t * w - w;
  }

  lemma UnitCombination(x: int, a: nat, y: int, b: nat)
    requires x * a + y * b == 1
    ensures Gcd(a, b) == 1
  {
    GcdDivides(a, b);
    assert a > 0 || b > 0;
    var h := Gcd(a, b);
    var k: int :| a == k * h;
    var m: int :| b == m * h;
    Factored(x, k, y, m, h);
    NoSmallMultiple(x * k + y * m, h);
  }

  lemma Factored(x: int, k: int, y: int, m: int, h: int)
    ensures x * (k * h) + y * (m * h) == (x * k + y * m) * h
  {
    assert x * (k * h) == x * k * h;
    assert y * (m * h) == y * m * h;
  }

  /** What is left after the greatest common divisor has been taken out has nothing in common. */
  lemma FactorsCoprime(f1: int, f2: int, u: int)
    requires u != 0 && Abs(u) == Gcd(Abs(f1 * u), Abs(f2 * u))
    ensures Coprime(f1, f2)
  {
    var x, y := Bezout(Abs(f1 * u), Abs(f2 * u));
    AbsProduct(f1, u);
    AbsProduct(f2, u);
    Factored(x, Abs(f1), y, Abs(f2), Abs(u));
    CancelUnit(x * Abs(f1) + y * Abs(f2), Abs(u));
    UnitCombination(x, Abs(f1), y, Abs(f2));
  }

  /** The second factor is a unit exactly when the second constant divides the first. */
  lemma UnitFactor(c1: int, c2: int)
    requires c1 != 0 && c2 != 0
    ensures var r := HasIntegerRatio(c1, c2);
      && (r.f2 == 1 || r.f2 == -1 <==> Divides(c2, c1))
      && (r.f2 == 1 || r.f2 == -1 ==> c1 == r.f1 * r.f2 * c2)
      && (r.f2 == 1 && r.f1 > 0 <==> Divides(c2, c1) && (c1 > 0 <==> c2 > 0))
  {
    RatioOf(c1, c2);
    var r, u := HasIntegerRatio(c1, c2), Unit(c1, c2);
    if r.f2 == 1 || r.f2 == -1 {
      assert c1 == (r.f1 * r.f2) * c2;
    }
    if Divides(c2, c1) {
      var k: int :| c1 == k * c2;
      AbsProduct(k, c2);
      MultipleMod(Abs(c1), Abs(k), Abs(c2));
      assert Gcd(Abs(c1), Abs(c2)) == Gcd(Abs(c2), 0) == Abs(c2);
      assert u == c2 || u == -c2;
      ExactQuotient(c2, if u == c2 then 1 else -1, u);
      if c1 > 0 <==> c2 > 0 {
        assert u == c2 && k > 0;
        ExactQuotient(c1, k, u);
      } else {
        assert k < 0;
        assert r.f2 == 1 ==> c2 == u && r.f1 * c2 == k * c2;
      }
    }
  }

  lemma AbsProduct(k: int, c: int)
    ensures Abs(k * c) == Abs(k) * Abs(c)
  {
  }

  lemma MultipleMod(x: nat, k: nat, m: nat)
    requires m > 0 && x == k * m
    ensures x % m == 0
  {
    ExactQuotient(x, k, m);
  }
}

/** When two strided references touch the same place, in lowest terms: x + i * a == j * b. */
module Meetings {
  import opened Ratios

  /** The places: node touches f + i * s in iteration i, nodeB touches o + j * t in iteration j. */
  datatype Refs = Refs(f: int, s: int, o: int, t: int)

  predicate Meets(r: Refs, i: int, j: int) {
    r.f + i * r.s == r.o + j * r.t
  }

  ghost predicate Scaled(r: Refs, d: int, a: int, b: int, g: int) {
    g != 0 && r.f - r.o == d * g && r.s == a * g && r.t == b * g
  }

  lemma MeetsScaled(r: Refs, d: int, a: int, b: int, g: int, i: int, j: int)
    requires Scaled(r, d, a, b, g)
    ensures Meets(r, i, j) <==> d + i * a == j * b
  {
    assert (r.f + i * r.s) - (r.o + j * r.t) == (d + i * a - j * b) * g;
    NoSmallMultiple(d + i * a - j * b, g);
  }

  ghost predicate NoneMeet(r: Refs, n: nat) {
    forall i, j | 0 <= i < n && 0 <= j < n :: !Meets(r, i, j)
  }

  /** A dependence edge, from node to nodeB when forward and else the other way. */
  datatype Dep = Dep(forward: bool, distance: int, level: int)

  /** The edge for node in iteration i and nodeB in iteration j. */
  function DepOf(i: int, j: int): Dep {
    if i == j then Dep(false, 0, 0) else if j < i then Dep(false, i - j, 1) else Dep(true, j - i, 1)
  }

  ghost predicate Witnessed(r: Refs, n: nat, e: Dep) {
    exists i, j :: 0 <= i < n && 0 <= j < n && Meets(r, i, j) && e == DepOf(i, j)
  }

  lemma Witness(r: Refs, n: nat, i: int, j: int)
    requires 0 <= i < n && 0 <= j < n && Meets(r, i, j)
    ensures Witnessed(r, n, DepOf(i, j))
  {
  }

  function Floor(x: nat, y: nat): nat
    requires y > 0
  {
    x / y
  }

  function Ceil(x: nat, y: nat): nat
    requires y > 0
  {
    if x % y == 0 then x / y else x / y + 1
  }

  lemma FloorCeil(x: nat, y: nat)
    requires y > 0
    ensures Floor(x, y) * y <= x < Floor(x, y) * y + y
    ensures x <= Ceil(x, y) * y < x + y
    ensures Floor(x, y) <= Ceil(x, y) <= Floor(x, y) + 1
    ensures Floor(x, y) == Ceil(x, y) ==> Floor(x, y) * y == x
  {
    assert x == x / y * y + x % y;
    assert (x / y + 1) * y == x / y * y + y;
  }

  lemma MulLe(a: int, b: int, c: nat)
    requires a <= b
    ensures a * c <= b * c
  {
    NatProduct(b - a, c);
    assert b * c - a * c == (b - a) * c;
  }

  lemma MulLeBack(a: int, b: int, c: int)
    requires c > 0 && a * c <= b * c
    ensures a <= b
  {
    if b < a {
      MulLe(b + 1, a, c);
    }
  }

  lemma MulLtBack(a: int, b: int, c: int)
    requires c > 0 && a * c < b * c
    ensures a < b
  {
    if b <= a {
      MulLe(b, a, c);
    }
  }

  /** References that start apart and move apart never meet. */
  lemma ApartNeverMeet(d: int, a: int, b: int, i: nat, j: nat)
    requires (d > 0 && a > 0 && b < 0) || (d < 0 && a < 0 && b > 0)
    ensures d + i * a != j * b
  {
    if d > 0 {
      MulLe(0, a, i);
      MulLe(b, 0, j);
    } else {
      MulLe(a, 0, i);
      MulLe(0, b, j);
    }
  }

  /** References that move towards each other meet no sooner than half way. */
  lemma TowardsMeetLate(d: nat, p: nat, b: nat, n: nat, i: nat, j: nat)
    requires p > 0 && b > 0 && i < n && j < n && n <= Ceil(d, b + p)
    ensures d - i * p != j * b
  {
    FloorCeil(d, b + p);
    MulLe(i, n - 1, p);
    MulLe(j, n - 1, b);
    MulLe(n, Ceil(d, b + p), b + p);
    assert n * (b + p) == (n - 1) * p + (n - 1) * b + (b + p);
  }

  /** Half way, rounded down, the moving reference has not yet come to the start of the other. */
  lemma TowardsBefore(d: nat, p: nat, b: nat)
    requires d > 0 && p > 0 && b > 0
    ensures d - Floor(d, b + p) * p > 0
  {
    var l := Floor(d, b + p);
    FloorCeil(d, b + p);
    assert l * (b + p) == l * b + l * p;
    if l > 0 {
      MulLe(1, l, b);
    }
  }

  /** With d places to catch up at b a step, nothing meets in fewer steps. */
  lemma CatchUpLate(d: nat, a: nat, b: nat, n: nat, i: nat, j: nat)
    requires b > 0 && j < n && n <= Ceil(d, b)
    ensures d + i * a != j * b
  {
    FloorCeil(d, b);
    MulLe(n, Ceil(d, b), b);
    MulLe(j, n - 1, b);
    assert n * b == (n - 1) * b + b;
    NatProduct(i, a);
  }

  /** When the leader is the faster, the distance at the start is the least. */
  lemma GrowingIsLeast(d: nat, a: nat, b: nat, k: nat, i: nat, j: nat)
    requires d > 0 && a > b > 0 && d + i * a == j * b
    ensures j > i
    ensures d == k * b ==> j - i >= k
  {
    MulLe(b, a, i);
    MulLtBack(i, j, b);
    if d == k * b {
      assert (j - i) * b == d + i * a - i * b;
      MulLeBack(k, j - i, b);
    }
  }

  /** When the follower is the faster, it has passed the start of the leader by the time it catches up. */
  lemma ShrinkingPassed(d: nat, a: nat, b: nat)
    requires d > 0 && 0 < a < b
    ensures Ceil(d, b - a) * b - d > 0
  {
    var c := Ceil(d, b - a);
    FloorCeil(d, b - a);
    assert c * b == c * (b - a) + c * a;
    MulLtBack(0, c, b - a);
    MulLe(1, c, a);
  }

  /** When it does not catch up in time, it has passed the start in its last iteration m and is still behind. */
  lemma ShrinkingLast(d: nat, a: nat, b: nat, m: nat, i: int)
    requires d > 0 && 0 < a < b && Ceil(d, b) <= m < Floor(d, b - a)
    requires i * a == m * b - d
    ensures 0 <= i < m
  {
    FloorCeil(d, b);
    MulLe(Ceil(d, b), m, b);
    MulLeBack(0, i, a);
    StillBehind(d, b - a, m);
    assert m * b - m * a == m * (b - a);
    MulLtBack(i, m, a);
  }

  lemma StillBehind(d: nat, y: nat, m: nat)
    requires y > 0 && m < Floor(d, y)
    ensures m * y < d
  {
    FloorCeil(d, y);
    MulLe(m + 1, Floor(d, y), y);
    assert (m + 1) * y == m * y + y;
  }

  /** A follower never needs longer than from the start: no meeting is farther apart than d / b. */
  lemma ShrinkingIsBounded(d: nat, a: nat, b: nat, i: nat, j: nat)
    requires d > 0 && 0 < a < b && d + i * a == j * b
    ensures (j - i) * b <= d
  {
    MulLe(a, b, i);
    assert (j - i) * b == d + i * a - i * b;
  }

  /** What the ratio of two scaled constants says about their unscaled values. */
  lemma ScaledRatio(q: int, e: int, g: int)
    requires g != 0 && e != 0
    ensures q == 0 ==> HasIntegerRatio(q * g, e * g) == None
    ensures q != 0 ==> var r := HasIntegerRatio(q * g, e * g);
      && r.Ratio? && (r.f2 == 1 || r.f2 == -1 <==> Divides(e, q))
      && (r.f2 == 1 || r.f2 == -1 ==> q == r.f1 * r.f2 * e)
      && (r.f2 == 1 && r.f1 > 0 <==> Divides(e, q) && (q > 0 <==> e > 0))
      && (e * g > 0 ==> r.f2 > 0) && (e * g < 0 && q * g > 0 ==> r.f2 < 0)
  {
    SignOfProduct(e, g);
    if q == 0 {
      assert q * g == 0;
    } else {
      SignOfProduct(q, g);
      var r := HasIntegerRatio(q * g, e * g);
      RatioOf(q * g, e * g);
      UnitFactor(q * g, e * g);
      DividesScaled(e, q, g);
      var m := r.f1 * r.f2;
      if r.f2 == 1 || r.f2 == -1 {
        assert (q - m * e) * g == q * g - m * (e * g);
        NoSmallMultiple(q - m * e, g);
      }
      SignOfProduct(r.f2, Unit(q * g, e * g));
    }
  }

  lemma DividesScaled(e: int, q: int, g: int)
    requires g != 0
    ensures Divides(e * g, q * g) <==> Divides(e, q)
  {
    if Divides(e, q) {
      var k: int :| q == k * e;
      assert q * g == k * (e * g);
    }
    if Divides(e * g, q * g) {
      var k: int :| q * g == k * (e * g);
      assert (q - k * e) * g == 0;
      NoSmallMultiple(q - k * e, g);
      assert q == k * e;
    }
  }
}
