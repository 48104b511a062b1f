// Integers modulo m: the arithmetic that MPInt's AddMod, SubMod, MulMod and
// InvertMod perform, and the congruence reasoning every other module builds on.
module ModArith {

  ghost predicate Cong(a: int, b: int, m: int)
    requires m > 0
  {
    a % m == b % m
  }

  // The quotient is the only integer k with 0 <= a - k*m < m.
  lemma ModUnique(a: int, k: int, r: int, m: int)
    requires 0 <= r < m && a == k * m + r
    ensures a % m == r && a / m == k
  {
    var k', r' := a / m, a % m;
    assert (k - k') * m == r' - r;
    if k > k' {
      MulGe(k - k', m);
    } else if k < k' {
      MulGe(k' - k, m);
    }
  }

  lemma MulGe(x: int, m: int)
    requires x >= 1 && m >= 0
    ensures x * m >= m
  {
    assert x * m == (x - 1) * m + m;
    assert (x - 1) * m >= 0;
  }

  // Two integers are congruent when they differ by a multiple of m.
  lemma CongIntro(a: int, b: int, k: int, m: int)
    requires m > 0 && a - b == k * m
    ensures Cong(a, b, m)
  {
    var q := b / m;
    assert b == q * m + b % m;
    assert a == (q + k) * m + b % m;
    ModUnique(a, q + k, b % m, m);
  }

  lemma CongElim(a: int, b: int, m: int) returns (k: int)
    requires m > 0 && Cong(a, b, m)
    ensures a - b == k * m
  {
    k := a / m - b / m;
    assert a == (a / m) * m + a % m;
    assert b == (b / m) * m + b % m;
  }

  lemma ModCong(a: int, m: int)
    requires m > 0
    ensures Cong(a % m, a, m)
  {
    assert a == (a / m) * m + a % m;
    assert a % m - a == (-(a / m)) * m;
    CongIntro(a % m, a, -(a / m), m);
  }

  lemma AddCong(a: int, b: int, c: int, d: int, m: int)
    requires m > 0 && Cong(a, b, m) && Cong(c, d, m)
    ensures Cong(a + c, b + d, m)
  {
    var k := CongElim(a, b, m);
    var l := CongElim(c, d, m);
    assert (a + c) - (b + d) == (k + l) * m;
    CongIntro(a + c, b + d, k + l, m);
  }

  lemma SubCong(a: int, b: int, c: int, d: int, m: int)
    requires m > 0 && Cong(a, b, m) && Cong(c, d, m)
    ensures Cong(a - c, b - d, m)
  {
    var k := CongElim(a, b, m);
    var l := CongElim(c, d, m);
    assert (a - c) - (b - d) == (k - l) * m;
    CongIntro(a - c, b - d, k - l, m);
  }

  lemma MulCong(a: int, b: int, c: int, d: int, m: int)
    requires m > 0 && Cong(a, b, m) && Cong(c, d, m)
    ensures Cong(a * c, b * d, m)
  {
    var k := CongElim(a, b, m);
    var l := CongElim(c, d, m);
    calc {
      a * c - b * d;
      (b + k * m) * c - b * d;
      { MulDist(b, k * m, c); }
      b * c + (k * m) * c - b * d;
      { assert c == d + l * m; MulDist3(b, d, l * m); }
      b * (l * m) + (k * m) * c;
      { MulSwap(b, l, m); MulSwap2(k, m, c); }
      (b * l) * m + (k * c) * m;
      { MulDist(b * l, k * c, m); }
      (b * l + k * c) * m;
    }
    CongIntro(a * c, b * d, b * l + k * c, m);
  }

  lemma MulDist(x: int, y: int, z: int)
    ensures (x + y) * z == x * z + y * z
  {
  }

  lemma MulDist3(x: int, y: int, z: int)
    ensures x * (y + z) == x * y + x * z
  {
  }

  lemma MulSwap(x: int, y: int, z: int)
    ensures x * (y * z) == (x * y) * z
  {
  }

  lemma MulSwap2(x: int, y: int, z: int)
    ensures (x * y) * z == (x * z) * y
  {
  }

  lemma MulRotate(x: int, y: int, z: int)
    ensures (x * y) * z == x * (z * y)
  {
    MulSwap(x, y, z);
    assert y * z == z * y;
  }

  // Replacing both factors of a product.
  lemma MulThrough(r: int, a: int, b: int, a': int, b': int, m: int)
    requires m > 0 && Cong(r, a * b, m) && Cong(a, a', m) && Cong(b, b', m)
    ensures Cong(r, a' * b', m)
  {
    MulCong(a, a', b, b', m);
  }

  lemma CongSmall(a: int, b: int, m: int)
    requires m > 0 && Cong(a, b, m) && 0 <= a < m && 0 <= b < m
    ensures a == b
  {
    ModUnique(a, 0, a, m);
    ModUnique(b, 0, b, m);
  }

  lemma CongRefl(a: int, m: nat)
    requires m > 0
    ensures Cong(a, a, m)
  {
  }

  lemma CongTrans(a: int, b: int, c: int, m: nat)
    requires m > 0 && Cong(a, b, m) && Cong(b, c, m)
    ensures Cong(a, c, m)
  {
  }

  lemma NegCong(a: int, b: int, m: nat)
    requires m > 0 && Cong(a, b, m)
    ensures Cong(-a, -b, m)
  {
    SubCong(0, 0, a, b, m);
  }

  lemma AddThrough(r: int, a: int, b: int, x: int, y: int, m: nat)
    requires m > 0 && Cong(r, a + b, m) && Cong(a, x, m) && Cong(b, y, m)
    ensures Cong(r, x + y, m)
  {
    AddCong(a, x, b, y, m);
  }

  lemma CongSym(a: int, b: int, m: nat)
    requires m > 0 && Cong(a, b, m)
    ensures Cong(b, a, m)
  {
  }

  // ---- The operations of MPInt -------------------------------------------

  function AddMod(a: int, b: int, m: int): (r: int)
    requires m > 0
    ensures 0 <= r < m && Cong(r, a + b, m)
  {
    ModCong(a + b, m);
    (a + b) % m
  }

  function SubMod(a: int, b: int, m: int): (r: int)
    requires m > 0
    ensures 0 <= r < m && Cong(r, a - b, m)
  {
    ModCong(a - b, m);
    (a - b) % m
  }

  function MulMod(a: int, b: int, m: int): (r: int)
    requires m > 0
    ensures 0 <= r < m && Cong(r, a * b, m)
  {
    ModCong(a * b, m);
    (a * b) % m
  }

  function Mod(a: int, m: int): (r: int)
    requires m > 0
    ensures 0 <= r < m && Cong(r, a, m)
  {
    ModCong(a, m);
    a % m
  }

  // ---- Primes and inverses -----------------------------------------------

  ghost predicate Divides(d: int, n: int)
    requires d > 0
  {
    n % d == 0
  }

  ghost predicate IsPrime(p: int) {
    2 <= p && forall d :: 2 <= d < p ==> !Divides(d, p)
  }

  // The modular inverse, by the recurrence p = q*r + s, so r*(-q) = s mod p.
  function InvertMod(a: int, p: int): (b: int)
    requires IsPrime(p) && a % p != 0
    ensures 0 <= b < p && Cong(a * b, 1, p)
    decreases a % p
  {
    var r := a % p;
    if r == 1 then
      InverseOfOne(a, p);
      1
    else
      PrimeRemainder(r, p);
      var t := InvertMod(p % r, p);
      InverseStep(a, r, p / r, p % r, t, p);
      Mod(-(p / r) * t, p)
  }

  lemma InverseOfOne(a: int, p: int)
    requires p >= 2 && a % p == 1
    ensures Cong(a * 1, 1, p)
  {
    SmallMod(1, p);
  }

  lemma PrimeRemainder(r: int, p: int)
    requires IsPrime(p) && 2 <= r < p
    ensures 0 < p % r < r && (p % r) % p == p % r
  {
    assert !Divides(r, p);
    SmallMod(p % r, p);
  }

  lemma SmallMod(s: int, p: int)
    requires 0 <= s < p
    ensures s % p == s
  {
    ModUnique(s, 0, s, p);
  }

  lemma InverseStep(a: int, r: int, q: int, s: int, t: int, p: int)
    requires p > 0 && r == a % p && p == q * r + s && Cong(s * t, 1, p)
    ensures Cong(a * Mod(-q * t, p), 1, p)
  {
    hide Cong;
    ModCong(a, p);
    CongSym(r, a, p);
    MulCong(a, r, Mod(-q * t, p), -q * t, p);
    InverseMultiple(r, q, s, t, p);
    CongIntro(r * (-q * t), s * t, -t, p);
    CongTrans(r * (-q * t), s * t, 1, p);
    CongTrans(a * Mod(-q * t, p), r * (-q * t), 1, p);
  }

  lemma InverseMultiple(r: int, q: int, s: int, t: int, p: int)
    requires p == q * r + s
    ensures r * (-q * t) - s * t == (-t) * p
  {
    assert r * (-q * t) == -(q * r) * t;
    assert -(q * r) * t - s * t == -((q * r + s) * t);
  }

  // A prime field has no zero divisors.
  lemma {:induction false} NoZeroDivisors(a: int, b: int, p: int)
    requires IsPrime(p) && Cong(a * b, 0, p) && !Cong(a, 0, p)
    ensures Cong(b, 0, p)
  {
    SmallMod(0, p);
    var i := InvertMod(a, p);
    MulCong(a * b, 0, i, i, p);
    MulCong(a * i, 1, b, b, p);
    assert a * b * i == a * i * b by { MulSwap2(a, b, i); }
  }
}
