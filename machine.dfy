/** The fixed-width integer types of the C++ source and the few C++ integer
    operators whose meaning differs from Dafny's unbounded, Euclidean ones. */
module Machine {

  type byte = x: int | 0 <= x < 0x100
  type int16 = x: int | -0x8000 <= x < 0x8000
  type uint16 = x: int | 0 <= x < 0x1_0000
  type int32 = x: int | -0x8000_0000 <= x < 0x8000_0000
  type uint32 = x: int | 0 <= x < 0x1_0000_0000

  function Abs(x: int): nat { if x < 0 then -x else x }

  /** C++ `/` on integers: the quotient is truncated toward zero, so the
      remainder `a - q * d` is smaller than the divisor in magnitude and is
      zero or has the sign of the dividend. */
  function TruncDiv(a: int, d: int): (q: int)
    requires d != 0
    ensures Abs(a - q * d) < Abs(d)
    ensures a - q * d == 0 || (a - q * d < 0 <==> a < 0)
    ensures Abs(q * d) <= Abs(a)
  {
    var q := if (a < 0) == (d < 0) then Abs(a) / Abs(d) else -(Abs(a) / Abs(d));
    TruncDivProduct(a, d, q);
    q
  }

  /** The product `q * d` of the truncated quotient `q` is a multiple `p` of
      `Abs(d)` with `p <= Abs(a) < p + Abs(d)`, carrying the sign of `a`. */
  lemma TruncDivProduct(a: int, d: int, q: int)
    requires d != 0
    requires q == if (a < 0) == (d < 0) then Abs(a) / Abs(d) else -(Abs(a) / Abs(d))
    ensures Abs(a - q * d) < Abs(d)
    ensures a - q * d == 0 || (a - q * d < 0 <==> a < 0)
    ensures Abs(q * d) <= Abs(a)
  {
    var p0 := ProductOfQuotient(Abs(a), Abs(d));
    var p: int, m: int, k: int := p0, Abs(d), Abs(a) / Abs(d);
    if d > 0 {
      assert q * d == (if a < 0 then -k else k) * m;
    } else {
      assert q * d == (if a < 0 then k else -k) * -m;
    }
    assert q * d == (if a < 0 then -p else p) by {
      assert (-k) * m == -(k * m);
      assert k * -m == -(k * m);
      assert (-k) * -m == k * m;
    }
  }

  lemma ProductOfQuotient(n: nat, m: nat) returns (p: nat)
    requires m > 0
    ensures p == (n / m) * m
    ensures p <= n < p + m
  {
    p := (n / m) * m;
  }

  /** C++ `%` on integers: the remainder that goes with `TruncDiv`. */
  function TruncMod(a: int, d: int): (m: int)
    requires d != 0
    ensures a == TruncDiv(a, d) * d + m
    ensures Abs(m) < Abs(d)
    ensures m == 0 || (m < 0 <==> a < 0)
  {
    a - TruncDiv(a, d) * d
  }

  /** For a non-negative dividend and a positive divisor C++'s operators agree
      with Dafny's. */
  lemma {:induction false} TruncAgrees(a: int, d: int)
    requires a >= 0 && d > 0
    ensures TruncDiv(a, d) == a / d && TruncMod(a, d) == a % d
  {
  }

  /** The conversion `static_cast<uint8_t>` (and the implicit one on assignment
      to a `uint8_t`): keeps the low 8 bits, so values already in 0..255 pass
      unchanged and the result differs from the input by a multiple of 256. */
  function Low8(x: int): (b: byte)
    ensures (x - b) % 0x100 == 0
    ensures 0 <= x < 0x100 ==> b == x
  {
    x % 0x100
  }
}
