// Fixed-width bit operations on naturals, and what they mean arithmetically.
module Bits {

  function Pow2(n: nat): (r: nat)
    ensures r > 0
  {
    if n == 0 then 1 else 2 * Pow2(n - 1)
  }

  // Logical shift right.
  function Shr(a: nat, n: nat): (r: nat)
    ensures r <= a
  {
    if n == 0 then a else Shr(a / 2, n - 1)
  }

  predicate Bit(a: nat, i: nat) {
    Shr(a, i) % 2 == 1
  }

  // Bitwise conjunction.
  function And(a: nat, b: nat): (r: nat)
    ensures r <= a
    decreases a, b
  {
    if a == 0 then 0
    else 2 * And(a / 2, b / 2) + (if a % 2 == 1 && b % 2 == 1 then 1 else 0)
  }

  lemma {:induction false} Pow2Add(m: nat, n: nat)
    ensures Pow2(m + n) == Pow2(m) * Pow2(n)
  {
    if m > 0 {
      Pow2Add(m - 1, n);
      assert Pow2(m + n) == 2 * Pow2((m - 1) + n);
    }
  }

  lemma Pow2Literals()
    ensures Pow2(8) == 0x100 && Pow2(16) == 0x1_0000 && Pow2(32) == 0x1_0000_0000
    ensures Pow2(64) == 0x1_0000_0000_0000_0000
    ensures Pow2(128) == 0x1_0000_0000_0000_0000_0000_0000_0000_0000
  {
    Pow2Doubled(1, 2);
    Pow2Doubled(2, 4);
    Pow2Doubled(4, 16);
    Pow2Doubled(8, 0x100);
    Pow2Doubled(16, 0x1_0000);
    Pow2Doubled(32, 0x1_0000_0000);
    Pow2Doubled(64, 0x1_0000_0000_0000_0000);
  }

  lemma Pow2Doubled(n: nat, p: nat)
    requires Pow2(n) == p
    ensures Pow2(2 * n) == p * p
  {
    Pow2Add(n, n);
  }

  lemma {:induction false} Pow2Grows(m: nat, n: nat)
    requires m < n
    ensures Pow2(m) < Pow2(n)
  {
    if m + 1 < n {
      Pow2Grows(m, n - 1);
    }
  }

  lemma MulGap(d: nat, p: nat, q: nat)
    ensures p < q ==> d * p + d <= d * q
  {
    if p < q {
      assert d * q == d * (p + 1) + d * (q - p - 1);
    }
  }

  lemma DivModUnique(a: nat, d: nat, q: nat, r: nat)
    requires d > 0 && a == d * q + r && r < d
    ensures a / d == q && a % d == r
  {
    var p := a / d;
    assert a == d * p + a % d;
    MulGap(d, p, q);
    MulGap(d, q, p);
  }

  lemma MulSplit(x: nat, y: nat, q: nat, r: nat)
    ensures x * (y * q + r) == (x * y) * q + x * r
  {
  }

  lemma DivDiv(a: nat, x: nat, y: nat)
    requires x > 0 && y > 0
    ensures x * y > 0 && a / x / y == a / (x * y)
    ensures a % (x * y) == x * (a / x % y) + a % x
  {
    var b, t := a / x, a % x;
    var q, r := b / y, b % y;
    DivDivParts(a, x, y, b, t, q, r);
    DivModUnique(a, x * y, q, x * r + t);
  }

  lemma DivDivParts(a: nat, x: nat, y: nat, b: nat, t: nat, q: nat, r: nat)
    requires a == x * b + t && t < x
    requires b == y * q + r && r < y
    ensures a == (x * y) * q + (x * r + t) && x * r + t < x * y
  {
    MulSplit(x, y, q, r);
    MulGap(x, r, y);
  }

  function RoundDown(a: nat, s: nat): nat
    requires s > 0
  {
    a - a % s
  }

  lemma KeepMask(max: nat, x: nat, y: nat)
    requires x > 0 && y > 0 && max + 1 == x * y
    ensures max - Quot(max, x) == max + 1 - y
  {
    MulSplit(x, 1, y - 1, 1);
    DivModUnique(max, x, y - 1, x - 1);
  }

  lemma BlockFits(a: nat, s: nat, k: nat)
    requires s > 0 && a < s * k
    ensures RoundDown(a, s) + s <= s * k
  {
    SameBlock(a, 0, s);
    MulGap(s, Quot(a, s), k);
    MulGap(s, k, Quot(a, s));
    assert Quot(a, s) < k;
  }

  lemma RoundDownToOne(a: nat)
    ensures Pow2(0) == 1 && RoundDown(a, 1) == a
  {
  }

  function Quot(a: nat, s: nat): nat
    requires s > 0
  {
    a / s
  }

  lemma SameBlock(a: nat, b: nat, s: nat)
    requires s > 0
    ensures RoundDown(a, s) == RoundDown(b, s) <==> Quot(a, s) == Quot(b, s)
    ensures RoundDown(b, s) <= a < RoundDown(b, s) + s <==> Quot(a, s) == Quot(b, s)
    ensures RoundDown(a, s) == s * Quot(a, s)
  {
    var q, r := a / s, b / s;
    assert a == s * q + a % s && b == s * r + b % s;
    MulGap(s, q, r);
    MulGap(s, r, q);
  }

  // Rounding down to two nested block sizes, in either order, is rounding down to the larger.
  lemma RoundDownTwice(a: nat, s: nat, k: nat)
    requires s > 0 && k > 0
    ensures s * k > 0
    ensures RoundDown(RoundDown(a, s), s * k) == RoundDown(a, s * k)
    ensures RoundDown(RoundDown(a, s * k), s) == RoundDown(a, s * k)
  {
    var q := a / s;
    var b := RoundDown(a, s);
    SameBlock(a, 0, s);
    DivDiv(a, s, k);
    DivModUnique(b, s, q, 0);
    DivDiv(b, s, k);
    var t := RoundDown(a, s * k);
    SameBlock(a, 0, s * k);
    var p := a / (s * k);
    MulSplit(s, k, p, 0);
    DivModUnique(t, s, k * p, 0);
  }

  // A shift divides by a power of two.
  lemma {:induction false} ShrDivides(a: nat, n: nat)
    ensures Shr(a, n) == Quot(a, Pow2(n))
  {
    if n == 0 {
      DivModUnique(a, 1, a, 0);
    } else {
      ShrDivides(a / 2, n - 1);
      DivDiv(a, 2, Pow2(n - 1));
    }
  }

  lemma {:induction false} ShrTwice(a: nat, m: nat, n: nat)
    ensures Shr(Shr(a, m), n) == Shr(a, m + n)
  {
    if m > 0 {
      ShrTwice(a / 2, m - 1, n);
    }
  }

  // `And` is the conjunction of each pair of bits.
  lemma {:induction false} AndIsBitwise(a: nat, b: nat, i: nat)
    ensures Bit(And(a, b), i) <==> Bit(a, i) && Bit(b, i)
    decreases i
  {
    var c := And(a, b);
    if a == 0 {
      assert Shr(0, i) == 0;
    } else if i > 0 {
      assert c / 2 == And(a / 2, b / 2);
      AndIsBitwise(a / 2, b / 2, i - 1);
    }
  }

  lemma {:induction false} AndAllOnes(a: nat, w: nat)
    requires a < Pow2(w)
    ensures And(a, Pow2(w) - 1) == a
  {
    if a > 0 {
      AndAllOnes(a / 2, w - 1);
      assert (Pow2(w) - 1) / 2 == Pow2(w - 1) - 1;
    }
  }

  lemma RoundDownDoubled(a: nat, s: nat)
    requires s > 0
    ensures RoundDown(a, 2 * s) == 2 * RoundDown(a / 2, s)
  {
    DivDiv(a, 2, s);
  }

  // A keep-mask of `w - k` ones above `k` zeros rounds down to a multiple of 2^k.
  lemma {:induction false} AndKeepsHigh(a: nat, k: nat, w: nat)
    requires k <= w && a < Pow2(w)
    ensures Pow2(k) <= Pow2(w)
    ensures And(a, Pow2(w) - Pow2(k)) == RoundDown(a, Pow2(k))
    decreases w
  {
    hide RoundDown;
    if k < w {
      Pow2Grows(k, w);
    }
    if k == 0 {
      AndAllOnes(a, w);
      RoundDownToOne(a);
    } else {
      AndKeepsHigh(a / 2, k - 1, w - 1);
      RoundDownDoubled(a, Pow2(k - 1));
      assert (Pow2(w) - Pow2(k)) / 2 == Pow2(w - 1) - Pow2(k - 1);
    }
  }
}
