/** Bitwise OR and AND of 32-bit words, by their bits. */
module BitWords {
  import opened ByteCodec

  predicate Bit(a: nat, k: nat) {
    if k == 0 then a % 2 == 1 else Bit(a / 2, k - 1)
  }

  function OrNat(a: nat, b: nat): nat {
    if a == 0 then b else if b == 0 then a
    else (if a % 2 == 1 || b % 2 == 1 then 1 else 0) + 2 * OrNat(a / 2, b / 2)
  }

  function AndNat(a: nat, b: nat): (r: nat)
    ensures r <= a
  {
    if a == 0 || b == 0 then 0
    else (if a % 2 == 1 && b % 2 == 1 then 1 else 0) + 2 * AndNat(a / 2, b / 2)
  }

  function Pow2(n: nat): (p: nat)
    ensures p > 0
  {
    if n == 0 then 1 else 2 * Pow2(n - 1)
  }

  lemma {:induction false} OrFits(a: nat, b: nat, n: nat)
    requires a < Pow2(n) && b < Pow2(n)
    ensures OrNat(a, b) < Pow2(n)
  {
    if a != 0 && b != 0 {
      OrFits(a / 2, b / 2, n - 1);
    }
  }

  lemma {:induction false} PowAdd(m: nat, n: nat)
    ensures Pow2(m + n) == Pow2(m) * Pow2(n)
  {
    if m == 0 {
    } else {
      PowAdd(m - 1, n);
      assert Pow2(m + n) == 2 * (Pow2(m - 1) * Pow2(n));
    }
  }

  lemma WordRange()
    ensures Pow2(32) == U32_RANGE
  {
    assert Pow2(4) == 16;
    PowAdd(4, 4);
    PowAdd(8, 8);
    PowAdd(16, 16);
  }

  function Or(a: U32, b: U32): U32 {
    WordRange();
    OrFits(a, b, 32);
    OrNat(a, b)
  }

  function And(a: U32, b: U32): U32 {
    AndNat(a, b)
  }

  /** Bit k is the binary digit of weight 2^k. */
  lemma {:induction false} BitValue(a: nat, k: nat)
    ensures Bit(a, k) <==> a / Pow2(k) % 2 == 1
  {
    if k == 0 {
    } else {
      BitValue(a / 2, k - 1);
      HalfThenRest(a, Pow2(k - 1));
    }
  }

  lemma HalfThenRest(a: nat, p: nat)
    requires p > 0
    ensures a / 2 / p == a / (2 * p)
  {
    var q := a / 2 / p;
    var r := a / 2 - q * p;
    assert a == 2 * p * q + (2 * r + a % 2) && 0 <= 2 * r + a % 2 < 2 * p;
    Quotient(a, 2 * p, q, 2 * r + a % 2);
  }

  lemma Quotient(a: nat, d: nat, q: nat, r: nat)
    requires d > 0 && a == d * q + r && r < d
    ensures a / d == q
  {
    var p := a / d;
    assert d * p <= a < d * p + d;
    if p < q {
      NextMultiple(d, p, q);
      assert false;
    } else if p > q {
      NextMultiple(d, q, p);
      assert false;
    }
  }

  lemma NextMultiple(d: nat, p: nat, q: nat)
    requires p < q
    ensures d * p + d <= d * q
  {
    assert d * (p + 1) <= d * q;
  }

  lemma {:induction false} ZeroBit(k: nat)
    ensures !Bit(0, k)
  {
    if k > 0 { ZeroBit(k - 1); }
  }

  lemma {:induction false} OrBit(a: nat, b: nat, k: nat)
    ensures Bit(OrNat(a, b), k) <==> Bit(a, k) || Bit(b, k)
  {
    if a == 0 || b == 0 {
      ZeroBit(k);
    } else if k > 0 {
      OrBit(a / 2, b / 2, k - 1);
      assert OrNat(a, b) / 2 == OrNat(a / 2, b / 2);
    }
  }

  lemma {:induction false} AndBit(a: nat, b: nat, k: nat)
    ensures Bit(AndNat(a, b), k) <==> Bit(a, k) && Bit(b, k)
  {
    if a == 0 || b == 0 {
      ZeroBit(k);
    } else if k > 0 {
      AndBit(a / 2, b / 2, k - 1);
      assert AndNat(a, b) / 2 == AndNat(a / 2, b / 2);
    }
  }
}
