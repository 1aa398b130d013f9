/** Bitwise operations on unsigned words, as arithmetic. */
module Bits {
  import opened Words
  import opened Digits

  /** x & y, bit by bit. */
  function And(x: nat, y: nat): nat
    decreases y
  {
    if y == 0 then 0 else (x % 2) * (y % 2) + 2 * And(x / 2, y / 2)
  }

  function Shl(x: u32, s: nat): u32 {
    x * Pow(2, s) % W32
  }

  function Shr(x: u32, s: nat): (r: u32) {
    ShrFits(x, s);
    Quot(x, Pow(2, s))
  }

  lemma ShrFits(x: u32, s: nat)
    ensures Quot(x, Pow(2, s)) < W32
  {
    QuotRem(x, Pow(2, s));
    MulLe(1, Pow(2, s), Quot(x, Pow(2, s)));
  }

  lemma AndOdd(x: nat, y: nat)
    ensures And(x, 2 * y + 1) == x % 2 + 2 * And(x / 2, y)
  {
    assert (2 * y + 1) % 2 == 1 && (2 * y + 1) / 2 == y;
  }

  /** Masking the low nibble. */
  lemma AndLowNibble(x: nat)
    ensures And(x, 15) == x % 16
  {
    hide And;
    var (b0, x1) := (x % 2, x / 2);
    var (b1, x2) := (x1 % 2, x1 / 2);
    var (b2, x3) := (x2 % 2, x2 / 2);
    var (b3, x4) := (x3 % 2, x3 / 2);
    AndOdd(x, 7);
    AndOdd(x1, 3);
    AndOdd(x2, 1);
    AndOdd(x3, 0);
    AndZero(x4);
    DivUnique(x, 16, x4, b0 + 2 * b1 + 4 * b2 + 8 * b3);
  }

  lemma AndZero(x: nat)
    ensures And(x, 0) == 0
  {
  }

  lemma AndDouble(x: nat, y: nat)
    ensures And(x, 2 * y) == 2 * And(x / 2, y)
  {
    assert 2 * y % 2 == 0 && 2 * y / 2 == y;
  }

  lemma HalfQuot(x: nat)
    ensures Quot(x, 2) == x / 2
  {
  }

  /** Masking the nibble at bit "s". */
  lemma {:induction false} AndNibble(x: nat, s: nat)
    ensures And(x, 15 * Pow(2, s)) == Rem(Quot(x, Pow(2, s)), 16) * Pow(2, s)
    decreases s
  {
    hide Quot, And, Pow;
    if s == 0 {
      AndLowNibble(x);
      Unique(x, 1, x, 0);
      PowZero(2);
    } else {
      var p := Pow(2, s - 1);
      PowStep(2, s);
      AndDouble(x, 15 * p);
      AndNibble(x / 2, s - 1);
      HalfQuot(x);
      Nest(x, 2, p, Pow(2, s));
      Doubled(Rem(Quot(x, Pow(2, s)), 16), p);
    }
  }

  lemma Doubled(d: nat, p: nat)
    ensures 2 * (d * p) == d * (2 * p)
  {
  }

  lemma MulAssoc(x: nat, y: nat, z: nat)
    ensures x * (y * z) == (x * y) * z
  {
  }

  lemma PowZero(b: nat)
    requires b >= 1
    ensures Pow(b, 0) == 1
  {
  }

  lemma {:induction false} PowAdd(b: nat, i: nat, j: nat)
    requires b >= 1
    ensures Pow(b, i + j) == Pow(b, i) * Pow(b, j)
    decreases i
  {
    hide Pow;
    if i == 0 {
      PowZero(b);
    } else {
      PowStep(b, i);
      PowStep(b, i + j);
      PowAdd(b, i - 1, j);
      MulAssoc(b, Pow(b, i - 1), Pow(b, j));
    }
  }

  lemma {:induction false} Pow16(k: nat)
    ensures Pow(2, 4 * k) == Pow(16, k)
  {
    if k > 0 {
      Pow16(k - 1);
      PowAdd(2, 4, 4 * (k - 1));
      assert Pow(2, 4) == 16 by {
        PowStep(2, 4);
        PowStep(2, 3);
        PowStep(2, 2);
        PowStep(2, 1);
      }
    }
  }

  lemma Pow16Eight()
    ensures Pow(16, 8) == W32
  {
    Pow16(8);
    PowAdd(2, 16, 16);
    PowAdd(2, 8, 8);
    PowAdd(2, 4, 4);
    assert Pow(2, 4) == 16;
  }

  lemma {:induction false} PowMono(b: nat, i: nat, j: nat)
    requires b >= 1 && i <= j
    ensures Pow(b, i) <= Pow(b, j)
    decreases j
  {
    if i < j {
      PowMono(b, i, j - 1);
      PowStep(b, j);
      MulLe(1, b, Pow(b, j - 1));
    }
  }

  /** The mask of the k-th nibble, and the nibble it selects once shifted down. */
  lemma MaskedNibble(v: u32, k: nat)
    requires k <= 7
    ensures var mask := Shl(15, 4 * k);
            And(v, mask) < W32 && Shr(And(v, mask), 4 * k) == Rem(Quot(v, Pow(16, k)), 16)
  {
    hide And, Pow, Quot, Rem;
    var p, d := Pow(16, k), Rem(Quot(v, Pow(16, k)), 16);
    QuotRem(Quot(v, p), 16);
    Pow16(k);
    Pow16Eight();
    PowMono(16, k + 1, 8);
    PowStep(16, k + 1);
    AndNibble(v, 4 * k);
    MulLe(d, 15, p);
    Unique(d * p, p, d, 0);
    assert 15 * p % W32 == 15 * p;
  }
}
