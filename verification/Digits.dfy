/** Place-value notation: the digits of a number, the number of a digit sequence, and how a digit is
    got at by dividing by its place value. */
module Digits {
  import opened Words

  function Pow(b: nat, k: nat): (p: nat)
    requires b >= 1
    ensures p >= 1
  {
    if k == 0 then 1 else b * Pow(b, k - 1)
  }

  /** Quotient and remainder, by name so that a proof can leave division out of sight. */
  function Quot(v: nat, d: nat): nat
    requires d >= 1
  {
    v / d
  }

  function Rem(v: nat, d: nat): nat
    requires d >= 1
  {
    v % d
  }

  /** The digits of "v", most significant first, without superfluous zeros. */
  function Canonical(v: nat, b: nat): (ds: seq<nat>)
    requires b >= 2
    ensures |ds| >= 1 && forall i :: 0 <= i < |ds| ==> ds[i] < b
    ensures |ds| > 1 ==> ds[0] != 0
  {
    QuotRem(v, b);
    if v < b then [v] else Canonical(Quot(v, b), b) + [Rem(v, b)]
  }

  /** The number a digit sequence stands for. */
  function Value(ds: seq<nat>, b: nat): nat {
    if ds == [] then 0 else Value(ds[..|ds| - 1], b) * b + ds[|ds| - 1]
  }

  /** The "n" low-order digits of "v". */
  function Low(v: nat, b: nat, n: nat): (ds: seq<nat>)
    requires b >= 2
    ensures |ds| == n
    ensures forall i :: 0 <= i < n ==> ds[i] < b
  {
    QuotRem(v, b);
    if n == 0 then [] else Low(Quot(v, b), b, n - 1) + [Rem(v, b)]
  }

  lemma {:induction false} ValueOfCanonical(v: nat, b: nat)
    requires b >= 2
    ensures Value(Canonical(v, b), b) == v
  {
    QuotRem(v, b);
    if v >= b {
      hide Quot, Rem;
      ValueOfCanonical(Quot(v, b), b);
      ValueSnoc(Canonical(Quot(v, b), b), Rem(v, b), b);
    }
  }

  lemma ValueSnoc(ds: seq<nat>, d: nat, b: nat)
    ensures Value(ds + [d], b) == Value(ds, b) * b + d
  {
    assert (ds + [d])[..|ds|] == ds;
  }

  // ---------------------------------------------------------------- arithmetic of places

  lemma QuotRem(v: nat, b: nat)
    requires b >= 1
    ensures v == Quot(v, b) * b + Rem(v, b) && Rem(v, b) < b
    ensures v < b ==> Quot(v, b) == 0 && Rem(v, b) == v
    ensures v >= b >= 2 ==> 1 <= Quot(v, b) < v
  {
    var q, r := v / b, v % b;
    assert v == q * b + r;
    if v < b && q >= 1 {
      MulLe(1, q, b);
    }
    if v >= b >= 2 && q >= 1 {
      MulLe(2, b, q);
    }
  }

  lemma Unique(a: nat, d: nat, q: nat, r: nat)
    requires r < d && a == q * d + r
    ensures Quot(a, d) == q && Rem(a, d) == r
  {
    DivUnique(a, d, q, r);
  }

  /** Dividing by "b" and then by "q" is dividing by their product; the remainders nest. */
  lemma Nest(v: nat, b: nat, q: nat, bq: nat)
    requires b >= 1 && q >= 1 && bq == b * q && bq >= 1
    ensures Quot(v, bq) == Quot(Quot(v, b), q)
    ensures Quot(Rem(v, bq), b) == Rem(Quot(v, b), q)
    ensures Rem(Rem(v, bq), b) == Rem(v, b)
  {
    hide Quot, Rem;
    QuotRem(v, b);
    var x, r := Quot(v, b), Rem(v, b);
    QuotRem(x, q);
    var y, z := Quot(x, q), Rem(x, q);
    Regroup(y, q, z, b, bq);
    Within(z, r, q, b);
    Unique(v, bq, y, z * b + r);
    Unique(z * b + r, b, z, r);
  }

  lemma Regroup(y: nat, q: nat, z: nat, b: nat, bq: nat)
    requires bq == b * q
    ensures (y * q + z) * b == y * bq + z * b
  {
    assert (y * q) * b == y * (b * q);
  }

  lemma Within(z: nat, r: nat, q: nat, b: nat)
    requires z < q && r < b
    ensures z * b + r < b * q
  {
    MulLe(z + 1, q, b);
  }

  lemma QuotBound(v: nat, b: nat, p: nat)
    requires b >= 1
    ensures v < b * p ==> Quot(v, b) < p
    ensures b * p <= v ==> p <= Quot(v, b)
  {
    hide Quot, Rem;
    QuotRem(v, b);
    if Quot(v, b) >= p {
      MulLe(p, Quot(v, b), b);
    } else {
      MulLe(Quot(v, b) + 1, p, b);
    }
  }

  lemma PowStep(b: nat, k: nat)
    requires b >= 1 && k >= 1
    ensures Pow(b, k) == b * Pow(b, k - 1)
  {
  }

  lemma LowSnoc(v: nat, b: nat, n: nat)
    requires b >= 2
    ensures Low(v, b, n + 1) == Low(Quot(v, b), b, n) + [Rem(v, b)]
  {
  }

  /** Taking the leading digit off by dividing by its place value. */
  lemma {:induction false} LeadingDigit(v: nat, b: nat, k: nat)
    requires b >= 2 && v < Pow(b, k + 1)
    ensures Low(v, b, k + 1) == [Quot(v, Pow(b, k))] + Low(Rem(v, Pow(b, k)), b, k)
    decreases k
  {
    hide Quot, Rem;
    if k == 0 {
      PowStep(b, 1);
      QuotRem(v, b);
      Unique(v, 1, v, 0);
      LowSnoc(v, b, 0);
    } else {
      hide Pow, Low;
      PowStep(b, k);
      PowStep(b, k + 1);
      var p, q := Pow(b, k), Pow(b, k - 1);
      Nest(v, b, q, p);
      QuotBound(v, b, p);
      LeadingDigit(Quot(v, b), b, k - 1);
      LowSnoc(v, b, k);
      LowSnoc(Rem(v, p), b, k - 1);
      var lead, low := [Quot(v, p)], Low(Quot(Rem(v, p), b), b, k - 1);
      assert (lead + low) + [Rem(v, b)] == lead + (low + [Rem(v, b)]);
    }
  }

  /** The low-order digits are the canonical ones when the leading one is the number's highest place. */
  lemma {:induction false} LowIsCanonical(v: nat, b: nat, k: nat)
    requires b >= 2 && v < Pow(b, k + 1) && (k > 0 ==> Pow(b, k) <= v)
    ensures Low(v, b, k + 1) == Canonical(v, b)
    decreases k
  {
    hide Quot, Rem;
    QuotRem(v, b);
    LowSnoc(v, b, k);
    PowStep(b, k + 1);
    if k == 0 {
      assert Low(Quot(v, b), b, 0) == [] && [] + [Rem(v, b)] == [v];
    } else {
      PowStep(b, k);
      MulLe(1, Pow(b, k - 1), b);
      QuotBound(v, b, Pow(b, k));
      QuotBound(v, b, Pow(b, k - 1));
      LowIsCanonical(Quot(v, b), b, k - 1);
    }
  }
}
