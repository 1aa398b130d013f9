/** Machine words of the Nios II target, and the small vocabulary every other module shares. */
module Words {
  const W16 := 0x1_0000
  const W31 := 0x8000_0000
  const W32 := 0x1_0000_0000

  type byte = x: int | 0 <= x < 256
  type u16 = x: int | 0 <= x < W16
  type u32 = x: int | 0 <= x < W32

  /** The 16-bit word with these bytes, low byte first. */
  function Word(lo: byte, hi: byte): u16 {
    var h: int := hi;
    lo + 256 * h
  }

  datatype Option<+T> = None | Some(value: T)

  /** No element occurs twice. */
  ghost predicate Distinct<T>(s: seq<T>) {
    forall i, j :: 0 <= i < j < |s| ==> s[i] != s[j]
  }

  /** The elements of a sequence. */
  function Elements<T(==)>(s: seq<T>): set<T> {
    set x | x in s
  }

  lemma MulLe(x: nat, y: nat, d: nat)
    requires x <= y
    ensures x * d <= y * d
  {
  }

  lemma DivUnique(a: nat, d: nat, q: nat, r: nat)
    requires r < d && a == q * d + r
    ensures a / d == q && a % d == r
  {
    var q', r' := a / d, a % d;
    assert a == q' * d + r';
    if q' < q {
      assert (q' + 1) * d <= q * d by { MulLe(q' + 1, q, d); }
    } else if q' > q {
      assert (q + 1) * d <= q' * d by { MulLe(q + 1, q', d); }
    }
  }

  lemma PrependDistinct<T>(a: T, s: seq<T>)
    requires Distinct(s) && a !in s
    ensures Distinct([a] + s)
  {
  }
}
