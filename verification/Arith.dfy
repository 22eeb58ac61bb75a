/** Division facts for ring indices whose modulus is a variable. */
module Arith {

  function Pow2(n: nat): (p: nat)
    ensures p >= 1
  {
    if n == 0 then 1 else 2 * Pow2(n - 1)
  }

  lemma MulAtLeast(d: int, b: nat)
    requires d >= 1
    ensures d * b >= b
  {
  }

  lemma DivModUnique(x: int, b: nat, q: int, r: nat)
    requires b > 0 && r < b && x == q * b + r
    ensures x % b == r && x / b == q
  {
    var d := q - x / b;
    assert d * b == x % b - r;
    if d >= 1 { MulAtLeast(d, b); } else if d <= -1 { MulAtLeast(-d, b); }
  }

  lemma ModStep(a: nat, b: nat)
    requires b > 0
    ensures (a + b) % b == a % b && (a + b) / b == a / b + 1
  {
    assert a + b == (a / b + 1) * b + a % b;
    DivModUnique(a + b, b, a / b + 1, a % b);
  }

  lemma AddMultiple(a: nat, s: nat, d: nat)
    requires d > 0 && s % d == 0
    ensures (a + s) % d == a % d
  {
    assert a + s == (a / d + s / d) * d + a % d;
    DivModUnique(a + s, d, a / d + s / d, a % d);
  }

  /** Advancing a ring index by one. */
  lemma Advance(k: nat, n: nat)
    requires n > 0
    ensures (k + 1) % n == (k % n + 1) % n
    ensures (k + 1) % n == 0 ==> k % n + 1 == n && (k + 1) / n == k / n + 1
    ensures (k + 1) % n != 0 ==> (k + 1) % n == k % n + 1 && (k + 1) / n == k / n
  {
    if k % n + 1 == n {
      assert k + 1 == (k / n + 1) * n + 0;
      DivModUnique(k + 1, n, k / n + 1, 0);
      ModStep(0, n);
    } else {
      assert k + 1 == (k / n) * n + (k % n + 1);
      DivModUnique(k + 1, n, k / n, k % n + 1);
      DivModUnique(k % n + 1, n, 0, k % n + 1);
    }
  }

  /** Fewer than `n` consecutive numbers never share a ring index. */
  lemma Distinct(a: nat, b: nat, n: nat)
    requires n > 0 && a < b < a + n
    ensures a % n != b % n
  {
    if a % n == b % n {
      var d := b / n - a / n;
      assert d * n == b - a;
      if d >= 1 { MulAtLeast(d, n); } else if d <= -1 { MulAtLeast(-d, n); }
    }
  }

  lemma Small(k: nat, n: nat)
    requires k < n
    ensures k % n == k && k / n == 0
  {
    DivModUnique(k, n, 0, k);
  }

  // ---- Ring positions -------------------------------------------------------------------------

  /** The slot after `i` in a ring of `n`. */
  function Inc(i: nat, n: nat): (j: nat)
    requires i < n
    ensures j < n
  {
    if i + 1 == n then 0 else i + 1
  }

  /** For a slot, that is what `(i + 1) % n` computes. */
  lemma IncIsMod(i: nat, n: nat)
    requires i < n
    ensures (i + 1) % n == Inc(i, n)
  {
    if i + 1 == n { ModStep(0, n); Small(0, n); } else { Small(i + 1, n); }
  }

  /** The ring slot reached after `k` advances from slot 0: `k % n`, by counting. */
  function Slot(k: nat, n: nat): (i: nat)
    requires n > 0
    ensures i < n
  {
    if k == 0 then 0 else Inc(Slot(k - 1, n), n)
  }

  /** The phase bit after `k` advances: it starts true and flips at every return to slot 0. */
  predicate Phase(k: nat, n: nat)
    requires n > 0
  {
    if k == 0 then true else if Slot(k, n) == 0 then !Phase(k - 1, n) else Phase(k - 1, n)
  }

  lemma {:induction false} SlotIsMod(k: nat, n: nat)
    requires n > 0
    ensures Slot(k, n) == k % n && Phase(k, n) == ((k / n) % 2 == 0)
  {
    if k == 0 {
      Small(0, n);
    } else {
      SlotIsMod(k - 1, n);
      Advance(k - 1, n);
      IncIsMod(Slot(k - 1, n), n);
    }
  }

  lemma SlotsDistinct(a: nat, b: nat, n: nat)
    requires n > 0 && a < b < a + n
    ensures Slot(a, n) != Slot(b, n)
  {
    SlotIsMod(a, n);
    SlotIsMod(b, n);
    Distinct(a, b, n);
  }

  /** One lap later the slot is the same and the phase is the other one. */
  lemma LapLater(k: nat, n: nat)
    requires n > 0
    ensures Slot(k + n, n) == Slot(k, n) && Phase(k + n, n) != Phase(k, n)
  {
    SlotIsMod(k, n);
    SlotIsMod(k + n, n);
    ModStep(k, n);
  }

  lemma {:induction false} FirstLap(k: nat, n: nat)
    requires k < n
    ensures Slot(k, n) == k && Phase(k, n)
  {
    if k > 0 { FirstLap(k - 1, n); }
  }
}
