/**
 Natural numbers as sequences of 32-bit limbs, least significant first, and the facts about
 powers, division and disjoint bits that the limb algorithms rest on.
 */
module ArithModel {

  const LIMB: nat := 0x1_0000_0000

  /** Truncation to 32 bits. */
  function Word(x: int): (w: nat)
    ensures w < LIMB
  {
    x % LIMB
  }

  // ---------------------------------------------------------------- multiplication

  lemma Distribute(a: int, b: int, c: int)
    ensures (a + b) * c == a * c + b * c && c * (a + b) == c * a + c * b
  {
  }

  lemma Associate(a: int, b: int, c: int)
    ensures (a * b) * c == a * (b * c)
  {
  }

  lemma MulMonotone(a: int, b: int, c: nat)
    requires a <= b
    ensures a * c <= b * c && c * a <= c * b
  {
  }

  /** Quotient and remainder are determined. */
  lemma DivModUnique(x: int, d: int, q: int, r: int)
    requires d > 0 && x == q * d + r && 0 <= r < d
    ensures x / d == q && x % d == r
  {
    if q < x / d {
      MulMonotone(q + 1, x / d, d);
      Distribute(q, 1, d);
    } else if q > x / d {
      MulMonotone(x / d + 1, q, d);
      Distribute(x / d, 1, d);
    }
  }

  // ---------------------------------------------------------------- powers

  function Pow2(n: nat): (p: nat)
    ensures p >= 1
  {
    if n == 0 then 1 else 2 * Pow2(n - 1)
  }

  /** How often a number can be halved. */
  function Log2(n: nat): (r: nat)
    ensures n < Pow2(r + 1) && (n > 0 ==> Pow2(r) <= n)
  {
    if n < 2 then 0 else 1 + Log2(n / 2)
  }

  lemma {:induction false} Pow2Add(m: nat, n: nat)
    ensures Pow2(m + n) == Pow2(m) * Pow2(n)
  {
    if n > 0 {
      Pow2Add(m, n - 1);
      Associate(Pow2(m), Pow2(n - 1), 2);
    }
  }

  lemma Pow2Monotone(m: nat, n: nat)
    requires m <= n
    ensures Pow2(m) <= Pow2(n)
  {
    Pow2Add(m, n - m);
    MulMonotone(1, Pow2(n - m), Pow2(m));
  }

  lemma Pow2Word()
    ensures Pow2(32) == LIMB && Pow2(8) == 256
  {
    assert Pow2(8) == 256;
    Pow2Add(8, 8);
    Pow2Add(16, 16);
  }

  /** The weight of a limb. */
  function Weight(i: nat): (w: nat)
    ensures w >= 1
  {
    Pow2(32 * i)
  }

  lemma WeightNext(i: nat)
    ensures Weight(i + 1) == LIMB * Weight(i)
  {
    Pow2Word();
    Pow2Add(32, 32 * i);
  }

  lemma WeightFirst()
    ensures Weight(0) == 1 && Weight(1) == LIMB
  {
    WeightNext(0);
  }

  lemma WeightAdd(i: nat, j: nat)
    ensures Weight(i + j) == Weight(i) * Weight(j)
  {
    Pow2Add(32 * i, 32 * j);
  }

  // ---------------------------------------------------------------- limbs

  predicate Limbs(s: seq<nat>) {
    forall i :: 0 <= i < |s| ==> s[i] < LIMB
  }

  function Val(s: seq<nat>): nat {
    if s == [] then 0 else Val(s[..|s| - 1]) + s[|s| - 1] * Weight(|s| - 1)
  }

  lemma ValLast(s: seq<nat>)
    ensures s == [] ==> Val(s) == 0
    ensures s != [] ==> Val(s) == Val(s[..|s| - 1]) + s[|s| - 1] * Weight(|s| - 1)
  {
  }

  lemma ValNext(s: seq<nat>, i: nat)
    requires i < |s|
    ensures Val(s[..i + 1]) == Val(s[..i]) + s[i] * Weight(i)
  {
    assert s[..i + 1][..i] == s[..i];
  }

  lemma {:induction false} ValBound(s: seq<nat>)
    requires Limbs(s)
    ensures Val(s) < Weight(|s|)
  {
    if s != [] {
      var n := |s| - 1;
      ValBound(s[..n]);
      WeightNext(n);
      MulMonotone(s[n], LIMB - 1, Weight(n));
      Distribute(LIMB, -1, Weight(n));
    }
  }

  lemma {:induction false} ValAppend(s: seq<nat>, t: seq<nat>)
    ensures Val(s + t) == Val(s) + Weight(|s|) * Val(t)
  {
    if t == [] {
      assert s + t == s;
    } else {
      var n, st := |t| - 1, s + t;
      ValAppend(s, t[..n]);
      assert st[..|st| - 1] == s + t[..n];
      WeightAdd(|s|, n);
      Distribute(Val(t[..n]), t[n] * Weight(n), Weight(|s|));
      Associate(t[n], Weight(n), Weight(|s|));
    }
  }

  /** The low limbs and the high limbs. */
  lemma ValSplit(s: seq<nat>, k: nat)
    requires k <= |s|
    ensures Val(s) == Val(s[..k]) + Weight(k) * Val(s[k..])
  {
    hide Val, Weight;
    ValAppend(s[..k], s[k..]);
    assert s[..k] + s[k..] == s;
  }

  lemma {:induction false} ValZero(s: seq<nat>)
    ensures Val(s) == 0 <==> forall i :: 0 <= i < |s| ==> s[i] == 0
  {
    if s != [] {
      var n := |s| - 1;
      ValZero(s[..n]);
      if s[n] != 0 {
        MulMonotone(1, s[n], Weight(n));
      }
      assert forall i :: 0 <= i < n ==> s[i] == s[..n][i];
    }
  }

  /** One limb changes. */
  lemma ValUpdate(s: seq<nat>, i: nat, x: nat)
    requires i < |s|
    ensures Val(s[i := x]) == Val(s) + (x - s[i]) * Weight(i)
  {
    hide Val, Weight;
    var t := s[i := x];
    ValSplit(s, i + 1);
    ValSplit(t, i + 1);
    ValNext(s, i);
    ValNext(t, i);
    assert t[i + 1..] == s[i + 1..] && t[..i] == s[..i];
    var w, was: int := Weight(i), s[i];
    assert (x - was) * w == x * w - was * w;
  }

  /** Limbs are the digits of the number. */
  lemma {:induction false} SameLimbs(s: seq<nat>, t: seq<nat>)
    requires Limbs(s) && Limbs(t) && |s| == |t|
    ensures Val(s) == Val(t) <==> s == t
  {
    if s != [] {
      var n := |s| - 1;
      SameLimbs(s[..n], t[..n]);
      ValBound(s[..n]);
      ValBound(t[..n]);
      DivModUnique(Val(s), Weight(n), s[n], Val(s[..n]));
      DivModUnique(Val(t), Weight(n), t[n], Val(t[..n]));
      assert s == s[..n] + [s[n]] && t == t[..n] + [t[n]];
    }
  }

  // ---------------------------------------------------------------- bits

  /** Bitwise or. */
  function Or(x: nat, y: nat): nat {
    if x == 0 then y else if y == 0 then x
    else 2 * Or(x / 2, y / 2) + (if x % 2 == 1 || y % 2 == 1 then 1 else 0)
  }

  /** Without a common bit, or is addition. */
  lemma {:induction false} OrDisjoint(x: nat, y: nat, k: nat)
    requires x % Pow2(k) == 0 && y < Pow2(k)
    ensures Or(x, y) == x + y && Or(y, x) == x + y
    decreases k
  {
    if k > 0 && x != 0 && y != 0 {
      HalfMultiple(x, Pow2(k - 1));
      OrDisjoint(x / 2, y / 2, k - 1);
    }
  }

  lemma HalfMultiple(x: nat, d: nat)
    requires d > 0 && x % (2 * d) == 0
    ensures x % 2 == 0 && (x / 2) % d == 0
  {
    var q := x / (2 * d);
    assert x == q * (2 * d);
    Associate(q, d, 2);
    DivModUnique(x, 2, q * d, 0);
    DivModUnique(q * d, d, q, 0);
  }

  /** The shifts of a 32-bit word. */
  function Shl(x: nat, n: nat): (w: nat)
    ensures w < LIMB
  {
    Word(x * Pow2(n))
  }

  function Shr(x: nat, n: nat): (w: nat)
    ensures w <= x
  {
    Quotient(x, Pow2(n))
  }

  function Quotient(x: nat, d: nat): (q: nat)
    requires d > 0
    ensures q <= x
  {
    DivNotMore(x, d);
    x / d
  }

  lemma DivNotMore(x: nat, d: nat)
    requires d > 0
    ensures 0 <= x / d <= x
  {
    NotNegative(x / d, d);
    MulMonotone(1, d, x / d);
  }

  lemma NotNegative(q: int, d: nat)
    requires d > 0 && q * d + d > 0
    ensures q >= 0
  {
    if q < 0 {
      MulMonotone(q, -1, d);
    }
  }

  /** Bit `n` is set. */
  predicate Bit(x: nat, n: nat) {
    (x / Pow2(n)) % 2 == 1
  }
}
