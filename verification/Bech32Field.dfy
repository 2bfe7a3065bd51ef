/**
 What the checksum of Bech32 is: the remainder of a polynomial over the field of 32 elements by the
 generator of the code.
 */
module Bech32Field {
  import opened Bech32

  // ---------------------------------------------------------------- the field of 32 elements

  /** Multiplication by a, where a^5 = a^3 + 1. */
  function Double(v: bv8): bv8 {
    ((v << 1) & 31) ^ (if v & 16 == 0 then 0 else 9)
  }

  function Times(v: bv8, on: bool): bv8 { if on then v else 0 }

  /** Multiplication: the multiples for the bits of the other factor, added up. */
  function Mul(v: bv8, w: bv8): bv8 {
    var v2 := Double(v);
    var v4 := Double(v2);
    var v8 := Double(v4);
    var v16 := Double(v8);
    Times(v, w & 1 != 0) ^ Times(v2, w & 2 != 0) ^ Times(v4, w & 4 != 0) ^ Times(v8, w & 8 != 0)
    ^ Times(v16, w & 16 != 0)
  }

  lemma MulInRange(v: bv8, w: bv8)
    requires v < 32
    ensures Mul(v, w) < 32 && Mul(v, 1) == v
  {
  }

  /** The generator x^6 + 29 x^5 + 22 x^4 + 20 x^3 + 21 x^2 + 29 x + 18, leading coefficient first. */
  const GENERATOR: seq<bv8> := [1, 29, 22, 20, 21, 29, 18]

  /** The constants of the checksum are the multiples of the generator below x^6. */
  lemma ReduceIsMultiple(a: bv8)
    requires a < 32
    ensures Reduce((a as bv32) << 25) == Pack(Mul(a, 29), Mul(a, 22), Mul(a, 20), Mul(a, 21), Mul(a, 29), Mul(a, 18))
  {
  }

  lemma ReduceByLeading(c: bv32)
    ensures Reduce(c) == Reduce((Symbol0(c) as bv32) << 25)
  {
  }

  // ---------------------------------------------------------------- division with remainder

  function Scale(a: bv8, p: seq<bv8>): (r: seq<bv8>)
    ensures |r| == |p| && forall i :: 0 <= i < |p| ==> r[i] == Mul(a, p[i])
  {
    seq(|p|, i requires 0 <= i < |p| => Mul(a, p[i]))
  }

  /** The product of a polynomial and the generator, leading coefficients first. */
  function TimesGenerator(q: seq<bv8>): (p: seq<bv8>)
    ensures |p| == |q| + 6
  {
    if q == [] then Zeroes(6)
    else
      var n := |q| - 1;
      Diff(TimesGenerator(q[..n]) + [0], Zeroes(n) + Scale(q[n], GENERATOR))
  }

  /** A polynomial is a multiple of the generator and a remainder of degree below six. */
  ghost predicate Divided(p: seq<bv8>, q: seq<bv8>, r: seq<bv8>) {
    |r| == 6 && |p| == |q| + 6 && p == Diff(TimesGenerator(q), Zeroes(|q|) + r)
  }

  /** The remainder after one more coefficient: the leading one is reduced. */
  function Next(r: seq<bv8>, x: bv8): (r': seq<bv8>)
    requires |r| == 6
    ensures |r'| == 6
  {
    [Xor8(r[1], Mul(r[0], 29)), Xor8(r[2], Mul(r[0], 22)), Xor8(r[3], Mul(r[0], 20)),
     Xor8(r[4], Mul(r[0], 21)), Xor8(r[5], Mul(r[0], 29)), Xor8(x, Mul(r[0], 18))]
  }

  lemma XorZero(a: bv8)
    ensures Xor8(a, 0) == a && Xor8(0, a) == a && Xor8(a, a) == 0
  {
  }

  lemma XorAgain(a: bv8, b: bv8)
    ensures Xor8(a, Xor8(a, b)) == b && Xor8(Xor8(b, a), a) == b
  {
  }

  lemma XorCancels(a: bv8, b: bv8, c: bv8)
    ensures Xor8(Xor8(a, b), Xor8(c, b)) == Xor8(a, c)
  {
  }

  lemma XorOneToOne(a: bv8, b: bv8, c: bv8)
    requires Xor8(a, b) == Xor8(a, c)
    ensures b == c
  {
    hide Xor8;
    XorAgain(a, b);
    XorAgain(a, c);
  }

  lemma DividedNext(p: seq<bv8>, q: seq<bv8>, r: seq<bv8>, x: bv8)
    requires Divided(p, q, r) && Five(r)
    ensures Divided(p + [x], q + [r[0]], Next(r, x))
  {
    hide Mul, Xor8, TimesGenerator;
    var n, q', r' := |q|, q + [r[0]], Next(r, x);
    MulInRange(r[0], 0);
    ProductNext(q, r[0]);
    var product, scaled := TimesGenerator(q), Scale(r[0], GENERATOR);
    var next := Diff(product + [0], Zeroes(n) + scaled);
    forall i | 0 <= i < n + 7 ensures (p + [x])[i] == Xor8(next[i], (Zeroes(n + 1) + r')[i]) {
      var top := if i < n + 6 then product[i] else 0;
      assert next[i] == Xor8(top, if i < n then 0 else scaled[i - n]);
      XorZero(top);
      if i < n {
        assert p[i] == Xor8(product[i], 0);
      } else if i == n {
        assert scaled[0] == r[0] && p[i] == Xor8(product[i], r[0]);
        XorZero(next[i]);
      } else {
        var j := i - n;
        assert r'[j - 1] == Xor8(if j < 6 then r[j] else x, scaled[j]);
        XorCancels(top, scaled[j], if j < 6 then r[j] else x);
        XorZero(x);
        assert i < n + 6 ==> p[i] == Xor8(product[i], r[j]);
      }
    }
  }

  lemma ProductNext(q: seq<bv8>, a: bv8)
    ensures TimesGenerator(q + [a]) == Diff(TimesGenerator(q) + [0], Zeroes(|q|) + Scale(a, GENERATOR))
  {
    assert (q + [a])[..|q|] == q;
  }

  /** The multiples of the generator below x^6, side by side. */
  function Multiples(a: bv8): (k: seq<bv8>)
    ensures |k| == 6
  {
    [Mul(a, 29), Mul(a, 22), Mul(a, 20), Mul(a, 21), Mul(a, 29), Mul(a, 18)]
  }

  lemma ReduceIsPacked(c: bv32)
    ensures Five(Multiples(Unpack(c)[0])) && Reduce(c) == Packed(Multiples(Unpack(c)[0]))
  {
    var a := Symbol0(c);
    ReduceByLeading(c);
    LeadingInRange(c);
    ReduceIsMultiple(a);
    MulInRange(a, 29);
    MulInRange(a, 22);
    MulInRange(a, 20);
    MulInRange(a, 21);
    MulInRange(a, 18);
    hide Mul, Reduce, Pack;
  }

  lemma LeadingInRange(c: bv32)
    ensures Symbol0(c) < 32
  {
  }

  /** One step of the checksum. */
  lemma StepIsNext(c: bv32, x: bv8)
    requires c < 0x40000000 && x < 32
    ensures Unpack(Step(c, x)) == Next(Unpack(c), x)
  {
    hide Mul, Reduce, Packed, Shift, Unpack, Xor, Xor8;
    var k := Multiples(Unpack(c)[0]);
    ReduceIsPacked(c);
    UnpackXor(Shift(c, x), Packed(k));
    PackedOnce(k);
    UnpackShift(c, x);
  }

  // The symbols of a difference, one by one.

  lemma Symbol0Xor(a: bv32, b: bv32)
    ensures Symbol0(Xor(a, b)) == Xor8(Symbol0(a), Symbol0(b))
  {
  }

  lemma Symbol1Xor(a: bv32, b: bv32)
    ensures Symbol1(Xor(a, b)) == Xor8(Symbol1(a), Symbol1(b))
  {
  }

  lemma Symbol2Xor(a: bv32, b: bv32)
    ensures Symbol2(Xor(a, b)) == Xor8(Symbol2(a), Symbol2(b))
  {
  }

  lemma Symbol3Xor(a: bv32, b: bv32)
    ensures Symbol3(Xor(a, b)) == Xor8(Symbol3(a), Symbol3(b))
  {
  }

  lemma Symbol4Xor(a: bv32, b: bv32)
    ensures Symbol4(Xor(a, b)) == Xor8(Symbol4(a), Symbol4(b))
  {
  }

  lemma Symbol5Xor(a: bv32, b: bv32)
    ensures Symbol5(Xor(a, b)) == Xor8(Symbol5(a), Symbol5(b))
  {
  }

  lemma UnpackXor(a: bv32, b: bv32)
    ensures Unpack(Xor(a, b)) == Diff(Unpack(a), Unpack(b))
  {
    hide Xor, Xor8, Symbol0, Symbol1, Symbol2, Symbol3, Symbol4, Symbol5;
    Symbol0Xor(a, b);
    Symbol1Xor(a, b);
    Symbol2Xor(a, b);
    Symbol3Xor(a, b);
    Symbol4Xor(a, b);
    Symbol5Xor(a, b);
    SixAlike(Unpack(Xor(a, b)), Diff(Unpack(a), Unpack(b)));
  }

  lemma SixAlike<T>(u: seq<T>, w: seq<T>)
    requires |u| == |w| == 6
    requires u[0] == w[0] && u[1] == w[1] && u[2] == w[2] && u[3] == w[3] && u[4] == w[4] && u[5] == w[5]
    ensures u == w
  {
  }

  lemma UnpackShift(c: bv32, x: bv8)
    requires c < 0x40000000 && x < 32
    ensures Unpack(Shift(c, x)) == Unpack(c)[1..] + [x]
  {
  }

  /** The checksum is the remainder of the polynomial with a leading one by the generator. */
  lemma {:induction false} PolyModIsRemainder(v: seq<bv8>) returns (q: seq<bv8>)
    requires Five(v)
    ensures |q| == |v| + 1 && Five(q) && Divided(Zeroes(6) + [1] + v, q, Unpack(PolyMod(v)))
  {
    if v == [] {
      q := [0];
      assert TimesGenerator([0]) == Zeroes(7) by {
        ProductNext([], 0);
        assert [] + [0] == [0 as bv8];
        assert forall i :: 0 <= i < 7 ==> Scale(0, GENERATOR)[i] == 0;
      }
      assert Unpack(1) == Zeroes(5) + [1];
      assert Zeroes(6) + [1] + v == Diff(Zeroes(7), Zeroes(1) + Unpack(1));
    } else {
      hide Step, Mul, Unpack, Divided;
      var n := |v| - 1;
      var q0 := PolyModIsRemainder(v[..n]);
      var c := PolyMod(v[..n]);
      PolyInRange(1, v[..n]);
      UnpackPacks(c);
      q := q0 + [Unpack(c)[0]];
      DividedNext(Zeroes(6) + [1] + v[..n], q0, Unpack(c), v[n]);
      StepIsNext(c, v[n]);
      assert Zeroes(6) + [1] + v == Zeroes(6) + [1] + v[..n] + [v[n]];
    }
  }

  /** A coefficient of the product is one of the other factor, plus what the earlier ones lead to. */
  lemma {:induction false} ProductAt(q: seq<bv8>, i: nat)
    requires i < |q| && Five(q)
    ensures TimesGenerator(q)[i] == Xor8(TimesGenerator(q[..i])[i], q[i])
  {
    hide Mul, Xor8, TimesGenerator;
    var n := |q| - 1;
    assert q == q[..n] + [q[n]];
    ProductNext(q[..n], q[n]);
    MulInRange(q[n], 0);
    var before, scaled := TimesGenerator(q[..n]), Scale(q[n], GENERATOR);
    assert TimesGenerator(q)[i] == Xor8((before + [0])[i], (Zeroes(n) + scaled)[i]);
    if i < n {
      ProductAt(q[..n], i);
      assert q[..n][..i] == q[..i];
      XorZero(before[i]);
    } else {
      assert scaled[0] == q[n];
    }
  }

  lemma DividedAt(p: seq<bv8>, q: seq<bv8>, r: seq<bv8>, i: nat)
    requires Divided(p, q, r) && Five(q) && i < |q|
    ensures i < |p| && p[i] == Xor8(TimesGenerator(q[..i])[i], q[i])
  {
    hide Mul, Xor8, TimesGenerator;
    ProductAt(q, i);
    assert p[i] == Xor8(TimesGenerator(q)[i], 0);
    XorZero(TimesGenerator(q)[i]);
  }

  lemma {:induction false} QuotientIsUnique(p: seq<bv8>, q: seq<bv8>, r: seq<bv8>, q': seq<bv8>, r': seq<bv8>, i: nat)
    requires Divided(p, q, r) && Divided(p, q', r') && Five(q) && Five(q') && |q| == |q'| && i <= |q|
    ensures q[..i] == q'[..i]
  {
    hide Mul, Xor8, TimesGenerator, Divided, Five;
    if i > 0 {
      var n := i - 1;
      QuotientIsUnique(p, q, r, q', r', n);
      DividedAt(p, q, r, n);
      DividedAt(p, q', r', n);
      XorOneToOne(TimesGenerator(q[..n])[n], q[n], q'[n]);
      assert q[..i] == q[..n] + [q[n]] && q'[..i] == q'[..n] + [q'[n]];
    }
  }

  /** There is one quotient and one remainder. */
  lemma RemainderIsUnique(p: seq<bv8>, q: seq<bv8>, r: seq<bv8>, q': seq<bv8>, r': seq<bv8>)
    requires Divided(p, q, r) && Divided(p, q', r') && Five(q) && Five(q')
    ensures q == q' && r == r'
  {
    QuotientIsUnique(p, q, r, q', r', |q|);
    assert q[..|q|] == q && q'[..|q|] == q';
    hide Mul, Xor8, TimesGenerator;
    forall i | 0 <= i < 6 ensures r[i] == r'[i] {
      var top := TimesGenerator(q)[|q| + i];
      assert p[|q| + i] == Xor8(top, r[i]) == Xor8(top, r'[i]);
      XorOneToOne(top, r[i], r'[i]);
    }
  }
}
