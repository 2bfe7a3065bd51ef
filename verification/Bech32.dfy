/**
 Bech32 and Bech32m: a checksum over GF(32), its algebra, and the text form with a human-readable
 part (BIP 173 and BIP 350).
 */
module Bech32 {

  // ---------------------------------------------------------------- the checksum

  function Xor(a: bv32, b: bv32): bv32 { a ^ b }
  function Xor8(v: bv8, w: bv8): bv8 { v ^ w }

  /** What the leading coefficient adds: a multiple of the generator for each of its bits. */
  function Reduce(c: bv32): bv32 {
    (if c & 0x2000000 == 0 then 0 as bv32 else 0x3b6a57b2)
    ^ (if c & 0x4000000 == 0 then 0 as bv32 else 0x26508e6d)
    ^ (if c & 0x8000000 == 0 then 0 as bv32 else 0x1ea119fa)
    ^ (if c & 0x10000000 == 0 then 0 as bv32 else 0x3d4233dd)
    ^ (if c & 0x20000000 == 0 then 0 as bv32 else 0x2a1462b3)
  }

  /** The other coefficients move up, and a new one enters. */
  function Shift(c: bv32, v: bv8): bv32 {
    ((c & 0x1ffffff) << 5) ^ (v as bv32)
  }

  /** Multiplication by x, modulo the generator, plus a new coefficient. */
  function Step(c: bv32, v: bv8): bv32 {
    Xor(Shift(c, v), Reduce(c))
  }

  function PolyModFrom(c: bv32, v: seq<bv8>): bv32 {
    if v == [] then c else Step(PolyModFrom(c, v[..|v| - 1]), v[|v| - 1])
  }

  function PolyMod(v: seq<bv8>): bv32 {
    PolyModFrom(1, v)
  }

  lemma ReduceLinear(a: bv32, b: bv32)
    ensures Reduce(Xor(a, b)) == Xor(Reduce(a), Reduce(b))
  {
  }

  lemma ShiftLinear(a: bv32, b: bv32, v: bv8, w: bv8)
    ensures Shift(Xor(a, b), Xor8(v, w)) == Xor(Shift(a, v), Shift(b, w))
  {
  }

  lemma XorAssociates(p: bv32, q: bv32, r: bv32)
    ensures Xor(Xor(p, q), r) == Xor(p, Xor(q, r)) && Xor(p, q) == Xor(q, p)
  {
  }

  lemma Exchange(p: bv32, q: bv32, r: bv32, s: bv32)
    ensures Xor(Xor(p, q), Xor(r, s)) == Xor(Xor(p, r), Xor(q, s))
  {
    hide Xor;
    XorAssociates(p, q, Xor(r, s));
    XorAssociates(q, r, s);
    XorAssociates(r, q, s);
    XorAssociates(p, r, Xor(q, s));
  }

  /** The step is linear over exclusive or. */
  lemma StepLinear(a: bv32, b: bv32, v: bv8, w: bv8)
    ensures Step(Xor(a, b), Xor8(v, w)) == Xor(Step(a, v), Step(b, w))
  {
    hide Shift, Reduce, Xor, Xor8;
    ReduceLinear(a, b);
    ShiftLinear(a, b, v, w);
    Exchange(Shift(a, v), Shift(b, w), Reduce(a), Reduce(b));
  }

  /** Whatever the state and the symbol, the next state has thirty bits. */
  lemma StepInRange(c: bv32, v: bv8)
    ensures Step(c, v) < 0x40000000
  {
  }

  /** No state but zero is led to zero by a zero. */
  lemma StepInjective(c: bv32)
    requires c < 0x40000000 && Step(c, 0) == 0
    ensures c == 0
  {
  }

  // ---------------------------------------------------------------- sequences of symbols

  /** Symbols of five bits. */
  ghost predicate Five(v: seq<bv8>) {
    forall i :: 0 <= i < |v| ==> v[i] < 32
  }

  lemma FiveSlice(v: seq<bv8>, i: nat, j: nat)
    requires Five(v) && i <= j <= |v|
    ensures Five(v[i..j])
  {
    forall k | 0 <= k < j - i ensures v[i..j][k] < 32 {
      assert v[i..j][k] == v[i + k];
    }
  }

  function Zeroes(n: nat): (z: seq<bv8>)
    ensures |z| == n && forall i :: 0 <= i < n ==> z[i] == 0
  {
    seq(n, _ => 0)
  }

  /** The difference of two sequences. */
  function Diff(u: seq<bv8>, w: seq<bv8>): (e: seq<bv8>)
    requires |u| == |w|
    ensures |e| == |u| && forall i :: 0 <= i < |u| ==> e[i] == Xor8(u[i], w[i])
  {
    seq(|u|, i requires 0 <= i < |u| => Xor8(u[i], w[i]))
  }

  lemma {:induction false} PolyLinear(a: bv32, b: bv32, u: seq<bv8>, w: seq<bv8>)
    requires |u| == |w|
    ensures PolyModFrom(Xor(a, b), Diff(u, w)) == Xor(PolyModFrom(a, u), PolyModFrom(b, w))
  {
    hide Step, PolyModFrom, Xor, Xor8;
    if u == [] {
      PolyNone(Xor(a, b));
      PolyNone(a);
      PolyNone(b);
      assert w == [] && Diff(u, w) == [];
    } else {
      var n := |u| - 1;
      PolyLinear(a, b, u[..n], w[..n]);
      var e := Diff(u, w);
      assert e[..n] == Diff(u[..n], w[..n]) && e[n] == Xor8(u[n], w[n]);
      PolyLast(Xor(a, b), e);
      PolyLast(a, u);
      PolyLast(b, w);
      StepLinear(PolyModFrom(a, u[..n]), PolyModFrom(b, w[..n]), u[n], w[n]);
    }
  }

  lemma PolyNone(c: bv32)
    ensures PolyModFrom(c, []) == c
  {
  }

  lemma PolyLast(c: bv32, v: seq<bv8>)
    requires v != []
    ensures PolyModFrom(c, v) == Step(PolyModFrom(c, v[..|v| - 1]), v[|v| - 1])
  {
  }

  lemma {:induction false} PolyAppend(c: bv32, u: seq<bv8>, w: seq<bv8>)
    ensures PolyModFrom(c, u + w) == PolyModFrom(PolyModFrom(c, u), w)
  {
    hide Step;
    if w == [] {
      assert u + w == u;
    } else {
      var n := |w| - 1;
      PolyAppend(c, u, w[..n]);
      assert (u + w)[..|u + w| - 1] == u + w[..n];
    }
  }

  lemma PolyInRange(c: bv32, v: seq<bv8>)
    requires c < 0x40000000
    ensures PolyModFrom(c, v) < 0x40000000
  {
    hide Step;
    if v != [] {
      StepInRange(PolyModFrom(c, v[..|v| - 1]), v[|v| - 1]);
    }
  }

  lemma StepOfZero()
    ensures Step(0, 0) == 0
  {
  }

  /** Zeroes lead zero to zero, and no other state to zero. */
  lemma {:induction false} PolyOfZeroes(c: bv32, z: seq<bv8>)
    requires c < 0x40000000 && forall i :: 0 <= i < |z| ==> z[i] == 0
    ensures PolyModFrom(c, z) < 0x40000000 && (PolyModFrom(c, z) == 0 <==> c == 0)
  {
    hide Step;
    if z != [] {
      var n := |z| - 1;
      PolyOfZeroes(c, z[..n]);
      var d := PolyModFrom(c, z[..n]);
      StepInRange(d, 0);
      StepOfZero();
      if Step(d, 0) == 0 {
        StepInjective(d);
      }
    }
  }

  function Append(c: bv32, x: bv32): bv32 { (c << 5) ^ x }

  /** Below 2^25 nothing is reduced: the symbol is appended. */
  lemma StepAppends(c: bv32, v: bv8)
    requires c < 0x2000000 && v < 32
    ensures Step(c, v) == Append(c, v as bv32)
  {
  }

  /** A bound on a few symbols side by side. */
  function Bound(n: nat): bv32 {
    if n == 0 then 1 else if n == 1 then 0x20 else if n == 2 then 0x400 else if n == 3 then 0x8000
    else if n == 4 then 0x100000 else if n == 5 then 0x2000000 else 0x40000000
  }

  lemma BoundIsSmall(n: nat)
    ensures Bound(n) <= 0x40000000 && (n < 6 ==> Bound(n) <= 0x2000000) && Bound(1) == 32
  {
  }

  lemma ByteIsZero(v: bv8)
    ensures v as bv32 == 0 <==> v == 0
    ensures v < 32 ==> v as bv32 < 32
  {
  }

  lemma Appended(c: bv32, x: bv32, n: nat)
    requires n < 6 && c < Bound(n) && x < 32
    ensures Append(c, x) < Bound(n + 1) && (Append(c, x) == 0 <==> c == 0 && x == 0)
  {
    if n == 0 {
    } else if n == 1 {
    } else if n == 2 {
    } else if n == 3 {
    } else if n == 4 {
    } else {
    }
  }

  lemma AppendedFirst(x: bv32)
    ensures Append(0, x) == x
  {
  }

  lemma SmallStep(c: bv32, v: bv8, n: nat)
    requires n < 6 && c < Bound(n) && v < 32
    ensures Step(c, v) == Append(c, v as bv32)
    ensures Step(c, v) < Bound(n + 1) && (Step(c, v) == 0 <==> c == 0 && v == 0)
  {
    hide Step, Append, Bound;
    BoundIsSmall(n);
    StepAppends(c, v);
    ByteIsZero(v);
    Appended(c, v as bv32, n);
  }

  /** Six symbols side by side. */
  function Pack(a: bv8, b: bv8, c: bv8, d: bv8, e: bv8, f: bv8): bv32 {
    Append(Append(Append(Append(Append(a as bv32, b as bv32), c as bv32), d as bv32), e as bv32), f as bv32)
  }

  lemma PackSteps(a: bv8, b: bv8, c: bv8, d: bv8, e: bv8, f: bv8)
    requires a < 32 && b < 32 && c < 32 && d < 32 && e < 32 && f < 32
    ensures Step(Step(Step(Step(Step(Step(0, a), b), c), d), e), f) == Pack(a, b, c, d, e, f)
  {
    hide Step, Append;
    BoundIsSmall(0);
    SmallStep(0, a, 0);
    AppendedFirst(a as bv32);
    var p := Step(0, a);
    hide Bound;
    SmallStep(p, b, 1);
    SmallStep(Step(p, b), c, 2);
    SmallStep(Step(Step(p, b), c), d, 3);
    SmallStep(Step(Step(Step(p, b), c), d), e, 4);
    SmallStep(Step(Step(Step(Step(p, b), c), d), e), f, 5);
  }

  lemma PackIsOneToOne(a: bv8, b: bv8, c: bv8, d: bv8, e: bv8, f: bv8)
    requires a < 32 && b < 32 && c < 32 && d < 32 && e < 32 && f < 32
    ensures var m := Pack(a, b, c, d, e, f);
            && m < 0x40000000
            && (m >> 25) & 31 == a as bv32 && (m >> 20) & 31 == b as bv32 && (m >> 15) & 31 == c as bv32
            && (m >> 10) & 31 == d as bv32 && (m >> 5) & 31 == e as bv32 && m & 31 == f as bv32
  {
  }

  // ---------------------------------------------------------------- errors in a row

  /** Up to six symbols are never lost. */
  lemma {:induction false} FewSymbols(v: seq<bv8>)
    requires |v| <= 6 && Five(v)
    ensures PolyModFrom(0, v) < Bound(|v|)
    ensures PolyModFrom(0, v) == 0 <==> forall i :: 0 <= i < |v| ==> v[i] == 0
  {
    hide Step;
    if v != [] {
      var n := |v| - 1;
      FewSymbols(v[..n]);
      SmallStep(PolyModFrom(0, v[..n]), v[n], n);
      assert forall i :: 0 <= i < n ==> v[..n][i] == v[i];
    }
  }

  lemma ErrorSymbols(u: seq<bv8>, w: seq<bv8>)
    requires |u| == |w| && Five(u) && Five(w)
    ensures Five(Diff(u, w)) && forall i :: 0 <= i < |u| ==> (Diff(u, w)[i] == 0 <==> u[i] == w[i])
  {
    forall i | 0 <= i < |u| ensures Diff(u, w)[i] < 32 && (Diff(u, w)[i] == 0 <==> u[i] == w[i]) {
      XorOfSymbols(u[i], w[i]);
    }
  }

  lemma XorOfSymbols(v: bv8, w: bv8)
    requires v < 32 && w < 32
    ensures Xor8(v, w) < 32 && (Xor8(v, w) == 0 <==> v == w)
  {
  }

  lemma XorIsZero(a: bv32, b: bv32)
    ensures Xor(a, b) == 0 <==> a == b
  {
  }

  /** Errors in a window of six symbols leave a state that is not zero. */
  lemma ErrorState(e: seq<bv8>, k: nat)
    requires Five(e) && k <= |e| && (forall i :: 0 <= i < |e| && (i < k || i >= k + 6) ==> e[i] == 0)
    requires exists i :: 0 <= i < |e| && e[i] != 0
    ensures PolyModFrom(0, e) != 0
  {
    hide PolyModFrom;
    var m := if k + 6 <= |e| then k + 6 else |e|;
    var head, window, tail := e[..k], e[k..m], e[m..];
    assert e == head + window + tail;
    PolyAppend(0, head + window, tail);
    PolyAppend(0, head, window);
    PolyOfZeroes(0, head);
    FiveSlice(e, k, m);
    FewSymbols(window);
    var i :| 0 <= i < |e| && e[i] != 0;
    assert window[i - k] != 0;
    var c := PolyModFrom(0, window);
    BoundIsSmall(|window|);
    PolyOfZeroes(c, tail);
  }

  /** Any corruption confined to six consecutive symbols changes the checksum, at any length. */
  lemma BurstIsDetected(u: seq<bv8>, w: seq<bv8>, k: nat)
    requires |u| == |w| && Five(u) && Five(w) && u != w && k <= |u|
    requires forall i :: 0 <= i < |u| && (i < k || i >= k + 6) ==> u[i] == w[i]
    ensures PolyMod(u) != PolyMod(w)
  {
    hide PolyModFrom, Xor, Xor8;
    ErrorSymbols(u, w);
    ErrorState(Diff(u, w), k);
    PolyLinear(1, 1, u, w);
    XorIsZero(1, 1);
    XorIsZero(PolyMod(u), PolyMod(w));
  }

  // ---------------------------------------------------------------- making the checksum

  datatype Encoding = BECH32 | BECH32M

  function Constant(e: Encoding): bv32 {
    if e == BECH32 then 1 else 0x2bc830a3
  }

  function Symbol0(m: bv32): bv8 { ((m >> 25) & 31) as bv8 }
  function Symbol1(m: bv32): bv8 { ((m >> 20) & 31) as bv8 }
  function Symbol2(m: bv32): bv8 { ((m >> 15) & 31) as bv8 }
  function Symbol3(m: bv32): bv8 { ((m >> 10) & 31) as bv8 }
  function Symbol4(m: bv32): bv8 { ((m >> 5) & 31) as bv8 }
  function Symbol5(m: bv32): bv8 { (m & 31) as bv8 }

  /** The six symbols of a 30-bit number. */
  function Unpack(m: bv32): (r: seq<bv8>)
    ensures |r| == 6
  {
    [Symbol0(m), Symbol1(m), Symbol2(m), Symbol3(m), Symbol4(m), Symbol5(m)]
  }

  function Packed(c: seq<bv8>): bv32
    requires |c| == 6
  {
    Pack(c[0], c[1], c[2], c[3], c[4], c[5])
  }

  lemma UnpackPacks(m: bv32)
    requires m < 0x40000000
    ensures Five(Unpack(m)) && Packed(Unpack(m)) == m
  {
  }

  lemma PackedOnce(c: seq<bv8>)
    requires |c| == 6 && Five(c)
    ensures Packed(c) < 0x40000000 && Unpack(Packed(c)) == c
  {
    PackIsOneToOne(c[0], c[1], c[2], c[3], c[4], c[5]);
  }

  lemma PolyOfSix(c: seq<bv8>)
    requires |c| == 6 && Five(c)
    ensures PolyModFrom(0, c) == Packed(c)
  {
    hide Step, Pack;
    PackSteps(c[0], c[1], c[2], c[3], c[4], c[5]);
    Unrolled(c);
  }

  lemma Unrolled(c: seq<bv8>)
    requires |c| == 6
    ensures PolyModFrom(0, c) == Step(Step(Step(Step(Step(Step(0, c[0]), c[1]), c[2]), c[3]), c[4]), c[5])
  {
    hide Step;
    assert c[..5][..4] == c[..4] && c[..4][..3] == c[..3] && c[..3][..2] == c[..2] && c[..2][..1] == c[..1];
    assert c[..1][..0] == [];
    assert PolyModFrom(0, c[..1]) == Step(0, c[0]);
    assert PolyModFrom(0, c[..2]) == Step(PolyModFrom(0, c[..1]), c[1]);
    assert PolyModFrom(0, c[..3]) == Step(PolyModFrom(0, c[..2]), c[2]);
    assert PolyModFrom(0, c[..4]) == Step(PolyModFrom(0, c[..3]), c[3]);
    assert PolyModFrom(0, c[..5]) == Step(PolyModFrom(0, c[..4]), c[4]);
  }

  /** Six symbols at the end are added to what six zeroes would give. */
  lemma LastSix(v: seq<bv8>, c: seq<bv8>)
    requires |c| == 6 && Five(c)
    ensures PolyMod(v + c) == Xor(PolyMod(v + Zeroes(6)), Packed(c))
  {
    hide PolyModFrom, Xor, Xor8, Packed;
    var s := PolyMod(v);
    PolyAppend(1, v, c);
    PolyAppend(1, v, Zeroes(6));
    PolyLinear(s, 0, Zeroes(6), c);
    XorWithZero(s);
    DiffWithZero(c);
    PolyOfSix(c);
  }

  lemma XorWithZero(a: bv32)
    ensures Xor(a, 0) == a && Xor(0, a) == a
  {
  }

  lemma DiffWithZero(c: seq<bv8>)
    ensures Diff(Zeroes(|c|), c) == c
  {
  }
}
