/**
 base_uint: unsigned numbers of a fixed number of 32-bit limbs, updated in place, and 256-bit
 numbers with their compact form. Each operation is proved against arithmetic on its value.
 */
module ArithUint256 {
  import opened ArithModel

  class BaseUint {
    const pn: array<nat>

    ghost predicate Valid()
      reads this, pn
    {
      pn.Length >= 2 && Limbs(pn[..])
    }

    ghost function Value(): nat
      reads this, pn
    {
      Val(pn[..])
    }

    /** One more than the largest value. */
    ghost function Modulus(): nat {
      Weight(pn.Length)
    }

    constructor (width: nat)
      requires width >= 2
      ensures Valid() && fresh(pn) && pn.Length == width && Value() == 0
    {
      pn := new nat[width](_ => 0);
      new;
      ValZero(pn[..]);
    }

    /** A copy. */
    constructor Copy(b: BaseUint)
      requires b.Valid()
      ensures Valid() && fresh(pn) && pn.Length == b.pn.Length && pn[..] == b.pn[..]
    {
      pn := new nat[b.pn.Length](i requires 0 <= i < b.pn.Length reads b, b.pn => b.pn[i]);
      new;
      assert pn[..] == b.pn[..];
    }

    method Assign(b: BaseUint)
      requires Valid() && b.Valid() && b.pn.Length == pn.Length
      modifies pn
      ensures Valid() && pn[..] == old(b.pn[..])
    {
      for i := 0 to pn.Length
        invariant pn[..i] == old(b.pn[..i]) && Limbs(pn[..])
        invariant b.pn[..] == (if b.pn == pn then pn[..] else old(b.pn[..]))
        invariant b.pn == pn ==> pn[..] == old(pn[..])
      {
        pn[i] := b.pn[i];
      }
    }

    /** The constructor and the assignment from a 64-bit number. */
    method Set(b: nat)
      requires Valid() && b < LIMB * LIMB
      modifies pn
      ensures Valid() && Value() == b
    {
      hide Val;
      pn[0] := b % LIMB;
      pn[1] := b / LIMB;
      for i := 2 to pn.Length
        invariant pn[0] == b % LIMB && pn[1] == b / LIMB && Limbs(pn[..])
        invariant forall j :: 2 <= j < i ==> pn[j] == 0
      {
        pn[i] := 0;
      }
      LowTwo(pn[..], b);
    }

    method Add(b: BaseUint)
      requires Valid() && b.Valid() && b.pn.Length == pn.Length
      modifies pn
      ensures Valid() && Value() == (old(Value()) + old(b.Value())) % Modulus()
    {
      hide Val, Weight, AddSoFar;
      ghost var x, y := pn[..], b.pn[..];
      var carry := 0;
      var i := 0;
      AddStart(x, y);
      while i < pn.Length
        invariant 0 <= i <= pn.Length && Limbs(pn[..]) && 0 <= carry <= 1
        invariant pn[i..] == x[i..] && b.pn[i..] == y[i..]
        invariant AddSoFar(x, y, i, carry, pn[..])
      {
        assert pn[i] == x[i] && b.pn[i] == y[i];
        var n := carry + pn[i] + b.pn[i];
        assert n < LIMB * LIMB;
        ghost var r := pn[..];
        pn[i] := Word(n);
        assert pn[..] == r[i := Word(n)];
        AddStep(x, y, i, carry, r);
        carry := n / LIMB;
        i := i + 1;
      }
      AddEnd(x, y, carry, pn[..]);
    }

    /** Bitwise complement. */
    method Complement() returns (r: BaseUint)
      requires Valid()
      ensures r.Valid() && fresh(r) && fresh(r.pn) && r.pn.Length == pn.Length
      ensures r.Value() == Modulus() - 1 - Value()
    {
      hide Val;
      r := new BaseUint(pn.Length);
      for i := 0 to pn.Length
        invariant Limbs(r.pn[..]) && forall j :: 0 <= j < i ==> r.pn[j] == LIMB - 1 - pn[j]
      {
        r.pn[i] := LIMB - 1 - pn[i];
      }
      ComplementValue(pn[..], r.pn[..]);
    }

    method Increment()
      requires Valid()
      modifies pn
      ensures Valid() && Value() == (old(Value()) + 1) % Modulus()
    {
      hide Val, Weight;
      ghost var x := pn[..];
      var i := 0;
      while i < pn.Length
        invariant 0 <= i <= pn.Length && Limbs(pn[..]) && pn[i..] == x[i..]
        invariant forall j :: 0 <= j < i ==> x[j] == LIMB - 1 && pn[j] == 0
      {
        assert pn[i] == x[i];
        pn[i] := (pn[i] + 1) % LIMB;
        if pn[i] != 0 {
          IncrementedAt(x, i, pn[..]);
          return;
        }
        i := i + 1;
      }
      IncrementedOut(x, pn[..]);
    }

    method Decrement()
      requires Valid()
      modifies pn
      ensures Valid() && Value() == (old(Value()) + Modulus() - 1) % Modulus()
    {
      hide Val, Weight;
      ghost var x := pn[..];
      var i := 0;
      while i < pn.Length
        invariant 0 <= i <= pn.Length && Limbs(pn[..]) && pn[i..] == x[i..]
        invariant forall j :: 0 <= j < i ==> x[j] == 0 && pn[j] == LIMB - 1
      {
        assert pn[i] == x[i];
        pn[i] := (pn[i] + LIMB - 1) % LIMB;
        if pn[i] != LIMB - 1 {
          IncrementedAt(pn[..], i, x);
          return;
        }
        i := i + 1;
      }
      IncrementedOut(pn[..], x);
    }

    method Negate() returns (r: BaseUint)
      requires Valid()
      ensures r.Valid() && fresh(r) && fresh(r.pn) && r.pn.Length == pn.Length
      ensures r.Value() == (Modulus() - Value()) % Modulus()
    {
      r := Complement();
      r.Increment();
    }

    method Subtract(b: BaseUint)
      requires Valid() && b.Valid() && b.pn.Length == pn.Length
      modifies pn
      ensures Valid() && Value() == (old(Value()) + Modulus() - old(b.Value())) % Modulus()
    {
      hide Val, Weight;
      ValBound(b.pn[..]);
      ghost var x, y, m := Value(), b.Value(), Modulus();
      var minus := b.Negate();
      Add(minus);
      AddOfNegated(x, y, m);
    }

    /** The same limbs, and so the same number. */
    method Equals(b: BaseUint) returns (same: bool)
      requires Valid() && b.Valid() && b.pn.Length == pn.Length
      ensures same <==> Value() == b.Value()
    {
      hide Val, Weight;
      SameLimbs(pn[..], b.pn[..]);
      for i := 0 to pn.Length
        invariant pn[..i] == b.pn[..i]
      {
        if pn[i] != b.pn[i] {
          assert pn[..][i] != b.pn[..][i];
          return false;
        }
        assert pn[..i + 1] == pn[..i] + [pn[i]] && b.pn[..i + 1] == b.pn[..i] + [b.pn[i]];
      }
      assert pn[..] == pn[..pn.Length] && b.pn[..] == b.pn[..pn.Length];
      return true;
    }

    method CompareTo(b: BaseUint) returns (r: int)
      requires Valid() && b.Valid() && b.pn.Length == pn.Length
      ensures r == if Value() < b.Value() then -1 else if Value() > b.Value() then 1 else 0
    {
      hide Val, Weight;
      var i := pn.Length;
      while i > 0
        invariant 0 <= i <= pn.Length && pn[i..] == b.pn[i..]
      {
        i := i - 1;
        if pn[i] < b.pn[i] {
          Less(pn[..], b.pn[..], i);
          return -1;
        }
        if pn[i] > b.pn[i] {
          Less(b.pn[..], pn[..], i);
          return 1;
        }
      }
      assert pn[..] == b.pn[..];
      return 0;
    }

    /** Multiplication by a 32-bit number. */
    method MulWord(b32: nat)
      requires Valid() && b32 < LIMB
      modifies pn
      ensures Valid() && Value() == (old(Value()) * b32) % Modulus()
    {
      hide Val, Weight, MulSoFar;
      ghost var x := pn[..];
      var carry := 0;
      var i := 0;
      MulStart(x, b32);
      while i < pn.Length
        invariant 0 <= i <= pn.Length && Limbs(pn[..]) && 0 <= carry < LIMB && pn[i..] == x[i..]
        invariant MulSoFar(x, b32, i, carry, pn[..])
      {
        assert pn[i] == x[i];
        Accumulated(carry, 0, b32, pn[i]);
        var n := carry + b32 * pn[i];
        ghost var r := pn[..];
        pn[i] := Word(n);
        assert pn[..] == r[i := Word(n)];
        MulStep(x, b32, i, carry, n, r);
        carry := n / LIMB;
        i := i + 1;
      }
      MulEnd(x, b32, carry, pn[..]);
    }

    /** The inner loop of the multiplication: one limb times b is added from position j on. What
        is carried out of the top is returned. */
    method AddRow(b: BaseUint, j: nat, limb: nat) returns (carry: nat)
      requires Valid() && b.Valid() && b.pn.Length == pn.Length && b.pn != pn && j < pn.Length && limb < LIMB
      modifies pn
      ensures Valid() && Value() + carry * Modulus() == old(Value()) + limb * Weight(j) * Val(b.pn[..pn.Length - j])
    {
      hide Val, Weight, RowSoFar;
      ghost var x, y := pn[..], b.pn[..];
      carry := 0;
      var i := 0;
      RowStart(x, y, j, limb);
      while i + j < pn.Length
        invariant 0 <= i <= pn.Length - j && Limbs(pn[..]) && 0 <= carry < LIMB && pn[j + i..] == x[j + i..]
        invariant b.pn[..] == y
        invariant RowSoFar(x, y, j, limb, i, carry, pn[..])
      {
        assert pn[j + i] == x[j + i];
        Accumulated(carry, pn[i + j], limb, b.pn[i]);
        var n := carry + pn[i + j] + limb * b.pn[i];
        ghost var r := pn[..];
        pn[i + j] := Word(n);
        assert pn[..] == r[j + i := Word(n)];
        RowStep(x, y, j, limb, i, carry, n, r);
        carry := n / LIMB;
        i := i + 1;
      }
      assert y[..i] == b.pn[..pn.Length - j];
      RowEnd(x, y, j, limb, carry, pn[..]);
    }

    /** Multiplication. */
    method Mul(b: BaseUint)
      requires Valid() && b.Valid() && b.pn.Length == pn.Length
      modifies pn
      ensures Valid() && Value() == (old(Value()) * old(b.Value())) % Modulus()
    {
      hide Val, Weight;
      ghost var x, y := pn[..], b.pn[..];
      var a := new BaseUint(pn.Length);
      ghost var out: nat := 0;
      RowsStart(x, Val(y));
      for j := 0 to pn.Length
        invariant a.Valid() && a.pn.Length == pn.Length && fresh(a.pn) && pn[..] == x && b.pn[..] == y
        invariant a.Value() + out * Modulus() == Val(x[..j]) * Val(y)
      {
        ghost var before := a.Value();
        var carry := a.AddRow(b, j, pn[j]);
        out := RowsStep(x, y, j, carry, before, a.Value(), out);
      }
      assert x[..pn.Length] == x;
      ValBound(a.pn[..]);
      DivModUnique(Val(x) * Val(y), Weight(pn.Length), out, Val(a.pn[..]));
      Assign(a);
    }

    method ShiftLeft(shift: nat)
      requires Valid()
      modifies pn
      ensures Valid() && Value() == (old(Value()) * Pow2(shift)) % Modulus()
    {
      hide Val, Weight, Pow2, Or, ShiftedLeft, Over;
      var a := new BaseUint.Copy(this);
      ghost var x := a.pn[..];
      Clear();
      var k, s := shift / 32, shift % 32;
      ghost var d := Pow2(s);
      ShiftLeftStart(x, d, k, pn[..]);
      for i := 0 to pn.Length
        invariant Limbs(pn[..]) && a.pn[..] == x && a.pn != pn
        invariant forall j :: 0 <= j < pn.Length && (j < k || j > k + i) ==> pn[j] == 0
        invariant k + i < pn.Length ==> pn[k + i] == Over(x, d, i)
        invariant k + i <= pn.Length ==> ShiftedSoFar(x, d, k, i, pn[..])
        invariant k + i >= pn.Length > k ==> ShiftedLeft(x, d, k, pn[..])
      {
        ShiftedApart(x, s, i);
        if i + k + 1 < pn.Length && s != 0 {
          OrZero(Shr(a.pn[i], 32 - s));
          pn[i + k + 1] := Or(pn[i + k + 1], Shr(a.pn[i], 32 - s));
        }
        if i + k < pn.Length {
          ghost var r := pn[..];
          pn[i + k] := Or(pn[i + k], Shl(a.pn[i], s));
          assert pn[..] == r[k + i := pn[k + i]];
          ShiftLeftStep(x, d, k, i, r, pn[..]);
          if k + i + 1 == pn.Length {
            ShiftLeftEnd(x, d, k, pn[..]);
          }
        }
      }
      ShiftLeftDone(x, k, s, shift, pn[..]);
    }

    method ShiftRight(shift: nat)
      requires Valid()
      modifies pn
      ensures Valid() && Value() == old(Value()) / Pow2(shift)
    {
      hide Val, Weight, Pow2, Or, ShiftedRight, RightStep;
      var a := new BaseUint.Copy(this);
      ghost var x := a.pn[..];
      Clear();
      var k, s := shift / 32, shift % 32;
      ghost var d := Pow2(s);
      for i := 0 to pn.Length
        invariant Limbs(pn[..]) && a.pn[..] == x && a.pn != pn
        invariant i <= k ==> forall j :: 0 <= j < pn.Length ==> pn[j] == 0
        invariant i > k ==> ShiftedRight(x, d, k, i, pn[..])
      {
        ghost var r := pn[..];
        if i > k {
          ShiftRightNext(x, s, k, i, r);
        } else if i == k {
          ShiftRightFirst(x, s, k, r);
        }
        if i - k - 1 >= 0 && s != 0 {
          pn[i - k - 1] := Or(pn[i - k - 1], Shl(a.pn[i], 32 - s));
        }
        if i - k >= 0 {
          ghost var r1 := pn[..];
          pn[i - k] := Or(pn[i - k], Shr(a.pn[i], s));
          assert pn[..] == r1[i - k := pn[i - k]];
          RightStepIs(x, s, k, i, r, r1, pn[..]);
        }
      }
      ShiftRightDone(x, k, s, shift, pn[..]);
    }

    /** The length of the number in binary; zero has none. */
    method Bits() returns (b: nat)
      requires Valid()
      ensures b <= 32 * pn.Length && IsBits(Value(), b)
    {
      hide Val, Weight, Pow2, Bit;
      var pos := pn.Length;
      while pos > 0
        invariant 0 <= pos <= pn.Length && forall j :: pos <= j < pn.Length ==> pn[j] == 0
      {
        pos := pos - 1;
        if pn[pos] != 0 {
          Pow2Word();
          var nbits := 31;
          while nbits > 0
            invariant 0 <= nbits <= 31 && pn[pos] < Pow2(nbits + 1)
          {
            TopBit(pn[pos], nbits);
            if Bit(pn[pos], nbits) {
              BitsOfLimb(pn[..], pos, nbits);
              return 32 * pos + nbits + 1;
            }
            nbits := nbits - 1;
          }
          TopBit(pn[pos], 0);
          BitsOfLimb(pn[..], pos, 0);
          return 32 * pos + 1;
        }
      }
      ValZero(pn[..]);
      Pow2First();
      return 0;
    }

    /** One round of the division. */
    method DivisionStep(num: BaseUint, div: BaseUint, shift: nat, ghost x: nat, ghost y: nat)
      requires Valid() && num.Valid() && div.Valid() && num.pn.Length == div.pn.Length == pn.Length
      requires num.pn != div.pn && num.pn != pn && div.pn != pn && shift < 32 * pn.Length
      requires Dividing(x, y, shift + 1, num.Value(), Value()) && div.Value() == y * Pow2(shift)
      modifies pn, num.pn, div.pn
      ensures Valid() && num.Valid() && div.Valid()
      ensures Dividing(x, y, shift, num.Value(), Value())
      ensures shift >= 1 ==> div.Value() == y * Pow2(shift - 1)
    {
      hide Val, Weight, Pow2, Or, Dividing;
      ghost var n, q := num.Value(), Value();
      DivStep(x, y, shift, n, q);
      var c := num.CompareTo(div);
      if c >= 0 {
        ValBound(num.pn[..]);
        PlainSubtraction(n, div.Value(), Modulus());
        num.Subtract(div);
        NoBitYet(x, y, shift, n, q);
        SetBit(pn[..], shift);
        ghost var r := pn[..];
        pn[shift / 32] := Or(pn[shift / 32], Pow2(shift % 32));
        assert pn[..] == r[shift / 32 := pn[shift / 32]];
      }
      if shift >= 1 {
        HalfShift(y, shift);
      }
      div.ShiftRight(1);
    }

    /** Division by shifting and subtracting; division by zero is refused. The quotient replaces
        the number. */
    method Div(b: BaseUint) returns (ok: bool)
      requires Valid() && b.Valid() && b.pn.Length == pn.Length
      modifies pn
      ensures Valid() && (ok <==> old(b.Value()) != 0)
      ensures ok ==> Value() == old(Value()) / old(b.Value())
      ensures !ok ==> Value() == 0
    {
      hide Val, Weight, Pow2, IsBits, Or, Dividing;
      ghost var x, y := Value(), b.Value();
      var div := new BaseUint.Copy(b);
      var num := new BaseUint.Copy(this);
      Clear();
      ValZero(pn[..]);
      var numBits := num.Bits();
      var divBits := div.Bits();
      BitsCompared(x, y, numBits, divBits);
      if divBits == 0 {
        return false;
      }
      if divBits > numBits {
        return true;
      }
      var shift: int := numBits - divBits;
      DivStarts(x, y, numBits, divBits, pn.Length);
      div.ShiftLeft(shift);
      while shift >= 0
        invariant Valid() && num.Valid() && div.Valid() && num.pn.Length == div.pn.Length == pn.Length
        invariant fresh(num.pn) && fresh(div.pn) && num.pn != div.pn && num.pn != pn && div.pn != pn
        invariant -1 <= shift < 32 * pn.Length
        invariant Dividing(x, y, shift + 1, num.Value(), Value())
        invariant shift >= 0 ==> div.Value() == y * Pow2(shift)
      {
        DivisionStep(num, div, shift, x, y);
        shift := shift - 1;
      }
      DivEnds(x, y, num.Value(), Value());
      return true;
    }

    method Clear()
      requires Valid()
      modifies pn
      ensures Valid() && forall j :: 0 <= j < pn.Length ==> pn[j] == 0
    {
      for i := 0 to pn.Length
        invariant Limbs(pn[..]) && forall j :: 0 <= j < i ==> pn[j] == 0
      {
        pn[i] := 0;
      }
    }
  }

  /** The two low limbs. */
  lemma LowTwo(s: seq<nat>, b: nat)
    requires |s| >= 2 && s[0] == b % LIMB && s[1] == b / LIMB && forall j :: 2 <= j < |s| ==> s[j] == 0
    ensures Val(s) == b
  {
    hide Val, Weight;
    ValSplit(s, 2);
    ValZero(s[2..]);
    ValNext(s, 1);
    ValNext(s, 0);
    ValLast(s[..0]);
    WeightFirst();
  }

  lemma {:induction false} ComplementValue(s: seq<nat>, r: seq<nat>)
    requires |s| == |r| && forall j :: 0 <= j < |s| ==> s[j] < LIMB && r[j] == LIMB - 1 - s[j]
    ensures Val(r) == Weight(|s|) - 1 - Val(s)
  {
    hide Val, Weight;
    ValLast(s);
    ValLast(r);
    WeightFirst();
    if s != [] {
      var n := |s| - 1;
      ComplementValue(s[..n], r[..n]);
      WeightNext(n);
      var w, d: int := Weight(n), s[n];
      assert r[n] * w == LIMB * w - w - d * w;
    }
  }

  lemma {:induction false} AllOnes(s: seq<nat>)
    requires forall j :: 0 <= j < |s| ==> s[j] == LIMB - 1
    ensures Val(s) == Weight(|s|) - 1
  {
    var zero := seq(|s|, _ => 0);
    ValZero(zero);
    ComplementValue(zero, s);
  }

  /** y is one more than x: the low limbs of x are full, those of y empty. */
  lemma IncrementedAt(x: seq<nat>, i: nat, y: seq<nat>)
    requires Limbs(x) && Limbs(y) && |x| == |y| && i < |x| && x[i + 1..] == y[i + 1..] && (x[i] + 1 == y[i] < LIMB)
    requires forall j :: 0 <= j < i ==> x[j] == LIMB - 1 && y[j] == 0
    ensures Val(y) == (Val(x) + 1) % Weight(|x|) && Val(x) == (Val(y) + Weight(|x|) - 1) % Weight(|x|)
  {
    hide Val, Weight;
    AllOnes(x[..i]);
    ValZero(y[..i]);
    ValNext(x, i);
    ValNext(y, i);
    ValSplit(x, i + 1);
    ValSplit(y, i + 1);
    Distribute(x[i], 1, Weight(i));
    assert Val(y) == Val(x) + 1;
    ValBound(x);
    ValBound(y);
    DivModUnique(Val(x) + 1, Weight(|x|), 0, Val(y));
    DivModUnique(Val(y) + Weight(|x|) - 1, Weight(|x|), 1, Val(x));
  }

  lemma IncrementedOut(x: seq<nat>, y: seq<nat>)
    requires |x| == |y| && forall j :: 0 <= j < |x| ==> x[j] == LIMB - 1 && y[j] == 0
    ensures Val(y) == (Val(x) + 1) % Weight(|x|) && Val(x) == (Val(y) + Weight(|x|) - 1) % Weight(|x|)
  {
    hide Val, Weight;
    AllOnes(x);
    ValZero(y);
    DivModUnique(Val(x) + 1, Weight(|x|), 1, 0);
    DivModUnique(Weight(|x|) - 1, Weight(|x|), 0, Weight(|x|) - 1);
  }

  lemma AddOfNegated(x: nat, y: nat, m: nat)
    requires y < m
    ensures (x + (m - y) % m) % m == (x + m - y) % m
  {
    if y == 0 {
      DivModUnique(m, m, 1, 0);
      DivModUnique(x + m, m, x / m + 1, x % m);
    } else {
      DivModUnique(m - y, m, 0, m - y);
    }
  }

  lemma Less(x: seq<nat>, y: seq<nat>, i: nat)
    requires Limbs(x) && Limbs(y) && |x| == |y| && i < |x| && x[i] < y[i] && x[i + 1..] == y[i + 1..]
    ensures Val(x) < Val(y)
  {
    hide Val, Weight;
    ValSplit(x, i + 1);
    ValSplit(y, i + 1);
    ValNext(x, i);
    ValNext(y, i);
    ValBound(x[..i]);
    MulMonotone(x[i] + 1, y[i], Weight(i));
    Distribute(x[i], 1, Weight(i));
  }

  /** A 64-bit accumulator holds a limb, a carry and a product of two limbs. */
  lemma Accumulated(carry: nat, limb: nat, x: nat, y: nat)
    requires carry < LIMB && limb < LIMB && x < LIMB && y < LIMB
    ensures carry + limb + x * y < LIMB * LIMB && (carry + limb + x * y) / LIMB < LIMB
  {
    MulMonotone(x, LIMB - 1, y);
    MulMonotone(y, LIMB - 1, LIMB - 1);
    var n := carry + limb + x * y;
    assert n <= (LIMB - 1) + (LIMB - 1) + (LIMB - 1) * (LIMB - 1);
    assert n < LIMB * LIMB;
  }

  ghost predicate MulSoFar(x: seq<nat>, b: nat, i: nat, carry: nat, r: seq<nat>)
    requires i <= |x| == |r|
  {
    Val(r[..i]) + carry * Weight(i) == Val(x[..i]) * b
  }

  lemma MulStart(x: seq<nat>, b: nat)
    ensures MulSoFar(x, b, 0, 0, x)
  {
    assert x[..0] == [];
  }

  lemma MulStep(x: seq<nat>, b: nat, i: nat, carry: nat, n: nat, r: seq<nat>)
    requires i < |x| == |r| && n == carry + b * x[i] && MulSoFar(x, b, i, carry, r)
    ensures MulSoFar(x, b, i + 1, n / LIMB, r[i := Word(n)])
  {
    hide Val, Weight;
    var r' := r[i := Word(n)];
    assert r'[..i] == r[..i];
    CarryStep(r', i, n);
    ValNext(x, i);
    var w := Weight(i);
    Distribute(Val(x[..i]), x[i] * w, b);
    Distribute(carry, b * x[i], w);
    Associate(b, x[i], w);
  }

  lemma MulEnd(x: seq<nat>, b: nat, carry: nat, r: seq<nat>)
    requires |x| == |r| && Limbs(r) && MulSoFar(x, b, |x|, carry, r)
    ensures Val(r) == Val(x) * b % Weight(|x|)
  {
    hide Val, Weight;
    assert r[..|x|] == r && x[..|x|] == x;
    ValBound(r);
    DivModUnique(Val(x) * b, Weight(|x|), carry, Val(r));
  }

  /** A limb and a carry out of an accumulator. */
  lemma CarryStep(s: seq<nat>, i: nat, n: nat)
    requires i < |s| && s[i] == n % LIMB
    ensures Val(s[..i + 1]) + (n / LIMB) * Weight(i + 1) == Val(s[..i]) + n * Weight(i)
  {
    hide Val, Weight;
    ValNext(s, i);
    WeightNext(i);
    var w, q, r := Weight(i), n / LIMB, n % LIMB;
    Associate(q, LIMB, w);
    Distribute(r, q * LIMB, w);
  }

  ghost predicate AddSoFar(x: seq<nat>, y: seq<nat>, i: nat, carry: nat, r: seq<nat>)
    requires i <= |x| == |y| == |r|
  {
    Val(r[..i]) + carry * Weight(i) == Val(x[..i]) + Val(y[..i])
  }

  lemma AddStart(x: seq<nat>, y: seq<nat>)
    requires |x| == |y|
    ensures AddSoFar(x, y, 0, 0, x)
  {
    assert x[..0] == [] && y[..0] == [];
  }

  lemma AddStep(x: seq<nat>, y: seq<nat>, i: nat, carry: nat, r: seq<nat>)
    requires i < |x| == |y| == |r| && AddSoFar(x, y, i, carry, r)
    ensures var n := carry + x[i] + y[i];
            AddSoFar(x, y, i + 1, n / LIMB, r[i := Word(n)])
  {
    hide Val, Weight;
    var n := carry + x[i] + y[i];
    var r' := r[i := Word(n)];
    assert r'[..i] == r[..i];
    CarryStep(r', i, n);
    ValNext(x, i);
    ValNext(y, i);
    var w := Weight(i);
    assert n * w == carry * w + x[i] * w + y[i] * w;
  }

  lemma AddEnd(x: seq<nat>, y: seq<nat>, carry: nat, r: seq<nat>)
    requires |x| == |y| == |r| && Limbs(r) && AddSoFar(x, y, |x|, carry, r)
    ensures Val(r) == (Val(x) + Val(y)) % Weight(|x|)
  {
    hide Val, Weight;
    assert r[..|x|] == r && x[..|x|] == x && y[..|x|] == y;
    ValBound(r);
    DivModUnique(Val(x) + Val(y), Weight(|x|), carry, Val(r));
  }

  ghost predicate RowSoFar(x: seq<nat>, y: seq<nat>, j: nat, limb: nat, i: nat, carry: nat, r: seq<nat>)
    requires j + i <= |x| == |r| && i <= |y|
  {
    Val(r[..j + i]) + carry * Weight(j + i) == Val(x[..j + i]) + limb * Weight(j) * Val(y[..i])
  }

  lemma RowStart(x: seq<nat>, y: seq<nat>, j: nat, limb: nat)
    requires j <= |x|
    ensures RowSoFar(x, y, j, limb, 0, 0, x)
  {
    assert y[..0] == [];
  }

  lemma RowStep(x: seq<nat>, y: seq<nat>, j: nat, limb: nat, i: nat, carry: nat, n: nat, r: seq<nat>)
    requires j + i < |x| == |r| && i < |y| && n == carry + x[j + i] + limb * y[i]
    requires RowSoFar(x, y, j, limb, i, carry, r)
    ensures RowSoFar(x, y, j, limb, i + 1, n / LIMB, r[j + i := Word(n)])
  {
    hide Val, Weight;
    var r' := r[j + i := Word(n)];
    assert r'[..j + i] == r[..j + i];
    CarryStep(r', j + i, n);
    ValNext(x, j + i);
    ValNext(y, i);
    WeightAdd(j, i);
    RowProduct(limb, Weight(j), y[i], Weight(i), Weight(j + i), Val(y[..i]));
    var w, d := Weight(j + i), limb * y[i];
    assert (carry + x[j + i] + d) * w == carry * w + x[j + i] * w + d * w;
  }

  lemma RowEnd(x: seq<nat>, y: seq<nat>, j: nat, limb: nat, carry: nat, r: seq<nat>)
    requires j <= |x| == |r| == |y| && RowSoFar(x, y, j, limb, |x| - j, carry, r)
    ensures Val(r) + carry * Weight(|x|) == Val(x) + limb * Weight(j) * Val(y[..|x| - j])
  {
    assert r[..|x|] == r && x[..|x|] == x;
  }

  lemma RowsStart(x: seq<nat>, y: nat)
    ensures Val(x[..0]) * y == 0
  {
    assert x[..0] == [];
  }

  lemma RowProduct(limb: nat, w: nat, d: nat, v: nat, wv: nat, low: nat)
    requires wv == w * v
    ensures limb * w * (low + d * v) == limb * w * low + limb * d * wv
  {
    var lw := limb * w;
    Distribute(low, d * v, lw);
    Associate(limb, w, d * v);
    Associate(w, d, v);
    assert w * (d * v) == d * wv;
    Associate(limb, d, wv);
  }

  /** One more limb multiplied: what leaves at the top is a multiple of the modulus. */
  lemma RowsStep(x: seq<nat>, y: seq<nat>, j: nat, carry: nat, before: nat, after: nat, out: nat) returns (out': nat)
    requires j < |x| == |y| && before + out * Weight(|x|) == Val(x[..j]) * Val(y)
    requires after + carry * Weight(|x|) == before + x[j] * Weight(j) * Val(y[..|x| - j])
    ensures after + out' * Weight(|x|) == Val(x[..j + 1]) * Val(y)
  {
    hide Val, Weight;
    var n := |x|;
    var high, low, w, m := Val(y[n - j..]), Val(y[..n - j]), Weight(j), Weight(n);
    out' := out + carry + x[j] * high;
    ValNext(x, j);
    ValSplit(y, n - j);
    WeightAdd(j, n - j);
    var xw, v := x[j] * w, Weight(n - j);
    Distribute(Val(x[..j]), xw, Val(y));
    Distribute(low, v * high, xw);
    assert xw * (v * high) == x[j] * high * m by {
      Associate(x[j], w, v * high);
      Associate(w, v, high);
      Associate(x[j], high, m);
      assert m * high == high * m;
    }
    assert out' * m == out * m + carry * m + x[j] * high * m;
  }

  // ---------------------------------------------------------------- shifts

  /** What limb i - 1 pushes into the limb above it. */
  function Over(x: seq<nat>, d: nat, i: nat): nat
    requires i <= |x| && d > 0
  {
    if i == 0 then 0 else x[i - 1] * d / LIMB
  }

  ghost predicate ShiftedSoFar(x: seq<nat>, d: nat, k: nat, i: nat, r: seq<nat>)
    requires k + i <= |x| == |r| && d > 0
  {
    Val(r[..k + i]) + Over(x, d, i) * Weight(k + i) == Val(x[..i]) * d * Weight(k)
  }

  ghost predicate ShiftedLeft(x: seq<nat>, d: nat, k: nat, r: seq<nat>)
    requires k < |x| == |r| && d > 0
  {
    Val(r) + Over(x, d, |x| - k) * Weight(|x|) == Val(x[..|x| - k]) * d * Weight(k)
  }

  lemma OrZero(y: nat)
    ensures Or(0, y) == y
  {
  }

  /** The two parts of a shifted limb, which have no bit in common with what is there. */
  lemma ShiftedApart(x: seq<nat>, s: nat, i: nat)
    requires i < |x| && Limbs(x) && s < 32
    ensures var (d, y) := (Pow2(s), x[i]);
            && (s != 0 ==> y / Pow2(32 - s) == Over(x, d, i + 1)) && (s == 0 ==> Over(x, d, i + 1) == 0)
            && Over(x, d, i + 1) < LIMB
            && Or(Over(x, d, i), y * d % LIMB) == Over(x, d, i) + y * d % LIMB < LIMB
  {
    var d := Pow2(s);
    SplitLimb(x[i], s);
    if i > 0 {
      SplitLimb(x[i - 1], s);
    }
    OrDisjoint(x[i] * d % LIMB, Over(x, d, i), s);
    Pow2Monotone(s, 32);
    Pow2Word();
  }

  lemma SplitLimb(x: nat, s: nat)
    requires x < LIMB && s < 32
    ensures s != 0 ==> x / Pow2(32 - s) == x * Pow2(s) / LIMB
    ensures s == 0 ==> x * Pow2(s) / LIMB == 0
    ensures x * Pow2(s) / LIMB < Pow2(s)
    ensures (x * Pow2(s) % LIMB) % Pow2(s) == 0 && x * Pow2(s) % LIMB + Pow2(s) <= LIMB
  {
    hide Pow2;
    Pow2Word();
    Pow2Add(32 - s, s);
    SplitBy(x, Pow2(s), Pow2(32 - s), LIMB);
    if s == 0 {
      Pow2First();
    }
  }

  lemma Pow2First()
    ensures Pow2(0) == 1
  {
  }

  lemma SplitBy(x: nat, d: nat, e: nat, l: nat)
    requires d > 0 && e > 0 && l == e * d && x < l
    ensures x / e == x * d / l < d && (x * d % l) % d == 0 && x * d % l + d <= l
  {
    var q, r := x / e, x % e;
    assert x * d == q * l + r * d by {
      assert x == q * e + r;
      Distribute(q * e, r, d);
      Associate(q, e, d);
    }
    MulMonotone(r + 1, e, d);
    Distribute(r, 1, d);
    DivModUnique(x * d, l, q, r * d);
    DivModUnique(r * d, d, r, 0);
    if q >= d {
      MulMonotone(d, q, e);
    }
  }

  lemma ShiftLeftStart(x: seq<nat>, d: nat, k: nat, r: seq<nat>)
    requires d > 0 && |x| == |r| && forall j :: 0 <= j < |r| ==> r[j] == 0
    ensures Over(x, d, 0) == 0 && (k <= |x| ==> ShiftedSoFar(x, d, k, 0, r))
  {
    hide Val, Weight;
    if k <= |x| {
      ValZero(r[..k]);
      ValLast(x[..0]);
    }
  }

  lemma ShiftLeftStep(x: seq<nat>, d: nat, k: nat, i: nat, r: seq<nat>, r': seq<nat>)
    requires k + i < |x| == |r| && d > 0 && ShiftedSoFar(x, d, k, i, r)
    requires r' == r[k + i := Over(x, d, i) + x[i] * d % LIMB]
    ensures ShiftedSoFar(x, d, k, i + 1, r')
  {
    hide Val, Weight;
    assert r'[..k + i] == r[..k + i];
    ValNext(r', k + i);
    ValNext(x, i);
    WeightNext(k + i);
    WeightAdd(k, i);
    var w, o, xd := Weight(k + i), Over(x, d, i), x[i] * d;
    var lo, hi := xd % LIMB, xd / LIMB;
    assert Over(x, d, i + 1) == hi;
    Distribute(o, lo, w);
    assert lo * w + hi * (LIMB * w) == xd * w by {
      Associate(hi, LIMB, w);
      Distribute(lo, hi * LIMB, w);
    }
    assert Val(x[..i + 1]) * d * Weight(k) == Val(x[..i]) * d * Weight(k) + xd * w by {
      var vi, vk := Weight(i), Weight(k);
      Distribute(Val(x[..i]), x[i] * vi, d);
      Distribute(Val(x[..i]) * d, x[i] * vi * d, vk);
      assert x[i] * vi * d == xd * vi by {
        Associate(x[i], vi, d);
        Associate(x[i], d, vi);
        assert vi * d == d * vi;
      }
      Associate(xd, vi, vk);
      assert vi * vk == w;
    }
  }

  lemma ShiftLeftEnd(x: seq<nat>, d: nat, k: nat, r: seq<nat>)
    requires k < |x| == |r| && d > 0 && ShiftedSoFar(x, d, k, |x| - k, r)
    ensures ShiftedLeft(x, d, k, r)
  {
    assert r[..|x|] == r;
  }

  lemma ShiftLeftDone(x: seq<nat>, k: nat, s: nat, shift: nat, r: seq<nat>)
    requires shift == 32 * k + s && |x| == |r| && Limbs(r)
    requires k < |x| ==> ShiftedLeft(x, Pow2(s), k, r)
    requires k >= |x| ==> forall j :: 0 <= j < |r| ==> r[j] == 0
    ensures Val(r) == Val(x) * Pow2(shift) % Weight(|x|)
  {
    hide Val, Pow2, Over, Weight;
    var n, d, w := |x|, Pow2(s), Weight(k);
    ShiftPower(k, s);
    if k < n {
      ValSplit(x, n - k);
      WeightAdd(n - k, k);
      ValBound(r);
      LowPartLeft(Val(x), Pow2(shift), Val(x[..n - k]), Val(x[n - k..]), Weight(n - k), w, d, Weight(n),
                  Over(x, d, n - k), Val(r));
    } else {
      ValZero(r);
      WeightAdd(n, k - n);
      NothingLeft(Val(x), Pow2(shift), d, w, Weight(n), Weight(k - n));
    }
  }

  lemma ShiftPower(k: nat, s: nat)
    ensures Pow2(32 * k + s) == Pow2(s) * Weight(k)
  {
    Pow2Add(32 * k, s);
  }

  /** The part that is shifted out at the top is a multiple of the modulus. */
  lemma LowPartLeft(x: nat, p: nat, low: nat, high: nat, v: nat, w: nat, d: nat, m: nat, over: nat, r: nat)
    requires x == low + v * high && p == d * w
    requires m == v * w && r + over * m == low * d * w && r < m
    ensures r == x * p % m
  {
    Distribute(low, v * high, p);
    Associate(low, d, w);
    Regroup(v, high, d, w);
    Distribute(over, high * d, m);
    DivModUnique(x * p, m, over + high * d, r);
  }

  lemma NothingLeft(x: nat, p: nat, d: nat, w: nat, m: nat, e: nat)
    requires m > 0 && p == d * w && w == m * e
    ensures x * p % m == 0
  {
    assert d * (m * e) == d * e * m by {
      Associate(d, e, m);
      assert m * e == e * m;
    }
    Associate(x, d * e, m);
    DivModUnique(x * (d * e) * m, m, x * (d * e), 0);
  }

  lemma Regroup(a: nat, b: nat, c: nat, d: nat)
    ensures a * b * (c * d) == b * c * (a * d)
  {
    Associate(a, b, c * d);
    Associate(b, c, d);
    Associate(b, c, a * d);
    assert a * (b * (c * d)) == b * (a * (c * d));
    assert a * (c * d) == c * (a * d);
  }

  /** The limbs from k to i have been shifted down to the bottom. */
  ghost predicate ShiftedRight(x: seq<nat>, d: nat, k: nat, i: nat, r: seq<nat>)
    requires k < i <= |x| == |r| && d > 0
  {
    && Val(r[..i - k]) == Val(x[k..i]) / d && r[i - k - 1] == x[i - 1] / d
    && forall j :: i - k <= j < |r| ==> r[j] == 0
  }

  /** One step of the loop: part of a limb goes into the limb below. */
  function RightStep(x: seq<nat>, s: nat, k: nat, i: nat, r: seq<nat>): seq<nat>
    requires k <= i < |x| == |r| && s < 32
  {
    var r1 := if i > k && s != 0 then r[i - k - 1 := Or(r[i - k - 1], Shl(x[i], 32 - s))] else r;
    r1[i - k := Or(r1[i - k], Shr(x[i], s))]
  }

  lemma RightStepIs(x: seq<nat>, s: nat, k: nat, i: nat, r: seq<nat>, r1: seq<nat>, r2: seq<nat>)
    requires k <= i < |x| == |r| && s < 32
    requires r1 == if i > k && s != 0 then r[i - k - 1 := Or(r[i - k - 1], Shl(x[i], 32 - s))] else r
    requires r2 == r1[i - k := Or(r1[i - k], Shr(x[i], s))]
    ensures r2 == RightStep(x, s, k, i, r)
  {
  }

  /** The bits that leave a limb at the bottom, at the top of the limb below. */
  lemma LeavingBits(y: nat, below: nat, s: nat)
    requires y < LIMB && below < LIMB && 0 < s < 32
    ensures Or(below / Pow2(s), Shl(y, 32 - s)) == below / Pow2(s) + (y % Pow2(s)) * Pow2(32 - s) < LIMB
  {
    hide Pow2, Or;
    Pow2Word();
    Pow2Add(s, 32 - s);
    LeavingBy(y, below, Pow2(s), Pow2(32 - s), LIMB);
    OrDisjoint(Shl(y, 32 - s), below / Pow2(s), 32 - s);
  }

  lemma LeavingBy(y: nat, below: nat, d: nat, e: nat, l: nat)
    requires d > 0 && e > 0 && l == d * e && y < l && below < l
    ensures y * e % l == (y % d) * e && ((y % d) * e) % e == 0 && below / d < e && below / d + (y % d) * e < l
  {
    var q, r := y / d, y % d;
    assert y * e == q * l + r * e by {
      assert y == q * d + r;
      Distribute(q * d, r, e);
      Associate(q, d, e);
    }
    MulMonotone(r + 1, d, e);
    Distribute(r, 1, e);
    DivModUnique(y * e, l, q, r * e);
    DivModUnique(r * e, e, r, 0);
    if below / d >= e {
      MulMonotone(e, below / d, d);
    }
  }

  lemma ShiftRightFirst(x: seq<nat>, s: nat, k: nat, r: seq<nat>)
    requires k < |x| == |r| && Limbs(x) && s < 32 && forall j :: 0 <= j < |r| ==> r[j] == 0
    ensures var r' := RightStep(x, s, k, k, r);
            Limbs(r') && ShiftedRight(x, Pow2(s), k, k + 1, r')
  {
    hide Val, Weight, Pow2, Or;
    var r', d := RightStep(x, s, k, k, r), Pow2(s);
    OrZero(x[k] / d);
    DivNotMore(x[k], d);
    assert x[k..k + 1] == [x[k]] && r'[..1] == [x[k] / d];
    SingleLimb(x[k]);
    SingleLimb(x[k] / d);
  }

  lemma SingleLimb(x: nat)
    ensures Val([x]) == x
  {
    WeightFirst();
    ValLast([x]);
    assert [x][..0] == [];
  }

  lemma ShiftRightNext(x: seq<nat>, s: nat, k: nat, i: nat, r: seq<nat>)
    requires k < i < |x| == |r| && Limbs(x) && Limbs(r) && s < 32 && ShiftedRight(x, Pow2(s), k, i, r)
    ensures var r' := RightStep(x, s, k, i, r);
            && Limbs(r') && ShiftedRight(x, Pow2(s), k, i + 1, r')
            && (s != 0 ==> Or(r[i - k - 1], Shl(x[i], 32 - s)) < LIMB)
  {
    hide Val, Weight, Pow2, Or;
    var r', d, t := RightStep(x, s, k, i, r), Pow2(s), i - k;
    OrZero(x[i] / d);
    DivNotMore(x[i], d);
    var c, c' := x[k..i], x[k..i + 1];
    ValMore(c, x[i]);
    assert c' == c + [x[i]];
    ValMore(r'[..t], x[i] / d);
    if s == 0 {
      Pow2First();
      assert r'[..t] == r[..t] && r'[..t + 1] == r'[..t] + [x[i] / d];
    } else {
      LeavingBits(x[i], x[i - 1], s);
      assert r'[..t + 1] == r'[..t] + [x[i] / d];
      RightLimbs(Val(c), x[i], s, r[..t], r'[..t]);
    }
  }

  lemma ValMore(s: seq<nat>, x: nat)
    ensures Val(s + [x]) == Val(s) + x * Weight(|s|)
  {
    assert (s + [x])[..|s|] == s;
  }

  lemma RightLimbs(v: nat, y: nat, s: nat, r: seq<nat>, r': seq<nat>)
    requires 0 < s < 32 && r != [] && Val(r) == v / Pow2(s)
    requires r' == r[|r| - 1 := r[|r| - 1] + (y % Pow2(s)) * Pow2(32 - s)]
    ensures Val(r') + y / Pow2(s) * Weight(|r|) == (v + y * Weight(|r|)) / Pow2(s)
  {
    hide Val, Weight, Pow2;
    var t, d, e := |r|, Pow2(s), Pow2(32 - s);
    Pow2Word();
    Pow2Add(s, 32 - s);
    ValUpdate(r, t - 1, r'[t - 1]);
    WeightNext(t - 1);
    RightValue(v, y, d, e, LIMB, Weight(t - 1), Weight(t));
  }

  lemma RightValue(v: nat, y: nat, d: nat, e: nat, l: nat, w: nat, w': nat)
    requires d > 0 && l == d * e && w' == l * w
    ensures (v + y * w') / d == v / d + (y % d) * e * w + y / d * w'
  {
    var q, r := y / d, y % d;
    var z := r * e * w + q * w';
    assert y * w' == d * z by {
      assert y == q * d + r;
      Distribute(q * d, r, w');
      assert q * d * w' == d * (q * w');
      assert r * w' == d * (r * e * w) by {
        assert w' == d * (e * w) by { Associate(d, e, w); }
        Associate(r, e, w);
        assert r * (d * (e * w)) == d * (r * (e * w));
      }
      Distribute(r * e * w, q * w', d);
    }
    assert v + y * w' == (v / d + z) * d + v % d by {
      Distribute(v / d, z, d);
    }
    DivModUnique(v + y * w', d, v / d + z, v % d);
  }

  lemma ShiftRightDone(x: seq<nat>, k: nat, s: nat, shift: nat, r: seq<nat>)
    requires shift == 32 * k + s && s < 32 && |x| == |r| && Limbs(x)
    requires k < |x| ==> ShiftedRight(x, Pow2(s), k, |x|, r)
    requires k >= |x| ==> forall j :: 0 <= j < |r| ==> r[j] == 0
    ensures Val(r) == Val(x) / Pow2(shift)
  {
    hide Val, Pow2, Weight;
    ShiftPower(k, s);
    if k < |x| {
      RightWithin(x, k, s, r);
    } else {
      RightBeyond(x, k, s);
      ValZero(r);
    }
  }

  lemma RightWithin(x: seq<nat>, k: nat, s: nat, r: seq<nat>)
    requires k < |x| == |r| && Limbs(x) && s < 32 && ShiftedRight(x, Pow2(s), k, |x|, r)
    ensures Val(r) == Val(x) / Pow2(32 * k + s)
  {
    hide Val, Pow2, Weight;
    var n := |x|;
    assert x[k..n] == x[k..];
    ValSplit(r, n - k);
    ValZero(r[n - k..]);
    ValSplit(x, k);
    ValBound(x[..k]);
    ShiftPower(k, s);
    DivTwice(Val(x), Val(x[..k]), Val(x[k..]), Weight(k), Pow2(s), Pow2(32 * k + s));
  }

  lemma RightBeyond(x: seq<nat>, k: nat, s: nat)
    requires k >= |x| && Limbs(x)
    ensures Val(x) / Pow2(32 * k + s) == 0
  {
    hide Val, Pow2, Weight;
    ValBound(x);
    WeightIsPow2(|x|);
    Pow2Monotone(32 * |x|, 32 * k + s);
    DivModUnique(Val(x), Pow2(32 * k + s), 0, Val(x));
  }

  /** Dropping low limbs first and bits then. */
  lemma DivTwice(x: nat, low: nat, high: nat, w: nat, d: nat, p: nat)
    requires d > 0 && low < w && x == low + w * high && p == d * w
    ensures x / p == high / d
  {
    var q, r := high / d, high % d;
    assert w * high == q * p + r * w by {
      assert high == q * d + r;
      Distribute(q * d, r, w);
      Associate(q, d, w);
    }
    MulMonotone(r + 1, d, w);
    Distribute(r, 1, w);
    DivModUnique(x, p, q, r * w + low);
  }

  // ---------------------------------------------------------------- division

  ghost predicate IsBits(x: nat, b: nat) {
    x < Pow2(b) && (b > 0 ==> Pow2(b - 1) <= x)
  }

  lemma TopBit(x: nat, n: nat)
    requires x < Pow2(n + 1)
    ensures Bit(x, n) <==> Pow2(n) <= x
    ensures n == 0 ==> x < 2
  {
    var p := Pow2(n);
    if x < p {
      DivModUnique(x, p, 0, x);
    } else {
      DivModUnique(x, p, 1, x - p);
    }
  }

  lemma BitsOfLimb(s: seq<nat>, pos: nat, t: nat)
    requires pos < |s| && Limbs(s) && (forall j :: pos < j < |s| ==> s[j] == 0)
    requires s[pos] < Pow2(t + 1) && (Pow2(t) <= s[pos] || (t == 0 && s[pos] != 0))
    ensures IsBits(Val(s), 32 * pos + t + 1)
  {
    hide Val, Weight, Pow2;
    ValSplit(s, pos + 1);
    ValZero(s[pos + 1..]);
    ValNext(s, pos);
    ValBound(s[..pos]);
    var w := Weight(pos);
    ShiftPower(pos, t);
    ShiftPower(pos, t + 1);
    Pow2First();
    MulMonotone(Pow2(t), s[pos], w);
    MulMonotone(s[pos] + 1, Pow2(t + 1), w);
    Distribute(s[pos], 1, w);
  }

  /** The quotient is zero, or the divisor is, when their lengths say so. */
  lemma BitsCompared(x: nat, y: nat, nx: nat, ny: nat)
    requires IsBits(x, nx) && IsBits(y, ny)
    ensures ny == 0 <==> y == 0
    ensures ny > nx ==> y > 0 && x / y == 0
  {
    Pow2First();
    if ny > nx {
      Pow2Monotone(nx, ny - 1);
      DivModUnique(x, y, 0, x);
    }
  }

  /** The state of the division: the quotient so far has no bit below `shift`. */
  ghost predicate Dividing(x: nat, y: nat, shift: nat, num: nat, q: nat) {
    x == num + q * y && q % Pow2(shift) == 0 && num < y * Pow2(shift)
  }

  lemma DivStarts(x: nat, y: nat, nx: nat, ny: nat, width: nat)
    requires IsBits(x, nx) && IsBits(y, ny) && 0 < ny <= nx <= 32 * width
    ensures var shift := nx - ny;
            && Dividing(x, y, shift + 1, x, 0) && (y * Pow2(shift)) % Weight(width) == y * Pow2(shift)
  {
    hide Pow2, Weight;
    var shift := nx - ny;
    var d := Pow2(shift);
    Pow2Add(ny - 1, shift + 1);
    MulMonotone(Pow2(ny - 1), y, Pow2(shift + 1));
    Pow2Add(ny, shift);
    MulMonotone(y + 1, Pow2(ny), d);
    Distribute(y, 1, d);
    Pow2Monotone(nx, 32 * width);
    WeightIsPow2(width);
    DivModUnique(y * d, Weight(width), 0, y * d);
    DivModUnique(0, Pow2(shift + 1), 0, 0);
  }

  lemma WeightIsPow2(i: nat)
    ensures Weight(i) == Pow2(32 * i)
  {
  }

  lemma DivStep(x: nat, y: nat, shift: nat, num: nat, q: nat)
    requires Dividing(x, y, shift + 1, num, q)
    ensures var d := Pow2(shift);
            && (num >= y * d ==> Dividing(x, y, shift, num - y * d, q + d))
            && (num < y * d ==> Dividing(x, y, shift, num, q))
  {
    var d := Pow2(shift);
    var h := q / (2 * d);
    assert q == h * (2 * d);
    Associate(h, 2, d);
    DivModUnique(q, d, 2 * h, 0);
    assert q + d == (2 * h + 1) * d;
    DivModUnique(q + d, d, 2 * h + 1, 0);
    Distribute(q, d, y);
    assert y * (2 * d) == 2 * (y * d);
  }

  lemma NoBitYet(x: nat, y: nat, shift: nat, num: nat, q: nat)
    requires Dividing(x, y, shift + 1, num, q)
    ensures q % Pow2(shift + 1) == 0
  {
  }

  lemma PlainSubtraction(x: nat, y: nat, m: nat)
    requires y <= x < m
    ensures (x + m - y) % m == x - y
  {
    DivModUnique(x + m - y, m, 1, x - y);
  }

  lemma HalfShift(y: nat, shift: nat)
    requires shift >= 1
    ensures y * Pow2(shift) / Pow2(1) == y * Pow2(shift - 1)
  {
    var d := Pow2(shift - 1);
    assert Pow2(1) == 2;
    assert y * (2 * d) == y * d * 2;
    DivModUnique(y * Pow2(shift), 2, y * d, 0);
  }

  /** A bit of the quotient that is not set yet is set. */
  lemma SetBit(s: seq<nat>, n: nat)
    requires Limbs(s) && n < 32 * |s| && Val(s) % Pow2(n + 1) == 0
    ensures var (l, t) := (n / 32, n % 32);
            Or(s[l], Pow2(t)) < LIMB && Val(s[l := Or(s[l], Pow2(t))]) == Val(s) + Pow2(n)
  {
    hide Val, Weight, Pow2, Or;
    var l, t := n / 32, n % 32;
    LimbOfMultiple(s, l, t);
    Pow2Next(t);
    OrDisjoint(s[l], Pow2(t), t + 1);
    ValUpdate(s, l, s[l] + Pow2(t));
    ShiftPower(l, t);
    RoomInLimb(s[l], t);
  }

  lemma Pow2Next(t: nat)
    ensures Pow2(t + 1) == 2 * Pow2(t)
  {
  }

  lemma RoomInLimb(x: nat, t: nat)
    requires x < LIMB && t < 32 && x % Pow2(t + 1) == 0
    ensures x + Pow2(t) < LIMB
  {
    hide Pow2;
    Pow2Word();
    Pow2Next(t);
    Pow2Add(t + 1, 31 - t);
    var p, m := Pow2(t + 1), Pow2(31 - t);
    var q := x / p;
    if q >= m {
      MulMonotone(m, q, p);
    }
    MulMonotone(q + 1, m, p);
    Distribute(q, 1, p);
  }

  /** A multiple of a power of two has no low limbs, and a limb that is a multiple. */
  lemma LimbOfMultiple(s: seq<nat>, l: nat, t: nat)
    requires Limbs(s) && l < |s| && t < 32 && Val(s) % Pow2(32 * l + t + 1) == 0
    ensures s[l] % Pow2(t + 1) == 0
  {
    hide Val, Weight, Pow2;
    var w, p, e := Weight(l), Pow2(t + 1), Pow2(31 - t);
    ShiftPower(l, t + 1);
    ValSplit(s, l);
    ValBound(s[..l]);
    var high := s[l..];
    ValSplit(high, 1);
    ValNext(high, 0);
    ValLast(high[..0]);
    WeightFirst();
    Pow2Word();
    Pow2Add(t + 1, 31 - t);
    MultipleOfBoth(Val(s), Val(s[..l]), Val(high), w, p, Pow2(32 * l + t + 1));
    LowDigit(Val(high), s[l], Val(high[1..]), p, e, LIMB);
  }

  lemma MultipleOfBoth(x: nat, low: nat, high: nat, w: nat, p: nat, pw: nat)
    requires p > 0 && low < w && x == low + w * high && pw == p * w && x % pw == 0
    ensures high % p == 0
  {
    var q := x / pw;
    assert x == q * (p * w);
    Associate(q, p, w);
    DivModUnique(x, w, q * p, 0);
    DivModUnique(x, w, high, low);
    DivModUnique(q * p, p, q, 0);
  }

  lemma LowDigit(x: nat, digit: nat, rest: nat, p: nat, e: nat, l: nat)
    requires p > 0 && l == p * e && x == digit + l * rest && x % p == 0
    ensures digit % p == 0
  {
    var q := x / p;
    assert x == q * p;
    assert l * rest == e * rest * p by {
      Associate(p, e, rest);
      assert p * (e * rest) == e * rest * p;
    }
    Distribute(q, -(e * rest), p);
    assert digit == (q - e * rest) * p;
    DivModUnique(digit, p, q - e * rest, 0);
  }

  lemma DivEnds(x: nat, y: nat, num: nat, q: nat)
    requires Dividing(x, y, 0, num, q)
    ensures y > 0 && q == x / y
  {
    Pow2First();
    DivModUnique(x, y, q, num);
  }
}
