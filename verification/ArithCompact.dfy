/**
 The compact form of 256-bit numbers (a byte count and a 23-bit mantissa with a sign), and the
 work that a target stands for.
 */
module ArithCompact {
  import opened ArithModel
  import opened ArithUint256

  const SIGN: nat := 0x80_0000
  const EXPONENT: nat := 0x100_0000
  const WIDTH: nat := 8

  // ---------------------------------------------------------------- the format

  function Size(c: nat): nat { c / EXPONENT }
  function Mantissa(c: nat): nat { c % SIGN }
  predicate Signed(c: nat) { (c / SIGN) % 2 == 1 }

  /** The mantissa, cut to the bytes that the size announces. */
  function Cut(c: nat): nat {
    if Size(c) <= 3 then Shr(Mantissa(c), 8 * (3 - Size(c))) else Mantissa(c)
  }

  /** The number that a compact word denotes, without the sign and without a bound. */
  function Target(c: nat): nat {
    if Size(c) <= 3 then Cut(c) else Mantissa(c) * Bytes(Size(c) - 3)
  }

  /** 256 to the n. */
  function Bytes(n: nat): (p: nat)
    ensures p >= 1
  {
    Pow2(8 * n)
  }

  lemma BytesAdd(m: nat, n: nat)
    ensures Bytes(m + n) == Bytes(m) * Bytes(n)
  {
    Pow2Add(8 * m, 8 * n);
  }

  lemma BytesNext(n: nat)
    ensures Bytes(0) == 1 && Bytes(1) == 256 && Bytes(n + 1) == 256 * Bytes(n)
  {
    Pow2Word();
    Pow2Add(8, 8 * n);
  }

  lemma BytesSmall()
    ensures Bytes(0) == 1 && Bytes(1) == 256 && Bytes(2) == 0x1_0000 && Bytes(3) == EXPONENT
  {
    BytesNext(0);
    BytesNext(1);
    BytesNext(2);
  }

  /** How many bytes a number needs. */
  ghost predicate Needs(x: nat, n: nat) {
    x < Bytes(n) && (n > 0 ==> Bytes(n - 1) <= x)
  }

  lemma NeedsOnce(x: nat, m: nat, n: nat)
    requires Needs(x, m) && Needs(x, n)
    ensures m == n
  {
    if m < n {
      Pow2Monotone(8 * m, 8 * (n - 1));
    } else if n < m {
      Pow2Monotone(8 * n, 8 * (m - 1));
    }
  }

  lemma BitsToBytes(x: nat, b: nat)
    requires IsBits(x, b)
    ensures Needs(x, (b + 7) / 8)
  {
    var n := (b + 7) / 8;
    Pow2Monotone(b, 8 * n);
    if n > 0 {
      Pow2Monotone(8 * (n - 1), b - 1);
    }
  }

  /** The leading three bytes of a number of n bytes. */
  function Leading(x: nat, n: nat): nat {
    if n <= 3 then x * Bytes(3 - n) else Quotient(x, Bytes(n - 3))
  }

  /** The compact word of a number of n bytes. */
  function Packed(x: nat, n: nat): nat {
    var m := Leading(x, n);
    if m >= SIGN then m / 256 + (n + 1) * EXPONENT else m + n * EXPONENT
  }

  lemma LeadingRange(x: nat, n: nat)
    requires Needs(x, n)
    ensures Leading(x, n) < EXPONENT && (n > 0 ==> Leading(x, n) >= 0x1_0000)
  {
    hide Bytes;
    BytesSmall();
    if n <= 3 {
      BytesAdd(n, 3 - n);
      LeadingShort(x, Bytes(n), Bytes(3 - n));
      if n > 0 {
        BytesAdd(n - 1, 3 - n);
        MulMonotone(Bytes(n - 1), x, Bytes(3 - n));
      }
    } else {
      var p := Bytes(n - 3);
      BytesAdd(3, n - 3);
      BytesAdd(2, n - 3);
      QuotientBounds(x, p, Bytes(2), EXPONENT);
    }
  }

  lemma LeadingShort(x: nat, p: nat, q: nat)
    requires x < p && q > 0
    ensures x * q < p * q
  {
    MulMonotone(x + 1, p, q);
    Distribute(x, 1, q);
  }

  lemma QuotientBounds(x: nat, p: nat, lo: nat, hi: nat)
    requires p > 0 && lo * p <= x < hi * p
    ensures lo <= x / p < hi
  {
    var q := x / p;
    assert x == q * p + x % p;
    if q >= hi {
      MulMonotone(hi, q, p);
    }
    if q < lo {
      MulMonotone(q + 1, lo, p);
      Distribute(q, 1, p);
    }
  }

  // ---------------------------------------------------------------- what the packed word says

  lemma PackedFields(m: nat, n: nat)
    requires m < SIGN
    ensures Size(m + n * EXPONENT) == n && Mantissa(m + n * EXPONENT) == m && !Signed(m + n * EXPONENT)
  {
    var c := m + n * EXPONENT;
    DivModUnique(c, EXPONENT, n, m);
    DivModUnique(c, SIGN, 2 * n, m);
  }

  /** Packing keeps a word whose mantissa is below the sign. */
  lemma PackedWord(x: nat, n: nat)
    requires Needs(x, n)
    ensures var c := Packed(x, n);
            && !Signed(c) && Size(c) == (if Leading(x, n) >= SIGN then n + 1 else n)
            && Mantissa(c) == (if Leading(x, n) >= SIGN then Leading(x, n) / 256 else Leading(x, n))
  {
    LeadingRange(x, n);
    var m := Leading(x, n);
    if m >= SIGN {
      PackedFields(m / 256, n + 1);
    } else {
      PackedFields(m, n);
    }
  }

  /** What is lost by packing: the low bytes beyond the mantissa. */
  lemma UnpackedIsClose(x: nat, n: nat)
    requires Needs(x, n)
    ensures var (c, r) := (Packed(x, n), Target(Packed(x, n)));
            && r <= x && (Size(c) <= 3 ==> r == x) && (Size(c) > 3 ==> x < r + Bytes(Size(c) - 3))
  {
    hide Bytes, Leading;
    PackedWord(x, n);
    LeadingRange(x, n);
    if n < 3 || (n == 3 && Leading(x, n) < SIGN) {
      UnpackedShort(x, n);
    } else if Leading(x, n) < SIGN {
      UnpackedLong(x, n, n);
      LeadingLong(x, n);
    } else {
      UnpackedLong(x, n, n + 1);
      LeadingLong(x, n);
    }
  }

  lemma LeadingLong(x: nat, n: nat)
    requires n >= 3
    ensures Leading(x, n) == x / Bytes(n - 3) && Leading(x, n) / 256 == x / Bytes(n - 2)
  {
    BytesNext(n - 3);
    DivChain(x, Bytes(n - 3), 256);
    if n == 3 {
      DivModUnique(x, 1, x, 0);
    }
  }

  lemma DivChain(x: nat, p: nat, q: nat)
    requires p > 0 && q > 0
    ensures p * q > 0 && x / p / q == x / (p * q)
  {
    DivNotMore(x, p);
    var y := x / p;
    var z := y / q;
    MulMonotone(1, p, q);
    assert x == z * (p * q) + (y % q * p + x % p) by {
      assert x == y * p + x % p;
      assert y == z * q + y % q;
      Distribute(z * q, y % q, p);
      Associate(z, q, p);
      assert q * p == p * q;
    }
    MulMonotone(y % q + 1, q, p);
    Distribute(y % q, 1, p);
    MulMonotone(0, y % q, p);
    DivModUnique(x, p * q, z, y % q * p + x % p);
  }

  /** A mantissa that drops all bytes below it. */
  lemma UnpackedLong(x: nat, n: nat, size: nat)
    requires size >= 3
    ensures var r := x / Bytes(size - 3) * Bytes(size - 3);
            r <= x < r + Bytes(size - 3) && (size == 3 ==> r == x)
  {
    hide Bytes;
    var p := Bytes(size - 3);
    assert x == x / p * p + x % p;
    BytesSmall();
  }

  lemma UnpackedShort(x: nat, n: nat)
    requires Needs(x, n) && (n < 3 || (n == 3 && Leading(x, n) < SIGN))
    ensures Target(Packed(x, n)) == x && Size(Packed(x, n)) <= 3
  {
    PackedWord(x, n);
    BytesSmall();
    var m := Leading(x, n);
    if m < SIGN {
      DivModUnique(m, Bytes(3 - n), x, 0);
    } else {
      BytesNext(2 - n);
      var p := Bytes(2 - n);
      assert m == x * p * 256;
      DivModUnique(m, 256, x * p, 0);
      DivModUnique(x * p, p, x, 0);
    }
  }

  /** Packing what was unpacked gives the same word. */
  lemma RepackedIsTheSame(x: nat, n: nat)
    requires Needs(x, n)
    ensures Needs(Target(Packed(x, n)), n) && Packed(Target(Packed(x, n)), n) == Packed(x, n)
  {
    hide Bytes, Leading;
    PackedWord(x, n);
    LeadingRange(x, n);
    UnpackedIsClose(x, n);
    var m, r := Leading(x, n), Target(Packed(x, n));
    if Size(Packed(x, n)) > 3 {
      var kept := if m >= SIGN then m / 256 * 256 else m;
      if m >= SIGN {
        BytesNext(n - 3);
        Associate(m / 256, 256, Bytes(n - 3));
      }
      LeadingOfKept(r, kept, n);
    }
  }

  /** A number whose low bytes are zero. */
  lemma LeadingOfKept(r: nat, kept: nat, n: nat)
    requires n >= 3 && 0x1_0000 <= kept < EXPONENT && r == kept * Bytes(n - 3)
    ensures Needs(r, n) && Leading(r, n) == kept
  {
    hide Bytes;
    var p := Bytes(n - 3);
    BytesSmall();
    BytesAdd(2, n - 3);
    BytesAdd(3, n - 3);
    MulMonotone(Bytes(2), kept, p);
    LeadingShort(kept, EXPONENT, p);
    DivModUnique(r, p, kept, 0);
  }

  /** For every number: no flag, nothing above it, nothing lost but the low bytes, and the same
      word again. */
  lemma CompactRoundTrip(x: nat, n: nat)
    requires Needs(x, n) && x < Weight(WIDTH)
    ensures var (c, r) := (Packed(x, n), Target(Packed(x, n)));
            && !Signed(c) && r < Weight(WIDTH) && r <= x
            && (Size(c) <= 3 ==> r == x) && (Size(c) > 3 ==> x < r + Bytes(Size(c) - 3))
            && Needs(r, n) && Packed(r, n) == c
  {
    PackedWord(x, n);
    UnpackedIsClose(x, n);
    RepackedIsTheSame(x, n);
  }

  // ---------------------------------------------------------------- the operations

  /** The overflow test of SetCompact. */
  predicate TooLarge(word: nat, size: nat) {
    word != 0 && (size > 34 || (word > 0xff && size > 33) || (word > 0xffff && size > 32))
  }

  /** The test is exact: it says whether the number fits 256 bits. */
  lemma TooLargeIsOverflow(c: nat)
    ensures TooLarge(Cut(c), Size(c)) <==> Target(c) >= Weight(WIDTH)
  {
    hide Bytes, Weight;
    var size, m := Size(c), Mantissa(c);
    WeightIsBytes();
    BytesSmall();
    if size <= 3 {
      ShortIsSmall(m);
      assert Cut(c) <= m;
    } else if size <= 35 {
      BytesAdd(size - 3, 35 - size);
      Threshold(m, Bytes(size - 3), Bytes(35 - size));
      if size <= 32 {
        BytesAdd(3, 32 - size);
      }
    } else if m > 0 {
      BytesAdd(32, size - 35);
      MulMonotone(1, Bytes(size - 35), Bytes(32));
      MulMonotone(1, m, Bytes(size - 3));
    }
  }

  lemma WeightIsBytes()
    ensures Weight(WIDTH) == Bytes(32)
  {
  }

  lemma ShortIsSmall(m: nat)
    requires m < SIGN
    ensures m < Bytes(32)
  {
    BytesSmall();
    Pow2Monotone(24, 256);
  }

  lemma Threshold(m: nat, p: nat, q: nat)
    requires p > 0
    ensures m * p >= p * q <==> m >= q
  {
    if m >= q {
      MulMonotone(q, m, p);
    } else {
      LeadingShort(m, q, p);
    }
  }

  method SetCompact(n: BaseUint, c: nat) returns (negative: bool, overflow: bool)
    requires n.Valid() && n.pn.Length == WIDTH && c < LIMB
    modifies n.pn
    ensures n.Valid() && n.Value() == Target(c) % Weight(WIDTH)
    ensures negative <==> Cut(c) != 0 && Signed(c)
    ensures overflow <==> Target(c) >= Weight(WIDTH)
  {
    hide Val, Weight, Pow2, Bytes, Shr;
    var size := c / EXPONENT;
    var word: nat := c % SIGN;
    if size <= 3 {
      word := Shr(word, 8 * (3 - size));
      n.Set(word);
      ShortTarget(c);
    } else {
      n.Set(word);
      n.ShiftLeft(8 * (size - 3));
      BytesIsPow2(size - 3);
    }
    negative := word != 0 && Bit(c, 23);
    SignBit(c);
    overflow := word != 0 && (size > 34 || (word > 0xff && size > 33) || (word > 0xffff && size > 32));
    TooLargeIsOverflow(c);
  }

  lemma ShortTarget(c: nat)
    requires Size(c) <= 3
    ensures Target(c) % Weight(WIDTH) == Target(c) < Weight(WIDTH)
  {
    hide Weight, Bytes;
    WeightIsBytes();
    ShortIsSmall(Mantissa(c));
    DivModUnique(Target(c), Weight(WIDTH), 0, Target(c));
  }

  lemma BytesIsPow2(n: nat)
    ensures Bytes(n) == Pow2(8 * n)
  {
  }

  lemma SignBit(c: nat)
    ensures Bit(c, 23) <==> Signed(c)
  {
    Pow2Add(16, 7);
    assert Pow2(7) == 128;
    Pow2Word();
    Pow2Add(8, 8);
  }

  method GetLow64(x: BaseUint) returns (r: nat)
    requires x.Valid()
    ensures r == x.Value() % (LIMB * LIMB)
  {
    hide Or, Pow2, Val, Weight;
    LowTwoLimbs(x.pn[..]);
    r := Or(x.pn[0], x.pn[1] * LIMB);
  }

  lemma LowTwoLimbs(s: seq<nat>)
    requires |s| >= 2 && Limbs(s)
    ensures Or(s[0], s[1] * LIMB) == Val(s) % (LIMB * LIMB)
  {
    hide Or, Pow2, Val, Weight;
    Pow2Word();
    DivModUnique(s[1] * LIMB, LIMB, s[1], 0);
    OrDisjoint(s[1] * LIMB, s[0], 32);
    ValSplit(s, 2);
    ValNext(s, 1);
    ValNext(s, 0);
    ValLast(s[..0]);
    WeightFirst();
    WeightNext(1);
    DivModUnique(Val(s), LIMB * LIMB, Val(s[2..]), s[0] + s[1] * LIMB);
  }

  /** The leading bytes as the operation computes them. */
  method LeadingBytes(x: BaseUint, n: nat) returns (c: nat)
    requires x.Valid() && Needs(x.Value(), n)
    ensures c == Leading(x.Value(), n)
  {
    hide Val, Weight, Pow2, Bytes, Leading, Shr;
    LeadingRange(x.Value(), n);
    if n <= 3 {
      var low := GetLow64(x);
      ShortLeading(x.Value(), n);
      c := Word(low * Pow2(8 * (3 - n)));
    } else {
      var bn := new BaseUint.Copy(x);
      bn.ShiftRight(8 * (n - 3));
      LongLeading(x.Value(), n);
      var low := GetLow64(bn);
      c := Word(low);
    }
  }

  lemma ShortLeading(x: nat, n: nat)
    requires n <= 3 && Needs(x, n) && Leading(x, n) < EXPONENT
    ensures Word(x % (LIMB * LIMB) * Pow2(8 * (3 - n))) == Leading(x, n)
  {
    BytesSmall();
    Pow2Monotone(8 * n, 24);
    assert x < EXPONENT;
  }

  lemma LongLeading(x: nat, n: nat)
    requires n > 3 && Leading(x, n) < EXPONENT
    ensures x / Pow2(8 * (n - 3)) == Leading(x, n) && Word(Leading(x, n) % (LIMB * LIMB)) == Leading(x, n)
  {
  }

  lemma SignOfLeading(c: nat)
    requires c < EXPONENT
    ensures Bit(c, 23) <==> c >= SIGN
  {
    SignBit(c);
  }

  lemma SizeField(c: nat, n: nat)
    requires c < SIGN
    ensures Or(c, n * Pow2(24)) == c + n * EXPONENT
  {
    hide Or, Pow2;
    Pow2Word();
    Pow2Add(8, 8);
    Pow2Add(16, 8);
    DivModUnique(n * EXPONENT, EXPONENT, n, 0);
    OrDisjoint(n * EXPONENT, c, 24);
  }

  /** A bit that is not set is set. */
  lemma {:induction false} OrBit(x: nat, k: nat)
    requires !Bit(x, k)
    ensures Or(x, Pow2(k)) == x + Pow2(k)
    decreases k
  {
    if k > 0 && x > 0 {
      DivChain(x, 2, Pow2(k - 1));
      OrBit(x / 2, k - 1);
    }
  }

  lemma SignField(c: nat)
    requires !Signed(c)
    ensures Or(c, SIGN) == c + SIGN && Or(c, 0) == c
  {
    SignBit(c);
    OrBit(c, 23);
    Pow2Add(16, 7);
    assert Pow2(7) == 128;
    Pow2Word();
    Pow2Add(8, 8);
  }

  method GetCompact(x: BaseUint, negative: bool) returns (c: nat)
    requires x.Valid() && x.pn.Length == WIDTH
    ensures c < LIMB && exists n :: Needs(x.Value(), n)
    ensures forall n :: Needs(x.Value(), n) ==>
              c == Packed(x.Value(), n) + if negative && Mantissa(Packed(x.Value(), n)) != 0 then SIGN else 0
  {
    hide Val, Weight, Pow2, Bytes, Leading, IsBits, Or, Bit;
    var bits := x.Bits();
    BitsToBytes(x.Value(), bits);
    var nSize := (bits + 7) / 8;
    ghost var n := nSize;
    LeadingRange(x.Value(), n);
    c := LeadingBytes(x, nSize);
    SignOfLeading(c);
    if Bit(c, 23) {
      c := c / 256;
      nSize := nSize + 1;
    }
    assert c < SIGN && nSize < 256;
    PackedFields(c, nSize);
    SizeField(c, nSize);
    c := Or(c, nSize * Pow2(24));
    assert c == Packed(x.Value(), n);
    SignField(c);
    c := Or(c, if negative && c % SIGN != 0 then SIGN else 0);
    forall k | Needs(x.Value(), k) ensures k == n {
      NeedsOnce(x.Value(), k, n);
    }
  }

  // ---------------------------------------------------------------- the work of a target

  /** The words that stand for a target: a positive number of 256 bits. */
  predicate IsTarget(c: nat) {
    !(Cut(c) != 0 && Signed(c)) && 0 < Target(c) < Weight(WIDTH)
  }

  /** The expected number of hashes for a target: none for a word that is no target. */
  function Proof(c: nat): nat {
    if IsTarget(c) then Quotient(Weight(WIDTH), Target(c) + 1) else 0
  }

  /** Every target takes work. */
  lemma TargetsTakeWork(c: nat)
    ensures Proof(c) > 0 <==> IsTarget(c)
  {
    hide Weight, Target, Cut, Signed;
    if IsTarget(c) {
      TargetInRange(c);
      DivNotLess(Weight(WIDTH), Target(c) + 1);
    }
  }

  lemma DivNotLess(m: nat, t: nat)
    requires 0 < t <= m
    ensures m / t >= 1
  {
    var q := m / t;
    assert m == q * t + m % t;
  }

  method GetBlockProof(nBits: nat) returns (r: BaseUint)
    requires nBits < LIMB
    ensures r.Valid() && r.pn.Length == WIDTH && r.Value() == Proof(nBits) && (r.Value() > 0 <==> IsTarget(nBits))
  {
    hide Val, Weight, Target, Cut, Signed;
    var target := new BaseUint(WIDTH);
    var negative, overflow := SetCompact(target, nBits);
    r := new BaseUint(WIDTH);
    var c := target.CompareTo(r);
    TargetInRange(nBits);
    TargetsTakeWork(nBits);
    if negative || overflow || c == 0 {
      return;
    }
    r := WorkOf(target);
  }

  method WorkOf(target: BaseUint) returns (r: BaseUint)
    requires target.Valid() && target.pn.Length == WIDTH && 1 <= target.Value() < Weight(WIDTH) - 1
    ensures r.Valid() && r.pn.Length == WIDTH && r.Value() == Weight(WIDTH) / (target.Value() + 1)
  {
    hide Val, Weight;
    ghost var t := target.Value();
    ProofFits(t, Weight(WIDTH));
    var one := new BaseUint(WIDTH);
    one.Set(1);
    var next := new BaseUint.Copy(target);
    next.Add(one);
    r := target.Complement();
    var ok := r.Div(next);
    r.Add(one);
  }

  /** A target is never the largest number, so adding one does not wrap around. */
  lemma TargetInRange(c: nat)
    ensures Target(c) < Weight(WIDTH) ==> Target(c) % Weight(WIDTH) == Target(c) < Weight(WIDTH) - 1
  {
    hide Weight, Bytes, Pow2, Shr;
    var m := Weight(WIDTH);
    if Target(c) < m {
      DivModUnique(Target(c), m, 0, Target(c));
    }
    WeightEven();
    if Size(c) <= 3 {
      ShortIsSmaller();
    } else {
      BytesNext(Size(c) - 4);
      EvenProduct(Mantissa(c), Bytes(Size(c) - 4));
    }
  }

  lemma EvenProduct(m: nat, p: nat)
    ensures (m * (256 * p)) % 2 == 0
  {
    assert m * (256 * p) == 2 * (m * (128 * p));
  }

  lemma ShortIsSmaller()
    ensures SIGN < Weight(WIDTH) - 1
  {
    hide Weight, Pow2;
    WeightIsPow2(WIDTH);
    Pow2Word();
    Pow2Monotone(32, 256);
  }

  lemma WeightEven()
    ensures Weight(WIDTH) % 2 == 0
  {
    hide Weight, Pow2;
    WeightIsPow2(WIDTH);
    Pow2Next(255);
  }

  /** The formula with numbers that fit: (2^256 - 1 - t) / (t + 1) + 1. */
  lemma ProofFits(t: nat, m: nat)
    requires 1 <= t < m - 1
    ensures (t + 1) % m == t + 1 && (m - 1 - t) / (t + 1) + 1 == m / (t + 1) < m
    ensures ((m - 1 - t) / (t + 1) + 1) % m == m / (t + 1)
  {
    DivModUnique(t + 1, m, 0, t + 1);
    var q := m / (t + 1);
    assert m == q * (t + 1) + m % (t + 1);
    Distribute(q, -1, t + 1);
    DivModUnique(m - 1 - t, t + 1, q - 1, m % (t + 1));
    QuotientBounds(m, t + 1, 0, m);
    DivModUnique(q, m, 0, q);
  }

  /** A larger target stands for no more work, but for some. */
  lemma ProofIsAntitone(c: nat, d: nat)
    requires IsTarget(c) && IsTarget(d) && Target(c) <= Target(d)
    ensures Proof(c) >= Proof(d) > 0
  {
    hide Weight, Target, Cut, Signed;
    TargetsTakeWork(d);
    DivAntitone(Weight(WIDTH), Target(c) + 1, Target(d) + 1);
  }

  lemma DivAntitone(m: nat, s: nat, t: nat)
    requires 0 < s <= t
    ensures m / s >= m / t
  {
    DivNotMore(m, s);
    DivNotMore(m, t);
    var p, q := m / s, m / t;
    assert m == q * t + m % t && m == p * s + m % s;
    MulMonotone(s, t, q);
    if p < q {
      MulMonotone(p + 1, q, s);
      Distribute(p, 1, s);
    }
  }
}
