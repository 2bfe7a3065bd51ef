/**
 How many errors the checksum of Bech32 detects: any three within 1023 symbols. The generator of the
 code has three consecutive powers of a primitive element of the field of 1024 elements as roots.
 */
module Bech32Errors {
  import opened Bech32
  import opened Bech32Field

  // ---------------------------------------------------------------- the field of 1024 elements

  /** Multiplication by e, where e^2 = 9 e + 23; the upper five bits are the coefficient of e. */
  function TimesE(w: bv10): bv10 {
    var (h, l) := ((w >> 5) as bv8, (w & 31) as bv8);
    (((l ^ Mul(h, 9)) as bv10) << 5) ^ (Mul(h, 23) as bv10)
  }

  function Add(v: bv10, w: bv10): bv10 { v ^ w }

  function Embed(v: bv8): bv10 { v as bv10 }

  /** Multiplication by a power of e. */
  function Power(n: nat, w: bv10): bv10 {
    if n == 0 then w else TimesE(Power(n - 1, w))
  }

  /** A linear map, given by the images of the single bits. */
  function Linear(w: bv10, c0: bv10, c1: bv10, c2: bv10, c3: bv10, c4: bv10,
                  c5: bv10, c6: bv10, c7: bv10, c8: bv10, c9: bv10): bv10 {
    (if w & 1 == 0 then 0 else c0) ^ (if w & 2 == 0 then 0 else c1) ^ (if w & 4 == 0 then 0 else c2)
    ^ (if w & 8 == 0 then 0 else c3) ^ (if w & 16 == 0 then 0 else c4) ^ (if w & 32 == 0 then 0 else c5)
    ^ (if w & 64 == 0 then 0 else c6) ^ (if w & 128 == 0 then 0 else c7) ^ (if w & 256 == 0 then 0 else c8)
    ^ (if w & 512 == 0 then 0 else c9)
  }

  // Multiplication by e to the powers of two, as linear maps.

  function E1(w: bv10): bv10 { Linear(w, 0x20, 0x40, 0x80, 0x100, 0x200, 0x137, 0x247, 0x1ae, 0x35c, 0x3b1) }
  function E2(w: bv10): bv10 { Linear(w, 0x137, 0x247, 0x1ae, 0x35c, 0x3b1, 0x8b, 0x116, 0x205, 0x12a, 0x254) }
  function E4(w: bv10): bv10 { Linear(w, 0xce, 0x19c, 0x311, 0x32b, 0x376, 0x229, 0x172, 0x2cd, 0xba, 0x15d) }
  function E8(w: bv10): bv10 { Linear(w, 0x219, 0x13b, 0x25f, 0x1b7, 0x347, 0x91, 0x10b, 0x216, 0x125, 0x24a) }
  function E16(w: bv10): bv10 { Linear(w, 0x2a3, 0x66, 0xcc, 0x198, 0x319, 0x348, 0x3b0, 0x269, 0x1f2, 0x3cd) }
  function E32(w: bv10): bv10 { Linear(w, 0x29, 0x52, 0x8d, 0x11a, 0x21d, 0x17, 0x7, 0xe, 0x1c, 0x11) }
  function E64(w: bv10): bv10 { Linear(w, 0x124, 0x248, 0x1b0, 0x349, 0x3b2, 0x2eb, 0xf6, 0x1c5, 0x38a, 0x234) }
  function E128(w: bv10): bv10 { Linear(w, 0xd1, 0x18b, 0x316, 0x325, 0x36a, 0x1c9, 0x392, 0x22d, 0x17a, 0x2dd) }
  function E256(w: bv10): bv10 { Linear(w, 0x204, 0x128, 0x250, 0x1a9, 0x352, 0x331, 0x36b, 0x3f6, 0x2e5, 0xea) }
  function E512(w: bv10): bv10 { Linear(w, 0x2ba, 0x7d, 0xd3, 0x18f, 0x31e, 0x68, 0xd0, 0x189, 0x312, 0x32d) }

  // And to the powers that are needed below.

  function E5(w: bv10): bv10 { Linear(w, 0x229, 0x172, 0x2cd, 0xba, 0x15d, 0x3a6, 0x26c, 0x1f8, 0x3d9, 0x2bb) }
  function E13(w: bv10): bv10 { Linear(w, 0x175, 0x2c3, 0xa6, 0x14c, 0x298, 0x28c, 0x38, 0x59, 0x9b, 0x11f) }
  function E21(w: bv10): bv10 { Linear(w, 0x3be, 0x275, 0x1e3, 0x3c6, 0x2ac, 0x3b4, 0x261, 0x1e2, 0x3c4, 0x2a8) }
  function E29(w: bv10): bv10 { Linear(w, 0x7c, 0xd1, 0x18b, 0x316, 0x325, 0xf0, 0x1c9, 0x392, 0x22d, 0x17a) }
  function E33(w: bv10): bv10 { Linear(w, 0x17, 0x7, 0xe, 0x1c, 0x11, 0x2e0, 0xe0, 0x1c0, 0x380, 0x220) }
  function E37(w: bv10): bv10 { Linear(w, 0x135, 0x243, 0x1a6, 0x34c, 0x3b8, 0xcb, 0x196, 0x305, 0x32a, 0x374) }
  function E85(w: bv10): bv10 { Linear(w, 0x193, 0x30f, 0x33e, 0x375, 0x3e3, 0x92, 0x10d, 0x21a, 0x13d, 0x253) }
  function E93(w: bv10): bv10 { Linear(w, 0x356, 0x3a5, 0x26a, 0x1f4, 0x3c1, 0x6a, 0xd4, 0x181, 0x302, 0x324) }
  function E101(w: bv10): bv10 { Linear(w, 0x247, 0x1ae, 0x35c, 0x3b1, 0x26b, 0x116, 0x205, 0x12a, 0x254, 0x1a1) }
  function E229(w: bv10): bv10 { Linear(w, 0x303, 0x326, 0x36c, 0x3f8, 0x2f9, 0x8d, 0x11a, 0x21d, 0x133, 0x24f) }
  function E341(w: bv10): bv10 { Linear(w, 0x16d, 0x2da, 0xbd, 0x153, 0x28f, 0x18c, 0x318, 0x339, 0x37b, 0x3ff) }
  function E485(w: bv10): bv10 { Linear(w, 0x123, 0x246, 0x1ac, 0x358, 0x3b9, 0x20b, 0x136, 0x245, 0x1aa, 0x354) }
  function E997(w: bv10): bv10 { Linear(w, 0x1bd, 0x353, 0x3af, 0x27e, 0x1f5, 0x65, 0xca, 0x194, 0x301, 0x322) }
  function E998(w: bv10): bv10 { Linear(w, 0x65, 0xca, 0x194, 0x301, 0x322, 0x3d0, 0x2a9, 0x72, 0xcd, 0x19a) }
  function E999(w: bv10): bv10 { Linear(w, 0x3d0, 0x2a9, 0x72, 0xcd, 0x19a, 0x104, 0x208, 0x130, 0x249, 0x1b2) }

  // ---------------------------------------------------------------- powers of e are linear

  lemma AddZero(v: bv10)
    ensures Add(v, 0) == v && Add(0, v) == v
  {
  }

  lemma AddIsZero(v: bv10, w: bv10)
    ensures Add(v, w) == 0 <==> v == w
  {
  }

  lemma AddAssociates(u: bv10, v: bv10, w: bv10)
    ensures Add(Add(u, v), w) == Add(u, Add(v, w)) && Add(u, v) == Add(v, u)
  {
  }

  lemma AddExchanges(p: bv10, q: bv10, r: bv10, s: bv10)
    ensures Add(Add(p, q), Add(r, s)) == Add(Add(p, r), Add(q, s))
  {
    hide Add;
    AddAssociates(p, q, Add(r, s));
    AddAssociates(q, r, s);
    AddAssociates(r, q, s);
    AddAssociates(p, r, Add(q, s));
  }

  function Lift(w: bv10): bv10 { (w & 31) << 5 }

  function Upper(w: bv10): bv10 {
    (if w & 32 == 0 then 0 else 0x137) ^ (if w & 64 == 0 then 0 else 0x247) ^ (if w & 128 == 0 then 0 else 0x1ae)
    ^ (if w & 256 == 0 then 0 else 0x35c) ^ (if w & 512 == 0 then 0 else 0x3b1)
  }

  lemma InParts(w: bv10)
    ensures TimesE(w) == Add(Lift(w), Upper(w))
  {
  }

  lemma UpperAdditive(v: bv10, w: bv10)
    ensures Upper(Add(v, w)) == Add(Upper(v), Upper(w))
  {
  }

  lemma LiftAdditive(v: bv10, w: bv10)
    ensures Lift(Add(v, w)) == Add(Lift(v), Lift(w))
  {
  }

  lemma TimesEAdditive(v: bv10, w: bv10)
    ensures TimesE(Add(v, w)) == Add(TimesE(v), TimesE(w))
  {
    hide TimesE, Lift, Upper, Add;
    InParts(v);
    InParts(w);
    InParts(Add(v, w));
    UpperAdditive(v, w);
    LiftAdditive(v, w);
    AddExchanges(Lift(v), Lift(w), Upper(v), Upper(w));
  }

  lemma {:induction false} PowerAdditive(n: nat, v: bv10, w: bv10)
    ensures Power(n, Add(v, w)) == Add(Power(n, v), Power(n, w))
  {
    hide TimesE, Add;
    if n > 0 {
      PowerAdditive(n - 1, v, w);
      TimesEAdditive(Power(n - 1, v), Power(n - 1, w));
    }
  }

  lemma {:induction false} PowerPlus(m: nat, n: nat, w: bv10)
    ensures Power(m + n, w) == Power(m, Power(n, w))
  {
    hide TimesE;
    if m > 0 {
      PowerPlus(m - 1, n, w);
    }
  }

  lemma OnlyZeroToZero(w: bv10)
    ensures TimesE(w) == 0 <==> w == 0
  {
  }

  lemma {:induction false} PowerIsZero(n: nat, w: bv10)
    ensures Power(n, w) == 0 <==> w == 0
  {
    hide TimesE;
    if n > 0 {
      PowerIsZero(n - 1, w);
      OnlyZeroToZero(Power(n - 1, w));
    }
  }

  // ---------------------------------------------------------------- the order of e

  lemma Power1(w: bv10)
    ensures Power(1, w) == E1(w)
  {
    assert Power(0, w) == w;
    E1Is(w);
  }

  lemma E1Is(w: bv10)
    ensures TimesE(w) == E1(w)
  {
  }

  lemma E2Is(w: bv10)
    ensures E1(E1(w)) == E2(w)
  {
  }

  lemma Power2(w: bv10)
    ensures Power(2, w) == E2(w)
  {
    hide Power, TimesE, Linear;
    PowerPlus(1, 1, w);
    Power1(w);
    Power1(E1(w));
    E2Is(w);
  }

  lemma E4Is(w: bv10)
    ensures E2(E2(w)) == E4(w)
  {
  }

  lemma Power4(w: bv10)
    ensures Power(4, w) == E4(w)
  {
    hide Power, TimesE, Linear;
    PowerPlus(2, 2, w);
    Power2(w);
    Power2(E2(w));
    E4Is(w);
  }

  lemma E8Is(w: bv10)
    ensures E4(E4(w)) == E8(w)
  {
  }

  lemma Power8(w: bv10)
    ensures Power(8, w) == E8(w)
  {
    hide Power, TimesE, Linear;
    PowerPlus(4, 4, w);
    Power4(w);
    Power4(E4(w));
    E8Is(w);
  }

  lemma E16Is(w: bv10)
    ensures E8(E8(w)) == E16(w)
  {
  }

  lemma Power16(w: bv10)
    ensures Power(16, w) == E16(w)
  {
    hide Power, TimesE, Linear;
    PowerPlus(8, 8, w);
    Power8(w);
    Power8(E8(w));
    E16Is(w);
  }

  lemma E32Is(w: bv10)
    ensures E16(E16(w)) == E32(w)
  {
  }

  lemma Power32(w: bv10)
    ensures Power(32, w) == E32(w)
  {
    hide Power, TimesE, Linear;
    PowerPlus(16, 16, w);
    Power16(w);
    Power16(E16(w));
    E32Is(w);
  }

  lemma E64Is(w: bv10)
    ensures E32(E32(w)) == E64(w)
  {
  }

  lemma Power64(w: bv10)
    ensures Power(64, w) == E64(w)
  {
    hide Power, TimesE, Linear;
    PowerPlus(32, 32, w);
    Power32(w);
    Power32(E32(w));
    E64Is(w);
  }

  lemma E128Is(w: bv10)
    ensures E64(E64(w)) == E128(w)
  {
  }

  lemma Power128(w: bv10)
    ensures Power(128, w) == E128(w)
  {
    hide Power, TimesE, Linear;
    PowerPlus(64, 64, w);
    Power64(w);
    Power64(E64(w));
    E128Is(w);
  }

  lemma E256Is(w: bv10)
    ensures E128(E128(w)) == E256(w)
  {
  }

  lemma Power256(w: bv10)
    ensures Power(256, w) == E256(w)
  {
    hide Power, TimesE, Linear;
    PowerPlus(128, 128, w);
    Power128(w);
    Power128(E128(w));
    E256Is(w);
  }

  lemma E512Is(w: bv10)
    ensures E256(E256(w)) == E512(w)
  {
  }

  lemma Power512(w: bv10)
    ensures Power(512, w) == E512(w)
  {
    hide Power, TimesE, Linear;
    PowerPlus(256, 256, w);
    Power256(w);
    Power256(E256(w));
    E512Is(w);
  }

  lemma E5Is(w: bv10)
    ensures E4(E1(w)) == E5(w)
  {
  }

  lemma Power5(w: bv10)
    ensures Power(5, w) == E5(w)
  {
    hide Power, TimesE, Linear;
    PowerPlus(4, 1, w);
    Power1(w);
    Power4(E1(w));
    E5Is(w);
  }

  lemma E13Is(w: bv10)
    ensures E8(E5(w)) == E13(w)
  {
  }

  lemma Power13(w: bv10)
    ensures Power(13, w) == E13(w)
  {
    hide Power, TimesE, Linear;
    PowerPlus(8, 5, w);
    Power5(w);
    Power8(E5(w));
    E13Is(w);
  }

  lemma E21Is(w: bv10)
    ensures E16(E5(w)) == E21(w)
  {
  }

  lemma Power21(w: bv10)
    ensures Power(21, w) == E21(w)
  {
    hide Power, TimesE, Linear;
    PowerPlus(16, 5, w);
    Power5(w);
    Power16(E5(w));
    E21Is(w);
  }

  lemma E29Is(w: bv10)
    ensures E16(E13(w)) == E29(w)
  {
  }

  lemma Power29(w: bv10)
    ensures Power(29, w) == E29(w)
  {
    hide Power, TimesE, Linear;
    PowerPlus(16, 13, w);
    Power13(w);
    Power16(E13(w));
    E29Is(w);
  }

  lemma E33Is(w: bv10)
    ensures E32(E1(w)) == E33(w)
  {
  }

  lemma Power33(w: bv10)
    ensures Power(33, w) == E33(w)
  {
    hide Power, TimesE, Linear;
    PowerPlus(32, 1, w);
    Power1(w);
    Power32(E1(w));
    E33Is(w);
  }

  lemma E37Is(w: bv10)
    ensures E32(E5(w)) == E37(w)
  {
  }

  lemma Power37(w: bv10)
    ensures Power(37, w) == E37(w)
  {
    hide Power, TimesE, Linear;
    PowerPlus(32, 5, w);
    Power5(w);
    Power32(E5(w));
    E37Is(w);
  }

  lemma E85Is(w: bv10)
    ensures E64(E21(w)) == E85(w)
  {
  }

  lemma Power85(w: bv10)
    ensures Power(85, w) == E85(w)
  {
    hide Power, TimesE, Linear;
    PowerPlus(64, 21, w);
    Power21(w);
    Power64(E21(w));
    E85Is(w);
  }

  lemma E93Is(w: bv10)
    ensures E64(E29(w)) == E93(w)
  {
  }

  lemma Power93(w: bv10)
    ensures Power(93, w) == E93(w)
  {
    hide Power, TimesE, Linear;
    PowerPlus(64, 29, w);
    Power29(w);
    Power64(E29(w));
    E93Is(w);
  }

  lemma E101Is(w: bv10)
    ensures E64(E37(w)) == E101(w)
  {
  }

  lemma Power101(w: bv10)
    ensures Power(101, w) == E101(w)
  {
    hide Power, TimesE, Linear;
    PowerPlus(64, 37, w);
    Power37(w);
    Power64(E37(w));
    E101Is(w);
  }

  lemma E229Is(w: bv10)
    ensures E128(E101(w)) == E229(w)
  {
  }

  lemma Power229(w: bv10)
    ensures Power(229, w) == E229(w)
  {
    hide Power, TimesE, Linear;
    PowerPlus(128, 101, w);
    Power101(w);
    Power128(E101(w));
    E229Is(w);
  }

  lemma E341Is(w: bv10)
    ensures E256(E85(w)) == E341(w)
  {
  }

  lemma Power341(w: bv10)
    ensures Power(341, w) == E341(w)
  {
    hide Power, TimesE, Linear;
    PowerPlus(256, 85, w);
    Power85(w);
    Power256(E85(w));
    E341Is(w);
  }

  lemma E485Is(w: bv10)
    ensures E256(E229(w)) == E485(w)
  {
  }

  lemma Power485(w: bv10)
    ensures Power(485, w) == E485(w)
  {
    hide Power, TimesE, Linear;
    PowerPlus(256, 229, w);
    Power229(w);
    Power256(E229(w));
    E485Is(w);
  }

  lemma E997Is(w: bv10)
    ensures E512(E485(w)) == E997(w)
  {
  }

  lemma Power997(w: bv10)
    ensures Power(997, w) == E997(w)
  {
    hide Power, TimesE, Linear;
    PowerPlus(512, 485, w);
    Power485(w);
    Power512(E485(w));
    E997Is(w);
  }

  lemma E998Is(w: bv10)
    ensures E1(E997(w)) == E998(w)
  {
  }

  lemma Power998(w: bv10)
    ensures Power(998, w) == E998(w)
  {
    hide Power, TimesE, Linear;
    PowerPlus(1, 997, w);
    Power997(w);
    Power1(E997(w));
    E998Is(w);
  }

  lemma E999Is(w: bv10)
    ensures E1(E998(w)) == E999(w)
  {
  }

  lemma Power999(w: bv10)
    ensures Power(999, w) == E999(w)
  {
    hide Power, TimesE, Linear;
    PowerPlus(1, 998, w);
    Power998(w);
    Power1(E998(w));
    E999Is(w);
  }

  lemma E1024Is(w: bv10)
    ensures E512(E512(w)) == E1(w)
  {
  }

  lemma Power1024(w: bv10)
    ensures Power(1024, w) == TimesE(w)
  {
    hide Power, TimesE, Linear;
    PowerPlus(512, 512, w);
    Power512(w);
    Power512(E512(w));
    E1024Is(w);
    E1Is(w);
  }

  /** The 1023rd power of e is one. */
  lemma Power1023(w: bv10)
    ensures Power(1023, w) == w
  {
    Power1024(w);
    assert Power(1024, w) == TimesE(Power(1023, w));
    hide Power, TimesE, Add;
    var v := Power(1023, w);
    TimesEAdditive(v, w);
    AddIsZero(TimesE(w), TimesE(w));
    OnlyZeroToZero(Add(v, w));
    AddIsZero(v, w);
  }

  // No smaller power is: it would divide one of these.

  lemma NotAThird(w: bv10)
    requires Power(341, w) == w
    ensures w == 0
  {
    hide Power, TimesE;
    Power341(w);
  }

  lemma NotAnEleventh(w: bv10)
    requires Power(93, w) == w
    ensures w == 0
  {
    hide Power, TimesE;
    Power93(w);
  }

  lemma NotAThirtyFirst(w: bv10)
    requires Power(33, w) == w
    ensures w == 0
  {
    hide Power, TimesE;
    Power33(w);
  }

  lemma {:induction false} PowerFixed(d: nat, k: nat, w: bv10)
    requires Power(d, w) == w
    ensures Power(d * k, w) == w
  {
    hide Power;
    if k == 0 {
      PowerNone(w);
    } else {
      PowerFixed(d, k - 1, w);
      PowerPlus(d, d * (k - 1), w);
      assert d * k == d + d * (k - 1);
    }
  }

  lemma PowerNone(w: bv10)
    ensures Power(0, w) == w
  {
  }

  /** The inverse of a number modulo 3, 11 or 31. */
  function Inverse(r: nat, x: nat): nat {
    if r == 3 then x
    else if r == 11 then
      if x == 2 then 6 else if x == 6 then 2 else if x == 3 then 4 else if x == 4 then 3 else if x == 5 then 9
      else if x == 9 then 5 else if x == 7 then 8 else if x == 8 then 7 else x
    else
      if x == 2 then 16 else if x == 16 then 2 else if x == 3 then 21 else if x == 21 then 3 else if x == 4 then 8
      else if x == 8 then 4 else if x == 5 then 25 else if x == 25 then 5 else if x == 6 then 26
      else if x == 26 then 6 else if x == 7 then 9 else if x == 9 then 7 else if x == 10 then 28
      else if x == 28 then 10 else if x == 11 then 17 else if x == 17 then 11 else if x == 12 then 13
      else if x == 13 then 12 else if x == 14 then 20 else if x == 20 then 14 else if x == 15 then 29
      else if x == 29 then 15 else if x == 18 then 19 else if x == 19 then 18 else if x == 22 then 24
      else if x == 24 then 22 else if x == 23 then 27 else if x == 27 then 23 else x
  }

  lemma InverseIs(r: nat, x: nat)
    requires (r == 3 || r == 11 || r == 31) && 0 < x < r
    ensures (x * Inverse(r, x)) % r == 1
  {
  }

  lemma Expanded(d: nat, q: nat, r: nat, x: nat, y: nat, t: nat)
    requires d == r * q + x && x * y == r * t + 1
    ensures d * y == r * (q * y + t) + 1
  {
    assert (r * q + x) * y == r * (q * y) + x * y;
  }

  lemma Regrouped(d: nat, y: nat, m: nat, r: nat, k: nat)
    requires d * y == r * k + 1 && r * m == 1023
    ensures d * (y * m) == m + 1023 * k
  {
    assert d * (y * m) == (d * y) * m;
    assert (r * k + 1) * m == (r * m) * k + m;
  }

  lemma DivisionOf(z: nat, r: nat)
    requires r > 0
    ensures z == r * (z / r) + z % r
  {
  }

  /** Some multiple of a number is one more than a multiple of a prime that does not divide it. */
  lemma Cofactor(d: nat, r: nat) returns (y: nat, k: nat)
    requires (r == 3 || r == 11 || r == 31) && d % r != 0
    ensures d * y == r * k + 1
  {
    hide Inverse;
    var x, q := d % r, d / r;
    DivisionOf(d, r);
    y := Inverse(r, x);
    InverseIs(r, x);
    DivisionOf(x * y, r);
    var t := (x * y) / r;
    Expanded(d, q, r, x, y, t);
    k := q * y + t;
  }

  lemma Reaches(d: nat, r: nat, m: nat, w: bv10)
    requires (r == 3 || r == 11 || r == 31) && r * m == 1023 && d % r != 0 && Power(d, w) == w
    ensures Power(m, w) == w
  {
    hide Power;
    var y, k := Cofactor(d, r);
    Regrouped(d, y, m, r, k);
    PowerFixed(d, y * m, w);
    Power1023(w);
    PowerFixed(1023, k, w);
    PowerPlus(m, 1023 * k, w);
  }

  /** Only zero comes back before 1023 steps. */
  lemma NoShortCycle(d: nat, w: bv10)
    requires 0 < d < 1023 && Power(d, w) == w
    ensures w == 0
  {
    hide Power;
    if d % 3 != 0 {
      Reaches(d, 3, 341, w);
      NotAThird(w);
    } else if d % 11 != 0 {
      Reaches(d, 11, 93, w);
      NotAnEleventh(w);
    } else {
      assert d % 31 != 0;
      Reaches(d, 31, 33, w);
      NotAThirtyFirst(w);
    }
  }

  // ---------------------------------------------------------------- values of polynomials

  /** The value of a polynomial at a power of e. */
  function Evaluate(m: nat, v: seq<bv8>): bv10 {
    if v == [] then 0 else Add(Power(m, Evaluate(m, v[..|v| - 1])), Embed(v[|v| - 1]))
  }

  lemma EvaluateNext(m: nat, v: seq<bv8>, x: bv8)
    ensures Evaluate(m, v + [x]) == Add(Power(m, Evaluate(m, v)), Embed(x))
  {
    assert (v + [x])[..|v|] == v;
  }

  lemma LastApart(u: seq<bv8>, w: seq<bv8>)
    requires w != []
    ensures w == w[..|w| - 1] + [w[|w| - 1]] && u + w == u + w[..|w| - 1] + [w[|w| - 1]]
  {
  }

  lemma AppendNext(m: nat, front: bv10, low: bv10, x: bv10)
    ensures Add(Power(m, Add(front, low)), x) == Add(Power(m, front), Add(Power(m, low), x))
  {
    hide Power, Add;
    PowerAdditive(m, front, low);
    AddAssociates(Power(m, front), Power(m, low), x);
  }

  lemma {:induction false} EvaluateAppend(m: nat, u: seq<bv8>, w: seq<bv8>)
    ensures Evaluate(m, u + w) == Add(Power(m * |w|, Evaluate(m, u)), Evaluate(m, w))
  {
    if w == [] {
      assert u + w == u;
      hide Power, Add, Embed;
      PowerNone(Evaluate(m, u));
      AddZero(Evaluate(m, u));
    } else {
      hide Power, Add, Embed, Evaluate;
      var n := |w| - 1;
      var x, low := w[n], w[..n];
      EvaluateAppend(m, u, low);
      LastApart(u, w);
      EvaluateNext(m, u + low, x);
      EvaluateNext(m, low, x);
      AppendNext(m, Power(m * n, Evaluate(m, u)), Evaluate(m, low), Embed(x));
      PowerTimes(m, n, |w|, Evaluate(m, u));
    }
  }

  lemma PowerTimes(m: nat, n: nat, k: nat, w: bv10)
    requires k == n + 1
    ensures Power(m * k, w) == Power(m, Power(m * n, w))
  {
    hide Power;
    assert m * k == m + m * n;
    PowerPlus(m, m * n, w);
  }

  lemma EmbedAdditive(v: bv8, w: bv8)
    ensures Embed(Xor8(v, w)) == Add(Embed(v), Embed(w)) && Embed(0) == 0
  {
  }

  lemma EmbedIsZero(v: bv8)
    ensures Embed(v) == 0 <==> v == 0
  {
  }

  lemma {:induction false} EvaluateDiff(m: nat, u: seq<bv8>, w: seq<bv8>)
    requires |u| == |w|
    ensures Evaluate(m, Diff(u, w)) == Add(Evaluate(m, u), Evaluate(m, w))
  {
    hide Power, Add, Embed, Xor8;
    if u == [] {
      AddZero(0);
    } else {
      var n := |u| - 1;
      EvaluateDiff(m, u[..n], w[..n]);
      assert Diff(u, w) == Diff(u[..n], w[..n]) + [Xor8(u[n], w[n])];
      EvaluateNext(m, Diff(u[..n], w[..n]), Xor8(u[n], w[n]));
      PowerAdditive(m, Evaluate(m, u[..n]), Evaluate(m, w[..n]));
      EmbedAdditive(u[n], w[n]);
      AddExchanges(Power(m, Evaluate(m, u[..n])), Power(m, Evaluate(m, w[..n])), Embed(u[n]), Embed(w[n]));
    }
  }

  lemma {:induction false} EvaluateZeroes(m: nat, z: seq<bv8>)
    requires forall i :: 0 <= i < |z| ==> z[i] == 0
    ensures Evaluate(m, z) == 0
  {
    hide Power, Add, Embed;
    if z != [] {
      EvaluateZeroes(m, z[..|z| - 1]);
      PowerIsZero(m, 0);
      EmbedIsZero(0);
      AddZero(0);
    }
  }

  // ---------------------------------------------------------------- the roots of the generator

  /** Multiplication by the m-th power of e, for the three consecutive m that matter. */
  function Root(m: nat, w: bv10): bv10 {
    if m == 997 then E997(w) else if m == 998 then E998(w) else E999(w)
  }

  lemma GeneratorAt997(a: bv8)
    requires a < 32
    ensures Add(E997(Add(E997(Add(E997(Add(E997(Add(E997(Add(E997(Embed(a)), Embed(Mul(a, 29)))), Embed(Mul(a, 22)))),
              Embed(Mul(a, 20)))), Embed(Mul(a, 21)))), Embed(Mul(a, 29)))), Embed(Mul(a, 18))) == 0
  {
  }

  lemma GeneratorAt998(a: bv8)
    requires a < 32
    ensures Add(E998(Add(E998(Add(E998(Add(E998(Add(E998(Add(E998(Embed(a)), Embed(Mul(a, 29)))), Embed(Mul(a, 22)))),
              Embed(Mul(a, 20)))), Embed(Mul(a, 21)))), Embed(Mul(a, 29)))), Embed(Mul(a, 18))) == 0
  {
  }

  lemma GeneratorAt999(a: bv8)
    requires a < 32
    ensures Add(E999(Add(E999(Add(E999(Add(E999(Add(E999(Add(E999(Embed(a)), Embed(Mul(a, 29)))), Embed(Mul(a, 22)))),
              Embed(Mul(a, 20)))), Embed(Mul(a, 21)))), Embed(Mul(a, 29)))), Embed(Mul(a, 18))) == 0
  {
  }

  lemma RootIs(m: nat, w: bv10)
    requires 997 <= m <= 999
    ensures Power(m, w) == Root(m, w)
  {
    hide Power, Linear;
    if m == 997 {
      Power997(w);
    } else if m == 998 {
      Power998(w);
    } else {
      Power999(w);
    }
  }

  /** The value of seven coefficients, innermost first. */
  function Nested(m: nat, a: bv8, b: bv8, c: bv8, d: bv8, e: bv8, f: bv8, g: bv8): bv10 {
    Add(Root(m, Add(Root(m, Add(Root(m, Add(Root(m, Add(Root(m, Add(Root(m, Embed(a)), Embed(b))), Embed(c))),
      Embed(d))), Embed(e))), Embed(f))), Embed(g))
  }

  lemma NestedIsZero(m: nat, a: bv8)
    requires 997 <= m <= 999 && a < 32
    ensures Nested(m, a, Mul(a, 29), Mul(a, 22), Mul(a, 20), Mul(a, 21), Mul(a, 29), Mul(a, 18)) == 0
  {
    if m == 997 {
      GeneratorAt997(a);
    } else if m == 998 {
      GeneratorAt998(a);
    } else {
      GeneratorAt999(a);
    }
    hide Linear, Mul, Embed, Add;
  }

  lemma EvaluateNested(m: nat, a: bv8, k: seq<bv8>)
    requires 997 <= m <= 999 && |k| == 6
    ensures Evaluate(m, [a] + k) == Nested(m, a, k[0], k[1], k[2], k[3], k[4], k[5])
  {
    hide Power, Root, Embed, Add, Evaluate;
    EvaluateOne(m, a);
    EvaluateRoot(m, [a], k[0]);
    EvaluateRoot(m, [a] + [k[0]], k[1]);
    EvaluateRoot(m, [a] + [k[0]] + [k[1]], k[2]);
    EvaluateRoot(m, [a] + [k[0]] + [k[1]] + [k[2]], k[3]);
    EvaluateRoot(m, [a] + [k[0]] + [k[1]] + [k[2]] + [k[3]], k[4]);
    EvaluateRoot(m, [a] + [k[0]] + [k[1]] + [k[2]] + [k[3]] + [k[4]], k[5]);
    assert [a] + k == [a] + [k[0]] + [k[1]] + [k[2]] + [k[3]] + [k[4]] + [k[5]];
  }

  lemma EvaluateOne(m: nat, a: bv8)
    ensures Evaluate(m, [a]) == Embed(a)
  {
    hide Power, Embed, Add;
    assert [a][..0] == [];
    PowerIsZero(m, 0);
    AddZero(Embed(a));
  }

  lemma EvaluateRoot(m: nat, v: seq<bv8>, x: bv8)
    requires 997 <= m <= 999
    ensures Evaluate(m, v + [x]) == Add(Root(m, Evaluate(m, v)), Embed(x))
  {
    hide Power, Root, Embed, Add;
    EvaluateNext(m, v, x);
    RootIs(m, Evaluate(m, v));
  }

  /** Multiples of the generator vanish at the three powers of e. */
  lemma GeneratorVanishes(m: nat, a: bv8)
    requires 997 <= m <= 999 && a < 32
    ensures Evaluate(m, Multiples(a)) == Power(m * 6, Embed(a))
  {
    hide Mul, Nested, Power, Embed, Add, Evaluate;
    var k := Multiples(a);
    EvaluateNested(m, a, k);
    NestedIsZero(m, a);
    EvaluateAppend(m, [a], k);
    EvaluateOne(m, a);
    AddIsZero(Power(m * 6, Embed(a)), Evaluate(m, k));
  }

  /** So taking the remainder does not change the value there. */
  lemma NextEvaluates(m: nat, r: seq<bv8>, x: bv8)
    requires 997 <= m <= 999 && |r| == 6 && r[0] < 32
    ensures Evaluate(m, Next(r, x)) == Add(Power(m, Evaluate(m, r)), Embed(x))
  {
    hide Mul, Power, Embed, Add, Evaluate, Xor8;
    var a, rest, k := r[0], r[1..], Multiples(r[0]);
    SixAlike(Next(r, x), Diff(rest + [x], k));
    EvaluateDiff(m, rest + [x], k);
    EvaluateNext(m, rest, x);
    GeneratorVanishes(m, a);
    assert r == [a] + rest;
    EvaluateAppend(m, [a], rest);
    EvaluateOne(m, a);
    PowerTimes(m, 5, 6, Embed(a));
    Rearranged(m, Power(m * 5, Embed(a)), Evaluate(m, rest), Embed(x));
  }

  lemma Rearranged(m: nat, p: bv10, q: bv10, x: bv10)
    ensures Add(Add(Power(m, q), x), Power(m, p)) == Add(Power(m, Add(p, q)), x)
  {
    hide Power, Add;
    PowerAdditive(m, p, q);
    AddAssociates(Power(m, q), x, Power(m, p));
    AddAssociates(Add(Power(m, q), x), Power(m, p), 0);
    AddAssociates(Power(m, p), Power(m, q), x);
  }

  lemma {:induction false} StateEvaluates(m: nat, v: seq<bv8>)
    requires 997 <= m <= 999 && Five(v)
    ensures Evaluate(m, Unpack(PolyModFrom(0, v))) == Evaluate(m, v)
  {
    hide Step, Power, Embed, Add, Evaluate, Unpack;
    if v == [] {
      UnpackZero();
      EvaluateZeroes(m, Unpack(0));
      EvaluateZeroes(m, []);
    } else {
      var n := |v| - 1;
      var c := PolyModFrom(0, v[..n]);
      StateEvaluates(m, v[..n]);
      PolyInRange(0, v[..n]);
      UnpackPacks(c);
      StepIsNext(c, v[n]);
      NextEvaluates(m, Unpack(c), v[n]);
      EvaluateNext(m, v[..n], v[n]);
      assert v == v[..n] + [v[n]];
    }
  }

  lemma UnpackZero()
    ensures forall i :: 0 <= i < 6 ==> Unpack(0)[i] == 0
  {
  }

  // ---------------------------------------------------------------- three errors

  /** So many symbols on. */
  function Steps(m: nat, d: nat): nat { m * d }

  /** What comes after the last error does not matter. */
  lemma LastError(m: nat, v: seq<bv8>, k: nat)
    requires k < |v| && forall l :: k < l < |v| ==> v[l] == 0
    ensures Evaluate(m, v) == 0 <==> Evaluate(m, v[..k + 1]) == 0
  {
    hide Power, Add, Evaluate;
    var low, high := v[..k + 1], v[k + 1..];
    assert v == low + high;
    EvaluateAppend(m, low, high);
    EvaluateZeroes(m, high);
    AddZero(Power(m * |high|, Evaluate(m, low)));
    PowerIsZero(m * |high|, Evaluate(m, low));
  }

  /** The value up to an error, from that up to the error before it. */
  lemma FromErrorToError(m: nat, v: seq<bv8>, i: nat, j: nat)
    requires i < j < |v| && forall k :: i < k < j ==> v[k] == 0
    ensures Evaluate(m, v[..j + 1]) == Add(Power(Steps(m, j - i), Evaluate(m, v[..i + 1])), Embed(v[j]))
  {
    hide Power, Embed, Add, Evaluate;
    var low, high := v[..i + 1], v[i + 1..j];
    assert v[..j + 1] == v[..j] + [v[j]] && v[..j] == low + high;
    EvaluateNext(m, v[..j], v[j]);
    EvaluateAppend(m, low, high);
    EvaluateZeroes(m, high);
    AddZero(Power(m * |high|, Evaluate(m, low)));
    PowerTimes(m, |high|, j - i, Evaluate(m, low));
  }

  lemma FirstError(m: nat, v: seq<bv8>, i: nat)
    requires i < |v| && forall k :: 0 <= k < i ==> v[k] == 0
    ensures Evaluate(m, v[..i + 1]) == Embed(v[i])
  {
    hide Power, Embed, Add, Evaluate;
    assert v[..i + 1] == v[..i] + [v[i]];
    EvaluateNext(m, v[..i], v[i]);
    EvaluateZeroes(m, v[..i]);
    PowerIsZero(m, 0);
    AddZero(Embed(v[i]));
  }

  lemma Combined(m: nat, s: nat, t: nat, r: nat, a: bv10, b: bv10)
    requires r == s + t
    ensures Power(Steps(m, t), Add(Power(Steps(m, s), a), b)) == Add(Power(Steps(m, r), a), Power(Steps(m, t), b))
  {
    hide Power, Add;
    PowerAdditive(m * t, Power(m * s, a), b);
    PowerPlus(m * t, m * s, a);
    assert m * t + m * s == m * r;
  }

  /** What three errors at i, j and k add up to, seen from the last of them. */
  lemma ThreeErrors(m: nat, v: seq<bv8>, i: nat, j: nat, k: nat)
    requires i < j < k < |v| && forall l :: 0 <= l < |v| && l != i && l != j && l != k ==> v[l] == 0
    ensures Evaluate(m, v) == 0 <==>
            Add(Add(Power(Steps(m, k - i), Embed(v[i])), Power(Steps(m, k - j), Embed(v[j]))), Embed(v[k])) == 0
  {
    hide Power, Embed, Add, Evaluate, Steps;
    FirstError(m, v, i);
    FromErrorToError(m, v, i, j);
    FromErrorToError(m, v, j, k);
    LastError(m, v, k);
    Combined(m, j - i, k - j, k - i, Embed(v[i]), Embed(v[j]));
  }

  lemma PowerOfNext(m: nat, p: nat, w: bv10)
    ensures Power(Steps(m + 1, p), w) == Power(p, Power(Steps(m, p), w))
  {
    hide Power;
    assert (m + 1) * p == p + m * p;
    PowerPlus(p, m * p, w);
  }

  /** Three consecutive equations leave only zero. */
  lemma OnlyZeroSolves(p: nat, q: nat, a: bv10, b: bv10, c: bv10)
    requires 0 < q < p < 1023
    requires Add(Add(a, b), c) == 0
    requires Add(Add(Power(p, a), Power(q, b)), c) == 0
    requires Add(Add(Power(p, Power(p, a)), Power(q, Power(q, b))), c) == 0
    ensures a == 0 && b == 0 && c == 0
  {
    hide Power, Add;
    var a', b' := Add(Power(p, a), a), Add(Power(q, b), b);
    Eliminated(a, b, Power(p, a), Power(q, b), c);
    Eliminated(Power(p, a), Power(q, b), Power(p, Power(p, a)), Power(q, Power(q, b)), c);
    PowerAdditive(p, Power(p, a), a);
    PowerAdditive(q, Power(q, b), b);
    SameTwice(p, q, a');
    ReturnsIfZero(p, a);
    ReturnsIfZero(q, b);
    AddZero(c);
    AddZero(0);
  }

  lemma SameTwice(p: nat, q: nat, w: bv10)
    requires 0 < q < p < 1023 && Power(p, w) == Power(q, w)
    ensures w == 0
  {
    hide Power;
    PowerPlus(p - q, q, w);
    NoShortCycle(p - q, Power(q, w));
    PowerIsZero(q, w);
  }

  lemma ReturnsIfZero(p: nat, w: bv10)
    requires 0 < p < 1023 && Add(Power(p, w), w) == 0
    ensures w == 0
  {
    hide Power, Add;
    AddIsZero(Power(p, w), w);
    NoShortCycle(p, w);
  }

  lemma Eliminated(a: bv10, b: bv10, a': bv10, b': bv10, c: bv10)
    requires Add(Add(a, b), c) == 0 && Add(Add(a', b'), c) == 0
    ensures Add(a', a) == Add(b', b)
  {
    hide Add;
    AddIsZero(Add(a, b), c);
    AddIsZero(Add(a', b'), c);
    AddIsZero(Add(a', b'), Add(a, b));
    AddExchanges(a', b', a, b);
    AddIsZero(Add(a', a), Add(b', b));
  }

  /** No error pattern of up to three symbols within 1023 is a multiple of the generator. */
  lemma UpToThree(v: seq<bv8>, i: nat, j: nat, k: nat)
    requires Five(v) && i < j < k < |v| && k - i < 1023
    requires forall l :: 0 <= l < |v| && l != i && l != j && l != k ==> v[l] == 0
    requires PolyModFrom(0, v) == 0
    ensures v[i] == 0 && v[j] == 0 && v[k] == 0
  {
    hide Power, Embed, Add, Evaluate, PolyModFrom, Unpack, Steps;
    UnpackZero();
    forall m | 997 <= m <= 999 ensures Evaluate(m, v) == 0 {
      StateEvaluates(m, v);
      EvaluateZeroes(m, Unpack(0));
    }
    ThreeErrors(997, v, i, j, k);
    ThreeErrors(998, v, i, j, k);
    ThreeErrors(999, v, i, j, k);
    var p, q := k - i, k - j;
    PowerOfNext(997, p, Embed(v[i]));
    PowerOfNext(998, p, Embed(v[i]));
    PowerOfNext(997, q, Embed(v[j]));
    PowerOfNext(998, q, Embed(v[j]));
    OnlyZeroSolves(p, q, Power(Steps(997, p), Embed(v[i])), Power(Steps(997, q), Embed(v[j])), Embed(v[k]));
    PowerIsZero(Steps(997, p), Embed(v[i]));
    PowerIsZero(Steps(997, q), Embed(v[j]));
    EmbedIsZero(v[i]);
    EmbedIsZero(v[j]);
    EmbedIsZero(v[k]);
  }

  /** Any corruption of up to three symbols within 1023 changes the checksum. */
  lemma ThreeErrorsAreDetected(u: seq<bv8>, w: seq<bv8>, i: nat, j: nat, k: nat)
    requires |u| == |w| && Five(u) && Five(w) && u != w && i < j < k < |u| && k - i < 1023
    requires forall l :: 0 <= l < |u| && l != i && l != j && l != k ==> u[l] == w[l]
    ensures PolyMod(u) != PolyMod(w)
  {
    hide PolyModFrom, Xor, Xor8;
    ErrorSymbols(u, w);
    PolyLinear(1, 1, u, w);
    XorIsZero(1, 1);
    XorIsZero(PolyMod(u), PolyMod(w));
    if PolyModFrom(0, Diff(u, w)) == 0 {
      UpToThree(Diff(u, w), i, j, k);
    }
  }
}
