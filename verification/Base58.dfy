/**
 Base 58: byte strings as text without ambiguous characters. Encoding and decoding rewrite a
 buffer of digits in place; both are proved against one relation between texts and bytes, which
 is one to one in both directions.
 */
module Base58 {
  import opened Common
  import opened ArithModel

  type Byte = b: nat | b < 256

  // ---------------------------------------------------------------- the alphabet

  const ONE: Byte := 49

  /** The value of a character, or -1. */
  function Digit(c: Byte): (d: int)
    ensures -1 <= d < 58
  {
    if 49 <= c <= 57 then c - 49
    else if 65 <= c <= 72 then c - 65 + 9
    else if 74 <= c <= 78 then c - 74 + 17
    else if 80 <= c <= 90 then c - 80 + 22
    else if 97 <= c <= 107 then c - 97 + 33
    else if 109 <= c <= 122 then c - 109 + 44
    else -1
  }

  /** The character of a value. */
  function Char(d: nat): (c: Byte)
    requires d < 58
    ensures Digit(c) == d
  {
    if d < 9 then 49 + d
    else if d < 17 then 65 + d - 9
    else if d < 22 then 74 + d - 17
    else if d < 33 then 80 + d - 22
    else if d < 44 then 97 + d - 33
    else 109 + d - 44
  }

  lemma CharOfDigit(c: Byte)
    requires Digit(c) >= 0
    ensures Char(Digit(c)) == c && !IsSpace(c) && c != 0
  {
  }

  predicate IsSpace(c: Byte) {
    c == 32 || 9 <= c <= 13
  }

  // ---------------------------------------------------------------- numbers in a base

  ghost predicate Digits(s: seq<nat>, base: nat) {
    forall i :: 0 <= i < |s| ==> s[i] < base
  }

  /** The most significant digit first. */
  function Number(s: seq<nat>, base: nat): nat {
    if s == [] then 0 else Number(s[..|s| - 1], base) * base + s[|s| - 1]
  }

  function Pow(b: nat, n: nat): nat {
    if n == 0 then 1 else b * Pow(b, n - 1)
  }

  lemma {:induction false} PowPositive(b: nat, n: nat)
    requires b > 0
    ensures Pow(b, n) > 0
  {
    if n > 0 {
      PowPositive(b, n - 1);
      MulMonotone(1, Pow(b, n - 1), b);
    }
  }

  lemma {:induction false} NumberBound(s: seq<nat>, base: nat)
    requires Digits(s, base) && base > 0
    ensures Number(s, base) < Pow(base, |s|)
  {
    if s != [] {
      var n := |s| - 1;
      NumberBound(s[..n], base);
      MulMonotone(Number(s[..n], base) + 1, Pow(base, n), base);
      Distribute(Number(s[..n], base), 1, base);
    }
  }

  /** A prefix of zeroes adds nothing. */
  lemma {:induction false} NumberOfZeroes(s: seq<nat>, base: nat)
    requires forall i :: 0 <= i < |s| ==> s[i] == 0
    ensures Number(s, base) == 0
  {
    if s != [] {
      NumberOfZeroes(s[..|s| - 1], base);
    }
  }

  lemma NumberLast(s: seq<nat>, x: nat, base: nat)
    ensures Number(s + [x], base) == Number(s, base) * base + x
    ensures Number([], base) == 0
  {
    assert (s + [x])[..|s|] == s;
  }

  lemma {:induction false} NumberAppend(s: seq<nat>, t: seq<nat>, base: nat)
    ensures Number(s + t, base) == Number(s, base) * Pow(base, |t|) + Number(t, base)
  {
    hide Number, Pow;
    PowNext(base, 0);
    if t == [] {
      assert s + t == s;
      NumberLast(s, 0, base);
    } else {
      var n, front := |t| - 1, t[..|t| - 1];
      NumberAppend(s, front, base);
      assert t == front + [t[n]] && s + t == (s + front) + [t[n]];
      NumberLast(front, t[n], base);
      NumberLast(s + front, t[n], base);
      PowNext(base, n);
      AppendStep(Number(s, base), Pow(base, n), Number(front, base), base);
    }
  }

  lemma AppendStep(a: nat, p: nat, f: nat, base: nat)
    ensures (a * p + f) * base == a * (base * p) + f * base
  {
    Distribute(a * p, f, base);
    Associate(a, p, base);
  }

  /** No leading zero. */
  predicate Lead(s: seq<nat>) {
    s != [] ==> s[0] != 0
  }

  lemma {:induction false} LeadIsPositive(s: seq<nat>, base: nat)
    requires Lead(s) && base > 0
    ensures s == [] <==> Number(s, base) == 0
    ensures s != [] ==> Number(s, base) > 0
  {
    if |s| > 1 {
      var n := |s| - 1;
      LeadIsPositive(s[..n], base);
      MulMonotone(1, Number(s[..n], base), base);
    } else if |s| == 1 {
      assert s[..0] == [];
    }
  }

  /** A number has one representation without leading zeroes. */
  lemma {:induction false} OneRepresentation(s: seq<nat>, t: seq<nat>, base: nat)
    requires Digits(s, base) && Digits(t, base) && Lead(s) && Lead(t) && base > 1 && Number(s, base) == Number(t, base)
    ensures s == t
  {
    LeadIsPositive(s, base);
    LeadIsPositive(t, base);
    if s != [] {
      var m, n := |s| - 1, |t| - 1;
      DivModUnique(Number(s, base), base, Number(s[..m], base), s[m]);
      DivModUnique(Number(t, base), base, Number(t[..n], base), t[n]);
      OneRepresentation(s[..m], t[..n], base);
      assert s == s[..m] + [s[m]] && t == t[..n] + [t[n]];
    }
  }

  // ---------------------------------------------------------------- the buffer

  /** The inner loop of both directions: the number in the buffer is multiplied and a digit added. */
  method MulAdd(buf: array<nat>, to: nat, from: nat, digit: nat, length: nat) returns (carry: nat, i: nat)
    requires to > 1 && from > 0 && Digits(buf[..], to) && length <= buf.Length
    requires forall j :: 0 <= j < buf.Length - length ==> buf[j] == 0
    requires length > 0 ==> buf[buf.Length - length] != 0
    modifies buf
    ensures Digits(buf[..], to) && length <= i <= buf.Length
    ensures forall j :: 0 <= j < buf.Length - i ==> buf[j] == 0
    ensures Number(buf[..], to) + carry * Pow(to, buf.Length) == Number(old(buf[..]), to) * from + digit
    ensures carry == 0 && i > 0 ==> buf[buf.Length - i] != 0
  {
    hide Number, Pow;
    ghost var x, n := buf[..], buf.Length;
    carry := digit;
    i := 0;
    MulAddStart(x, to, from, digit);
    while (carry != 0 || i < length) && i < buf.Length
      invariant i <= n && Digits(buf[..], to) && buf[..n - i] == x[..n - i]
      invariant MulAddSoFar(x, buf[..], to, from, digit, i, carry)
      invariant i > length ==> carry != 0 || buf[n - i] != 0
      invariant i == length > 0 ==> carry != 0 || buf[n - i] != 0
    {
      ghost var y, c := buf[..], carry;
      var p := buf.Length - 1 - i;
      assert buf[p] == x[p];
      carry := carry + from * buf[p];
      LastDigit(carry, to);
      buf[p] := Mod(carry, to);
      assert buf[..] == y[p := Mod(carry, to)];
      MulAddStep(x, y, to, from, digit, i, c, carry);
      carry := Quotient(carry, to);
      i := i + 1;
      if i == length {
        MulMonotone(1, x[p], from);
      }
    }
    MulAddEnd(x, buf[..], to, from, digit, i, carry);
  }

  ghost predicate MulAddSoFar(x: seq<nat>, y: seq<nat>, to: nat, from: nat, digit: nat, i: nat, carry: nat)
    requires i <= |x| == |y|
  {
    Number(y[|y| - i..], to) + carry * Pow(to, i) == Number(x[|x| - i..], to) * from + digit
  }

  lemma MulAddStart(x: seq<nat>, to: nat, from: nat, digit: nat)
    ensures MulAddSoFar(x, x, to, from, digit, 0, digit)
  {
    assert x[|x|..] == [];
  }

  function Mod(x: nat, d: nat): (r: nat)
    requires d > 0
    ensures r < d
  {
    x % d
  }

  lemma LastDigit(x: nat, d: nat)
    requires d > 0
    ensures Quotient(x, d) == 0 ==> Mod(x, d) == x
  {
  }

  lemma NumberFront(d: nat, s: seq<nat>, base: nat)
    ensures Number([d] + s, base) == d * Pow(base, |s|) + Number(s, base)
  {
    NumberAppend([d], s, base);
    assert [d][..0] == [];
  }

  lemma PowNext(b: nat, n: nat)
    ensures Pow(b, n + 1) == b * Pow(b, n) && Pow(b, 0) == 1
  {
  }

  lemma MulAddStep(x: seq<nat>, y: seq<nat>, to: nat, from: nat, digit: nat, i: nat, carry: nat, n: nat)
    requires i < |x| == |y| && to > 0 && n == carry + from * x[|x| - 1 - i]
    requires MulAddSoFar(x, y, to, from, digit, i, carry)
    ensures MulAddSoFar(x, y[|x| - 1 - i := Mod(n, to)], to, from, digit, i + 1, Quotient(n, to))
  {
    hide Number, Pow;
    var p, y' := |x| - 1 - i, y[|x| - 1 - i := Mod(n, to)];
    assert y'[p..] == [Mod(n, to)] + y[p + 1..] && x[p..] == [x[p]] + x[p + 1..];
    NumberFront(Mod(n, to), y[p + 1..], to);
    NumberFront(x[p], x[p + 1..], to);
    PowNext(to, i);
    var w, q, r, a := Pow(to, i), n / to, n % to, x[p];
    assert n == q * to + r;
    Distribute(q * to, r, w);
    Associate(q, to, w);
    Distribute(carry, from * a, w);
    Associate(from, a, w);
    Distribute(a * w, Number(x[p + 1..], to), from);
  }

  lemma MulAddEnd(x: seq<nat>, y: seq<nat>, to: nat, from: nat, digit: nat, i: nat, carry: nat)
    requires i <= |x| == |y| && MulAddSoFar(x, y, to, from, digit, i, carry)
    requires i < |x| ==> carry == 0 && forall j :: 0 <= j < |x| - i ==> x[j] == 0 && y[j] == 0
    ensures Number(y, to) + carry * Pow(to, |y|) == Number(x, to) * from + digit
  {
    hide Number, Pow;
    var p := |x| - i;
    if p > 0 {
      WithoutZeroes(x, p, to);
      WithoutZeroes(y, p, to);
    } else {
      assert x[p..] == x && y[p..] == y;
    }
  }

  lemma WithoutZeroes(s: seq<nat>, k: nat, base: nat)
    requires k <= |s| && forall i :: 0 <= i < k ==> s[i] == 0
    ensures Number(s, base) == Number(s[k..], base)
  {
    NumberAppend(s[..k], s[k..], base);
    assert s[..k] + s[k..] == s;
    NumberOfZeroes(s[..k], base);
  }

  // ---------------------------------------------------------------- the sizes are large enough

  lemma {:induction false} PowAdd(b: nat, m: nat, n: nat)
    ensures Pow(b, m + n) == Pow(b, m) * Pow(b, n)
  {
    if m > 0 {
      PowAdd(b, m - 1, n);
      Associate(b, Pow(b, m - 1), Pow(b, n));
    }
  }

  lemma {:induction false} PowMul(b: nat, m: nat, n: nat)
    ensures Pow(Pow(b, m), n) == Pow(b, m * n)
  {
    if n > 0 {
      PowMul(b, m, n - 1);
      PowAdd(b, m, m * (n - 1));
      Distribute(1, n - 1, m);
    }
  }

  lemma {:induction false} PowMonotone(a: nat, b: nat, n: nat)
    requires a <= b
    ensures Pow(a, n) <= Pow(b, n)
  {
    if n > 0 {
      PowMonotone(a, b, n - 1);
      MulMonotone(a, b, Pow(a, n - 1));
      MulMonotone(Pow(a, n - 1), Pow(b, n - 1), b);
    }
  }

  lemma PowGrows(b: nat, m: nat, n: nat)
    requires b > 0 && m <= n
    ensures Pow(b, m) <= Pow(b, n)
  {
    PowAdd(b, m, n - m);
    PowPositive(b, n - m);
    MulMonotone(1, Pow(b, n - m), Pow(b, m));
  }

  /** Strictly smaller numbers have strictly smaller powers. */
  lemma {:induction false} PowStrict(a: nat, b: nat, n: nat)
    requires a < b && n > 0
    ensures Pow(a, n) < Pow(b, n)
  {
    if n == 1 {
      PowNext(a, 0);
      PowNext(b, 0);
    } else {
      PowStrict(a, b, n - 1);
      MulMonotone(a, b, Pow(a, n - 1));
      MulMonotone(Pow(a, n - 1) + 1, Pow(b, n - 1), b);
      Distribute(Pow(a, n - 1), 1, b);
    }
  }

  lemma PowersOf58()
    ensures Pow(58, 5) >= Pow(2, 29) && Pow(58, 22) <= Pow(2, 129)
    ensures Pow(2, 8) == 256
  {
    assert Pow(58, 4) == 11316496;
    PowNext(58, 4);
    PowMul(58, 5, 2);
    PowNext(Pow(58, 5), 1);
    PowNext(Pow(58, 5), 0);
    PowNext(58, 10);
    PowAdd(58, 11, 11);
    assert Pow(2, 8) == 256;
    PowAdd(2, 8, 8);
    PowAdd(2, 16, 16);
    PowAdd(2, 16, 13);
    PowAdd(2, 8, 5);
    assert Pow(2, 5) == 32;
    PowAdd(2, 32, 32);
    PowAdd(2, 64, 64);
    PowNext(2, 128);
  }

  /** 138/100 digits per byte, rounded up, are enough: 58^5 > 2^29. */
  lemma EncodingFits(n: nat)
    ensures Pow(256, n) <= Pow(58, n * 138 / 100 + 1)
  {
    hide Pow;
    var size := n * 138 / 100 + 1;
    PowersOf58();
    PowMonotone(Pow(2, 29), Pow(58, 5), size);
    PowMul(2, 29, size);
    PowMul(58, 5, size);
    PowMul(58, size, 5);
    PowMul(256, n, 5);
    PowMul(2, 8, n * 5);
    PowGrows(2, 8 * (n * 5), 29 * size);
    if Pow(256, n) > Pow(58, size) {
      PowStrict(Pow(58, size), Pow(256, n), 5);
    }
  }

  /** 733/1000 bytes per digit, rounded up, are enough: 58^22 < 2^129. */
  lemma DecodingFits(n: nat)
    ensures Pow(58, n) <= Pow(256, n * 733 / 1000 + 1)
  {
    hide Pow;
    var size := n * 733 / 1000 + 1;
    PowersOf58();
    PowMonotone(Pow(58, 22), Pow(2, 129), n);
    PowMul(58, 22, n);
    PowMul(2, 129, n);
    PowMul(58, n, 22);
    PowMul(256, size, 22);
    PowMul(2, 8, size * 22);
    PowGrows(2, 129 * n, 8 * (size * 22));
    if Pow(58, n) > Pow(256, size) {
      PowStrict(Pow(256, size), Pow(58, n), 22);
    }
  }

  // ---------------------------------------------------------------- what a text stands for

  ghost predicate Text(s: seq<Byte>) {
    forall i :: 0 <= i < |s| ==> Digit(s[i]) >= 0
  }

  function DigitsOf(s: seq<Byte>): (r: seq<nat>)
    requires Text(s)
    ensures |r| == |s| && Digits(r, 58) && forall i :: 0 <= i < |s| ==> r[i] == Digit(s[i])
  {
    if s == [] then [] else DigitsOf(s[..|s| - 1]) + [Digit(s[|s| - 1])]
  }

  /** How often a byte is repeated at the front. */
  function Run(s: seq<Byte>, x: Byte): (n: nat)
    ensures n <= |s| && (forall i :: 0 <= i < n ==> s[i] == x) && (n < |s| ==> s[n] != x)
  {
    if s == [] || s[0] != x then 0 else 1 + Run(s[1..], x)
  }

  lemma RunIs(s: seq<Byte>, x: Byte, n: nat)
    requires n <= |s| && (forall i :: 0 <= i < n ==> s[i] == x) && (n < |s| ==> s[n] != x)
    ensures Run(s, x) == n
  {
  }

  /** A leading one for every leading zero byte, and the same number in both bases. */
  ghost predicate Represents(text: seq<Byte>, bytes: seq<Byte>) {
    var z := Run(bytes, 0);
    && Text(text) && Run(text, ONE) == z
    && Number(DigitsOf(text[z..]), 58) == Number(bytes[z..], 256)
  }

  lemma BytesAreDigits(s: seq<Byte>)
    ensures Digits(s, 256)
  {
  }

  /** A text stands for one string of bytes. */
  lemma OneMeaning(text: seq<Byte>, a: seq<Byte>, b: seq<Byte>)
    requires Represents(text, a) && Represents(text, b)
    ensures a == b
  {
    hide Number, DigitsOf;
    var z := Run(a, 0);
    OneRepresentation(a[z..], b[z..], 256);
    assert a == a[..z] + a[z..] && b == b[..z] + b[z..];
    assert a[..z] == b[..z];
  }

  /** A string of bytes has one text. */
  lemma OneText(s: seq<Byte>, t: seq<Byte>, bytes: seq<Byte>)
    requires Represents(s, bytes) && Represents(t, bytes)
    ensures s == t
  {
    hide Number, DigitsOf;
    var z := Run(bytes, 0);
    var s1, t1 := s[z..], t[z..];
    assert s == s[..z] + s1 && t == t[..z] + t1 && s[..z] == t[..z];
    LeadOfText(s1);
    LeadOfText(t1);
    OneRepresentation(DigitsOf(s1), DigitsOf(t1), 58);
    SameDigits(s1, t1);
  }

  lemma LeadOfText(s: seq<Byte>)
    requires Text(s) && (s != [] ==> s[0] != ONE)
    ensures Lead(DigitsOf(s))
  {
  }

  lemma SameDigits(s: seq<Byte>, t: seq<Byte>)
    requires Text(s) && Text(t) && DigitsOf(s) == DigitsOf(t)
    ensures s == t
  {
    forall i | 0 <= i < |s| ensures s[i] == t[i] {
      assert DigitsOf(s)[i] == DigitsOf(t)[i];
      CharOfDigit(s[i]);
      CharOfDigit(t[i]);
    }
  }

  // ---------------------------------------------------------------- encoding

  method EncodeBase58(input: seq<Byte>) returns (text: seq<Byte>)
    ensures Represents(text, input)
  {
    hide Number, Pow, DigitsOf, Digits;
    var zeroes := 0;
    while zeroes < |input| && input[zeroes] == 0
      invariant zeroes <= |input| && forall i :: 0 <= i < zeroes ==> input[i] == 0
    {
      zeroes := zeroes + 1;
    }
    RunIs(input, 0, zeroes);
    var b58, length := EncodeDigits(input[zeroes..]);
    var size := b58.Length;
    var it := SkipZeroes(b58, size - length);
    WithoutZeroes(b58[..], it, 58);
    text := seq(zeroes, _ => ONE);
    var start := it;
    while it < size
      invariant start <= it <= size && |text| == zeroes + it - start && Digits(b58[..], 58)
      invariant forall i :: 0 <= i < zeroes ==> text[i] == ONE
      invariant forall i :: zeroes <= i < |text| ==> text[i] == CharAt(b58[..], start + i - zeroes)
    {
      text := text + [CharAt(b58[..], it)];
      it := it + 1;
    }
    Written(text, zeroes, b58[..], start);
    RunIs(text, ONE, zeroes);
  }

  function CharAt(ds: seq<nat>, i: nat): Byte {
    if i < |ds| && ds[i] < 58 then Char(ds[i]) else ONE
  }

  /** The digits of the bytes, in the last places of a buffer that is large enough. */
  method EncodeDigits(rest: seq<Byte>) returns (b58: array<nat>, length: nat)
    ensures fresh(b58) && length <= b58.Length && Digits(b58[..], 58) && Number(b58[..], 58) == Number(rest, 256)
    ensures forall j :: 0 <= j < b58.Length - length ==> b58[j] == 0
  {
    hide Number, Pow, Digits;
    var size := |rest| * 138 / 100 + 1;
    b58 := new nat[size](_ => 0);
    ZeroDigits(b58[..]);
    EncodingFits(|rest|);
    NumberOfZeroes(b58[..], 58);
    NumberLast([], 0, 256);
    BytesAreDigits(rest);
    length := 0;
    for k := 0 to |rest|
      invariant length <= size && Digits(b58[..], 58) && Number(b58[..], 58) == Number(rest[..k], 256)
      invariant forall j :: 0 <= j < size - length ==> b58[j] == 0
      invariant length > 0 ==> b58[size - length] != 0
    {
      NumberStep(rest, k, 256);
      var carry;
      carry, length := MulAdd(b58, 58, 256, rest[k], length);
      NoCarry(Number(b58[..], 58), carry, Pow(58, size), Number(rest[..k + 1], 256), Pow(256, |rest|));
      assert carry == 0;
    }
    assert rest[..|rest|] == rest;
  }

  lemma ZeroDigits(s: seq<nat>)
    requires forall i :: 0 <= i < |s| ==> s[i] == 0
    ensures Digits(s, 58)
  {
  }

  method SkipZeroes(b: array<nat>, from: nat) returns (it: nat)
    requires from <= b.Length
    ensures from <= it <= b.Length && (forall j :: from <= j < it ==> b[j] == 0) && (it < b.Length ==> b[it] != 0)
  {
    it := from;
    while it < b.Length && b[it] == 0
      invariant from <= it <= b.Length && forall j :: from <= j < it ==> b[j] == 0
    {
      it := it + 1;
    }
  }

  lemma NumberStep(s: seq<nat>, k: nat, base: nat)
    requires k < |s| && Digits(s, base) && base > 0
    ensures Number(s[..k + 1], base) == Number(s[..k], base) * base + s[k]
    ensures Number(s[..k + 1], base) < Pow(base, |s|)
  {
    assert s[..k + 1] == s[..k] + [s[k]];
    NumberLast(s[..k], s[k], base);
    NumberBound(s[..k + 1], base);
    PowGrows(base, k + 1, |s|);
  }

  /** The buffer is never too small. */
  lemma NoCarry(y: nat, carry: nat, p: nat, x: nat, bound: nat)
    requires y + carry * p == x && x < bound <= p
    ensures carry == 0 && y == x
  {
    if carry > 0 {
      MulMonotone(1, carry, p);
    }
  }

  lemma Written(text: seq<Byte>, z: nat, ds: seq<nat>, start: nat)
    requires start <= |ds| && |text| == z + |ds| - start && Digits(ds, 58)
    requires forall i :: 0 <= i < z ==> text[i] == ONE
    requires forall i :: z <= i < |text| ==> text[i] == CharAt(ds, start + i - z)
    ensures Text(text) && DigitsOf(text[z..]) == ds[start..]
    ensures z < |text| && ds[start] != 0 ==> text[z] != ONE
  {
    hide DigitsOf;
    var t := text[z..];
    forall i | 0 <= i < |text| ensures Digit(text[i]) >= 0 {
      assert i >= z ==> text[i] == CharAt(ds, start + i - z);
    }
    forall i | 0 <= i < |t| ensures Digit(t[i]) == ds[start..][i] {
      assert t[i] == text[z + i] == CharAt(ds, start + i);
    }
  }

  // ---------------------------------------------------------------- decoding

  /** The first place from p on where spaces end, or begin. */
  function SkipFrom(s: seq<Byte>, p: nat, spaces: bool): (q: nat)
    requires p <= |s|
    ensures p <= q <= |s|
    ensures (forall i :: p <= i < q ==> IsSpace(s[i]) == spaces) && (q < |s| ==> IsSpace(s[q]) != spaces)
    decreases |s| - p
  {
    if p < |s| && IsSpace(s[p]) == spaces then SkipFrom(s, p + 1, spaces) else p
  }

  function Start(s: seq<Byte>): nat { SkipFrom(s, 0, true) }
  function Stop(s: seq<Byte>): nat { SkipFrom(s, Start(s), false) }

  /** The text between the spaces. */
  function Core(s: seq<Byte>): seq<Byte> { s[Start(s)..Stop(s)] }

  ghost predicate Decodes(s: seq<Byte>, max: int, b: seq<Byte>) {
    && 0 !in s && SkipFrom(s, Stop(s), true) == |s|
    && Represents(Core(s), b) && (Core(s) == [] || |b| <= max)
  }

  method Skip(s: seq<Byte>, p: nat, spaces: bool) returns (q: nat)
    requires p <= |s|
    ensures q == SkipFrom(s, p, spaces)
  {
    q := p;
    while q < |s| && IsSpace(s[q]) == spaces
      invariant p <= q <= |s| && SkipFrom(s, p, spaces) == SkipFrom(s, q, spaces)
    {
      q := q + 1;
    }
  }

  /** Decoding accepts exactly the texts that stand for something short enough, with spaces
      around them, and returns what they stand for. */
  method DecodeBase58(str: seq<Byte>, max: int) returns (r: Option<seq<Byte>>)
    ensures r.Some? ==> Decodes(str, max, r.value)
    ensures r.None? ==> forall b :: !Decodes(str, max, b)
  {
    hide Number, Pow, DigitsOf, Represents, Run, SkipFrom;
    if 0 in str {
      return None;
    }
    var p := Skip(str, 0, true);
    ghost var core := Core(str);
    var zeroes := 0;
    while p < |str| && str[p] == ONE
      invariant p == Start(str) + zeroes <= Stop(str) && forall i :: 0 <= i < zeroes ==> core[i] == ONE
      invariant zeroes > 0 ==> zeroes <= max
    {
      zeroes := zeroes + 1;
      if zeroes > max {
        TooManyOnes(core, zeroes, max);
        return None;
      }
      p := p + 1;
    }
    RunIs(core, ONE, zeroes);
    var bytes;
    bytes, p := DecodeDigits(str, p, zeroes, max);
    if bytes.None? {
      return None;
    }
    var q := Skip(str, p, true);
    if q < |str| {
      return None;
    }
    return bytes;
  }

  lemma TooManyOnes(core: seq<Byte>, zeroes: nat, max: int)
    requires max < zeroes <= |core| && zeroes > 0 && forall i :: 0 <= i < zeroes ==> core[i] == ONE
    ensures forall b :: Represents(core, b) ==> |b| > max && core != []
  {
    forall b | Represents(core, b) ensures |b| > max {
      assert Run(core, ONE) >= zeroes;
    }
  }

  /** The digits of the text after its leading ones, and where they end. */
  method DecodeDigits(str: seq<Byte>, from: nat, zeroes: nat, max: int) returns (r: Option<seq<Byte>>, p: nat)
    requires zeroes == Run(Core(str), ONE) && from == Start(str) + zeroes && (zeroes > 0 ==> zeroes <= max)
    ensures r.Some? ==> Represents(Core(str), r.value) && (Core(str) == [] || |r.value| <= max) && p == Stop(str)
    ensures r.None? ==> forall b :: Represents(Core(str), b) ==> Core(str) != [] && |b| > max
  {
    hide Number, Pow, DigitsOf, Represents, Run, SkipFrom, Text, Holding, Digits;
    ghost var core, room := Core(str), |str| - from;
    var size := (|str| - from) * 733 / 1000 + 1;
    var b256 := new nat[size](_ => 0);
    HoldingStart(core, zeroes, b256[..]);
    var length := 0;
    p := from;
    while p < |str| && !IsSpace(str[p])
      invariant from <= p <= Stop(str) && length <= size && Holding(core, zeroes, p - Start(str), b256[..], length)
      invariant length + zeroes > 0 ==> length + zeroes <= max
      invariant p > from ==> length > 0
    {
      var carry: int := Digit(str[p]);
      ghost var k, before := p - Start(str), b256[..];
      assert core[k] == str[p];
      if carry == -1 {
        NotAText(core, k);
        return None, p;
      }
      HoldingDigits(core, zeroes, k, before, length);
      var left;
      ghost var was := length;
      left, length := MulAdd(b256, 256, 58, carry, length);
      HoldingStep(core, zeroes, k, room, before, was, b256[..], left, length);
      assert left == 0;
      if length + zeroes > max {
        TooLong(core, zeroes, k + 1, b256[..], length, max);
        return None, p;
      }
      p := p + 1;
    }
    assert core[zeroes..] == core[zeroes..p - Start(str)];
    var bytes := Finish(b256, length, zeroes, core);
    return Some(bytes), p;
  }

  method Finish(b256: array<nat>, length: nat, zeroes: nat, ghost core: seq<Byte>) returns (bytes: seq<Byte>)
    requires length <= b256.Length && zeroes == Run(core, ONE) && Holding(core, zeroes, |core|, b256[..], length)
    ensures Represents(core, bytes) && |bytes| == zeroes + length
  {
    hide Number, Pow, DigitsOf, Represents, Run, Text;
    var size := b256.Length;
    bytes := seq(zeroes, _ => 0);
    ghost var rest := b256[..][size - length..];
    var it := size - length;
    while it < size
      invariant size - length <= it <= size && |bytes| == zeroes + it - (size - length)
      invariant forall i :: 0 <= i < |bytes| ==> bytes[i] == if i < zeroes then 0 else b256[size - length + i - zeroes]
    {
      bytes := bytes + [b256[it]];
      it := it + 1;
    }
    assert core[zeroes..] == core[zeroes..|core|];
    WithoutZeroes(b256[..], size - length, 256);
    Read(core, zeroes, bytes, rest);
  }

  /** The buffer holds the number of the digits read so far, in its last `length` places. */
  ghost predicate Holding(core: seq<Byte>, z: nat, k: nat, buf: seq<nat>, length: nat) {
    && z <= k <= |core| && length <= |buf| && Digits(buf, 256) && Text(core[z..k])
    && Number(buf, 256) == Number(DigitsOf(core[z..k]), 58)
    && (forall j :: 0 <= j < |buf| - length ==> buf[j] == 0)
    && (length > 0 ==> buf[|buf| - length] != 0)
  }

  lemma HoldingStart(core: seq<Byte>, z: nat, buf: seq<nat>)
    requires z <= |core| && forall j :: 0 <= j < |buf| ==> buf[j] == 0
    ensures Holding(core, z, z, buf, 0)
  {
    DigitsStart(core, z);
    NumberOfZeroes(buf, 256);
  }

  lemma HoldingDigits(core: seq<Byte>, z: nat, k: nat, buf: seq<nat>, length: nat)
    requires Holding(core, z, k, buf, length)
    ensures length <= |buf| && Digits(buf, 256) && (forall j :: 0 <= j < |buf| - length ==> buf[j] == 0)
    ensures length > 0 ==> buf[|buf| - length] != 0
  {
  }

  lemma HeldDigits(core: seq<Byte>, z: nat, k: nat, buf: seq<nat>, length: nat)
    requires Holding(core, z, k, buf, length)
    ensures z <= k <= |core| && Text(core[z..k]) && Number(buf, 256) == Number(DigitsOf(core[z..k]), 58)
  {
  }

  lemma HoldingNow(core: seq<Byte>, z: nat, k: nat, buf: seq<nat>, length: nat)
    requires z <= k <= |core| && 0 < length <= |buf| && Digits(buf, 256) && Text(core[z..k])
    requires Number(buf, 256) == Number(DigitsOf(core[z..k]), 58)
    requires (forall j :: 0 <= j < |buf| - length ==> buf[j] == 0) && buf[|buf| - length] != 0
    ensures Holding(core, z, k, buf, length)
  {
  }

  /** One more digit: the buffer is large enough, and not empty any more. */
  lemma HoldingStep(core: seq<Byte>, z: nat, k: nat, room: nat, buf: seq<nat>, before: nat,
                    buf': seq<nat>, left: nat, length: nat)
    requires z == Run(core, ONE) <= k < |core| <= z + room && |buf'| == |buf| == room * 733 / 1000 + 1
    requires Holding(core, z, k, buf, before) && Digit(core[k]) >= 0 && length <= |buf'|
    requires Digits(buf', 256) && (forall j :: 0 <= j < |buf'| - length ==> buf'[j] == 0)
    requires Number(buf', 256) + left * Pow(256, |buf'|) == Number(buf, 256) * 58 + Digit(core[k])
    requires left == 0 && length > 0 ==> buf'[|buf'| - length] != 0
    ensures left == 0 && length > 0 && Holding(core, z, k + 1, buf', length)
  {
    hide Number, Pow, DigitsOf, Run, Text, Digits, Holding;
    DecodingFits(room);
    HeldDigits(core, z, k, buf, before);
    DigitsStep(core, z, k, room);
    NoCarry(Number(buf', 256), left, Pow(256, |buf'|), Number(DigitsOf(core[z..k + 1]), 58), Pow(58, room));
    SomeLength(core, z, k + 1, buf', length);
    HoldingNow(core, z, k + 1, buf', length);
  }

  lemma DigitsStart(core: seq<Byte>, z: nat)
    requires z <= |core|
    ensures Text(core[z..z]) && Number(DigitsOf(core[z..z]), 58) == 0
  {
    assert core[z..z] == [];
  }

  lemma NotAText(core: seq<Byte>, k: nat)
    requires k < |core| && Digit(core[k]) < 0
    ensures forall b :: !Represents(core, b)
  {
  }

  lemma DigitsStep(core: seq<Byte>, z: nat, k: nat, room: nat)
    requires z <= k < |core| <= z + room && Text(core[z..k]) && Digit(core[k]) >= 0
    ensures Text(core[z..k + 1])
    ensures Number(DigitsOf(core[z..k + 1]), 58) == Number(DigitsOf(core[z..k]), 58) * 58 + Digit(core[k])
    ensures Number(DigitsOf(core[z..k + 1]), 58) < Pow(58, room)
  {
    hide Number, Pow;
    var t, t' := core[z..k], core[z..k + 1];
    assert t' == t + [core[k]];
    assert t'[..|t|] == t;
    NumberLast(DigitsOf(t), Digit(core[k]), 58);
    NumberBound(DigitsOf(t'), 58);
    PowGrows(58, |t'|, room);
  }

  /** A number that is not zero takes some digits. */
  lemma SomeLength(core: seq<Byte>, z: nat, k: nat, buf: seq<nat>, length: nat)
    requires z == Run(core, ONE) < k <= |core| && Text(core[z..k]) && length <= |buf|
    requires Number(buf, 256) == Number(DigitsOf(core[z..k]), 58)
    requires forall j :: 0 <= j < |buf| - length ==> buf[j] == 0
    ensures length > 0
  {
    hide Number;
    assert core[z..k][0] == core[z];
    LeadOfText(core[z..k]);
    LeadIsPositive(DigitsOf(core[z..k]), 58);
    if length == 0 {
      NumberOfZeroes(buf, 256);
    }
  }

  lemma LeadBound(s: seq<nat>, base: nat)
    requires s != [] && s[0] != 0
    ensures Number(s, base) >= Pow(base, |s| - 1)
  {
    hide Number, Pow;
    assert s == [s[0]] + s[1..];
    NumberFront(s[0], s[1..], base);
    MulMonotone(1, s[0], Pow(base, |s| - 1));
  }

  /** More digits make a larger number. */
  lemma LongerIsLarger(s: seq<nat>, t: seq<nat>, base: nat)
    requires base > 0
    ensures Number(s + t, base) >= Number(s, base)
  {
    hide Number, Pow;
    NumberAppend(s, t, base);
    PowPositive(base, |t|);
    MulMonotone(1, Pow(base, |t|), Number(s, base));
  }

  lemma PowLess(b: nat, m: nat, n: nat)
    requires b > 0 && Pow(b, m) < Pow(b, n)
    ensures m < n
  {
    if m >= n {
      PowGrows(b, n, m);
    }
  }

  /** Once the digits take too many bytes, whatever the text stands for does. */
  lemma TooLong(core: seq<Byte>, z: nat, k: nat, buf: seq<nat>, length: nat, max: int)
    requires z == Run(core, ONE) < k <= |core| && length > 0 && z + length > max && Holding(core, z, k, buf, length)
    ensures forall b :: Represents(core, b) ==> core != [] && |b| > max
  {
    hide Represents, Holding;
    forall b | Represents(core, b) ensures |b| > max {
      AtLeastThatLong(core, z, k, buf, length, b);
    }
  }

  lemma AtLeastThatLong(core: seq<Byte>, z: nat, k: nat, buf: seq<nat>, length: nat, b: seq<Byte>)
    requires z == Run(core, ONE) && length > 0 && Holding(core, z, k, buf, length) && Represents(core, b)
    ensures |b| >= z + length
  {
    hide Number, Pow, DigitsOf, Text, Digits;
    WithoutZeroes(buf, |buf| - length, 256);
    LeadBound(buf[|buf| - length..], 256);
    TextSplit(core, z, k);
    LongerIsLarger(DigitsOf(core[z..k]), DigitsOf(core[k..]), 58);
    BytesAreDigits(b[z..]);
    NumberBound(b[z..], 256);
    PowLess(256, length - 1, |b| - z);
  }

  lemma TextSplit(core: seq<Byte>, z: nat, k: nat)
    requires z <= k <= |core| && Text(core)
    ensures Text(core[z..]) && Text(core[z..k]) && Text(core[k..])
    ensures DigitsOf(core[z..]) == DigitsOf(core[z..k]) + DigitsOf(core[k..])
  {
    hide DigitsOf;
    var a, b, c := core[z..], core[z..k], core[k..];
    assert a == b + c;
    forall i | 0 <= i < |a| ensures DigitsOf(a)[i] == (DigitsOf(b) + DigitsOf(c))[i] {
      assert a[i] == if i < |b| then b[i] else c[i - |b|];
    }
  }

  lemma Read(core: seq<Byte>, z: nat, bytes: seq<Byte>, rest: seq<nat>)
    requires z == Run(core, ONE) && Text(core[z..]) && |bytes| == z + |rest| && Lead(rest)
    requires forall i :: 0 <= i < |bytes| ==> bytes[i] == if i < z then 0 else rest[i - z]
    requires Number(rest, 256) == Number(DigitsOf(core[z..]), 58)
    ensures Represents(core, bytes)
  {
    hide Number, DigitsOf;
    RunIs(bytes, 0, z);
    assert bytes[z..] == rest;
    forall i | 0 <= i < |core| ensures Digit(core[i]) >= 0 {
      assert i >= z ==> core[i] == core[z..][i - z];
    }
  }

  // ---------------------------------------------------------------- the inverses

  /** A text of base 58 digits is its own core. */
  lemma CoreOfText(text: seq<Byte>)
    requires Text(text)
    ensures Core(text) == text && SkipFrom(text, Stop(text), true) == |text| && 0 !in text
  {
    forall i | 0 <= i < |text| ensures !IsSpace(text[i]) && text[i] != 0 {
      CharOfDigit(text[i]);
    }
    assert Start(text) == 0;
    assert Stop(text) == |text|;
  }

  /** Decoding undoes encoding, for bytes of every length, if the caller allows that length. */
  method EncodeThenDecode(bytes: seq<Byte>, max: int) returns (r: Option<seq<Byte>>)
    ensures bytes == [] || |bytes| <= max ==> r == Some(bytes)
    ensures bytes != [] && |bytes| > max ==> r == None
  {
    hide Run, Number, DigitsOf, SkipFrom;
    var text := EncodeBase58(bytes);
    r := DecodeBase58(text, max);
    CoreOfText(text);
    EmptyText(text, bytes);
    if r.Some? {
      OneMeaning(text, bytes, r.value);
    } else {
      assert !Decodes(text, max, bytes);
    }
  }

  lemma EmptyText(text: seq<Byte>, bytes: seq<Byte>)
    requires Represents(text, bytes)
    ensures text == [] <==> bytes == []
  {
    hide Number;
    var z := Run(bytes, 0);
    LeadOfText(text[z..]);
    LeadIsPositive(DigitsOf(text[z..]), 58);
    LeadIsPositive(bytes[z..], 256);
  }

  /** Encoding undoes decoding: it gives back the text without the spaces around it. */
  method DecodeThenEncode(str: seq<Byte>, max: int) returns (ok: bool, text: seq<Byte>)
    ensures ok ==> text == Core(str)
    ensures Text(str) && |str| <= max ==> ok && text == str
  {
    hide Run, Number, DigitsOf, SkipFrom, Represents;
    var r := DecodeBase58(str, max);
    EveryTextDecodes(str, max);
    if r.None? {
      return false, [];
    }
    text := EncodeBase58(r.value);
    OneText(text, Core(str), r.value);
    if Text(str) {
      CoreOfText(str);
    }
    return true, text;
  }

  function Base256(n: nat): (s: seq<Byte>)
    ensures Lead(s) && Number(s, 256) == n
  {
    if n == 0 then []
    else
      NumberLast(Base256(n / 256), n % 256, 256);
      Base256(n / 256) + [n % 256]
  }

  /** Every text stands for some bytes, no more of them than it has characters. */
  lemma Meaning(text: seq<Byte>) returns (b: seq<Byte>)
    requires Text(text)
    ensures Represents(text, b) && |b| <= |text|
  {
    hide Number, Pow, DigitsOf;
    var z := Run(text, ONE);
    var t := text[z..];
    var rest := Base256(Number(DigitsOf(t), 58));
    b := seq(z, _ => 0) + rest;
    Read(text, z, b, rest);
    if rest != [] {
      LeadBound(rest, 256);
      NumberBound(DigitsOf(t), 58);
      PowMonotone(58, 256, |t|);
      PowLess(256, |rest| - 1, |t|);
    }
  }

  lemma EveryTextDecodes(text: seq<Byte>, max: int)
    ensures Text(text) && |text| <= max ==> exists b :: Decodes(text, max, b)
  {
    hide Represents;
    if Text(text) && |text| <= max {
      var b := Meaning(text);
      CoreOfText(text);
      assert Decodes(text, max, b);
    }
  }
}
