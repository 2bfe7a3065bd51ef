/**
 The text form of Bech32: a human-readable part, a separator, and the data with its checksum.
 Decoding accepts exactly the texts that encoding produces, in one letter case.
 */
module Bech32Text {
  import opened Common
  import opened Bech32
  import opened Bech32Errors

  const SEPARATOR: bv8 := 49

  datatype Decoded = Decoded(encoding: Encoding, hrp: seq<bv8>, data: seq<bv8>)

  // ---------------------------------------------------------------- characters

  predicate IsLowerLetter(c: bv8) { 97 <= c <= 122 }
  predicate IsUpperLetter(c: bv8) { 65 <= c <= 90 }

  function Lower(c: bv8): bv8 {
    if IsUpperLetter(c) then c + 32 else c
  }

  function CharOf(v: bv8): bv8 {
    if v == 0 then 113 else if v == 1 then 112 else if v == 2 then 122 else if v == 3 then 114
    else if v == 4 then 121 else if v == 5 then 57 else if v == 6 then 120 else if v == 7 then 56
    else if v == 8 then 103 else if v == 9 then 102 else if v == 10 then 50 else if v == 11 then 116
    else if v == 12 then 118 else if v == 13 then 100 else if v == 14 then 119 else if v == 15 then 48
    else if v == 16 then 115 else if v == 17 then 51 else if v == 18 then 106 else if v == 19 then 110
    else if v == 20 then 53 else if v == 21 then 52 else if v == 22 then 107 else if v == 23 then 104
    else if v == 24 then 99 else if v == 25 then 101 else if v == 26 then 54 else if v == 27 then 109
    else if v == 28 then 117 else if v == 29 then 97 else if v == 30 then 55 else 108
  }

  const NO_SYMBOL: bv8 := 255

  /** The symbol of a character of either case; the entry of the others is -1 in the table. */
  function Rev(c: bv8): bv8 {
    var l := Lower(c);
    if l == 48 then 15 else if l == 50 then 10 else if l == 51 then 17 else if l == 52 then 21
    else if l == 53 then 20 else if l == 54 then 26 else if l == 55 then 30 else if l == 56 then 7
    else if l == 57 then 5 else if l == 97 then 29 else if l == 99 then 24 else if l == 100 then 13
    else if l == 101 then 25 else if l == 102 then 9 else if l == 103 then 8 else if l == 104 then 23
    else if l == 106 then 18 else if l == 107 then 22 else if l == 108 then 31 else if l == 109 then 27
    else if l == 110 then 19 else if l == 112 then 1 else if l == 113 then 0 else if l == 114 then 3
    else if l == 115 then 16 else if l == 116 then 11 else if l == 117 then 28 else if l == 118 then 12
    else if l == 119 then 14 else if l == 120 then 6 else if l == 121 then 4 else if l == 122 then 2
    else NO_SYMBOL
  }

  /** The two tables are inverse, and the separator is in neither. */
  lemma CharsetIsInverse(v: bv8)
    requires v < 32
    ensures Rev(CharOf(v)) == v && Lower(CharOf(v)) == CharOf(v) && CharOf(v) != SEPARATOR
    ensures 33 <= CharOf(v) <= 126 && !IsUpperLetter(CharOf(v))
  {
  }

  lemma CharsetCovers(c: bv8)
    requires Rev(c) != NO_SYMBOL
    ensures Rev(c) < 32 && CharOf(Rev(c)) == Lower(c)
  {
  }

  lemma LowerFacts(c: bv8)
    ensures Lower(c) == SEPARATOR <==> c == SEPARATOR
    ensures !IsUpperLetter(Lower(c)) && Rev(Lower(c)) == Rev(c) && (33 <= Lower(c) <= 126 <==> 33 <= c <= 126)
    ensures !IsUpperLetter(c) ==> Lower(c) == c
  {
  }

  // ---------------------------------------------------------------- strings

  function Lowered(s: seq<bv8>): (r: seq<bv8>)
    ensures |r| == |s| && forall i :: 0 <= i < |s| ==> r[i] == Lower(s[i])
  {
    seq(|s|, i requires 0 <= i < |s| => Lower(s[i]))
  }

  function Chars(v: seq<bv8>): (r: seq<bv8>)
    ensures |r| == |v| && forall i :: 0 <= i < |v| ==> r[i] == CharOf(v[i])
  {
    seq(|v|, i requires 0 <= i < |v| => CharOf(v[i]))
  }

  predicate HasLower(s: seq<bv8>) { exists i :: 0 <= i < |s| && IsLowerLetter(s[i]) }
  predicate HasUpper(s: seq<bv8>) { exists i :: 0 <= i < |s| && IsUpperLetter(s[i]) }
  predicate Printable(s: seq<bv8>) { forall i :: 0 <= i < |s| ==> 33 <= s[i] <= 126 }

  predicate Wellformed(s: seq<bv8>) {
    Printable(s) && !(HasLower(s) && HasUpper(s))
  }

  datatype Case = NoCase | LowerCase | UpperCase

  function CaseOf(c: bv8): Case {
    if IsLowerLetter(c) then LowerCase else if IsUpperLetter(c) then UpperCase else NoCase
  }

  /** The case of the first letter of a string. */
  function FirstCase(s: seq<bv8>): Case {
    if s == [] then NoCase
    else
      var before := FirstCase(s[..|s| - 1]);
      if before != NoCase then before else CaseOf(s[|s| - 1])
  }

  /** A character that is not printable, or a letter of the other case than the first letter. */
  predicate Offends(s: seq<bv8>, i: int)
    requires 0 <= i < |s|
  {
    var c, first := CaseOf(s[i]), FirstCase(s[..i]);
    if c == NoCase then s[i] < 33 || s[i] > 126 else first != NoCase && first != c
  }

  lemma NoLetter(s: seq<bv8>)
    ensures FirstCase(s[..0]) == NoCase
  {
  }

  lemma FirstCaseNext(s: seq<bv8>, i: nat)
    requires i < |s|
    ensures FirstCase(s[..i + 1]) == if FirstCase(s[..i]) != NoCase then FirstCase(s[..i]) else CaseOf(s[i])
  {
    assert s[..i + 1][..i] == s[..i];
  }

  /** The offending positions, in order; there are none exactly when the string is well-formed. */
  method CheckCharacters(str: seq<bv8>) returns (errors: seq<nat>)
    ensures forall k :: k in errors <==> 0 <= k < |str| && Offends(str, k)
    ensures forall j, k :: 0 <= j < k < |errors| ==> errors[j] < errors[k]
    ensures errors == [] <==> Wellformed(str)
  {
    hide Wellformed, HasLower, HasUpper, Printable, FirstCase;
    errors := [];
    var lower, upper := false, false;
    SoFarStart();
    NoLetter(str);
    for i := 0 to |str|
      invariant lower == (FirstCase(str[..i]) == LowerCase) && upper == (FirstCase(str[..i]) == UpperCase)
      invariant forall k :: k in errors <==> 0 <= k < i && Offends(str, k)
      invariant forall j, k :: 0 <= j < k < |errors| ==> errors[j] < errors[k]
      invariant errors == [] <==> Wellformed(str[..i])
      invariant errors == [] ==> lower == HasLower(str[..i]) && upper == HasUpper(str[..i])
    {
      var c := str[i];
      OneMore(str, i);
      FirstCaseNext(str, i);
      assert forall j :: 0 <= j < |errors| ==> errors[j] in errors && errors[j] < i;
      if IsLowerLetter(c) {
        if upper {
          errors := errors + [i];
        } else {
          lower := true;
        }
      } else if IsUpperLetter(c) {
        if lower {
          errors := errors + [i];
        } else {
          upper := true;
        }
      } else if c < 33 || c > 126 {
        errors := errors + [i];
      }
    }
    assert str[..|str|] == str;
  }

  lemma SoFarStart()
    ensures Wellformed([]) && !HasLower([]) && !HasUpper([])
  {
  }

  lemma OneMore(s: seq<bv8>, i: nat)
    requires i < |s|
    ensures HasLower(s[..i + 1]) <==> HasLower(s[..i]) || IsLowerLetter(s[i])
    ensures HasUpper(s[..i + 1]) <==> HasUpper(s[..i]) || IsUpperLetter(s[i])
    ensures Wellformed(s[..i + 1]) <==>
              Wellformed(s[..i]) && 33 <= s[i] <= 126 && !(IsLowerLetter(s[i]) && HasUpper(s[..i])) &&
              !(IsUpperLetter(s[i]) && HasLower(s[..i]))
    ensures IsLowerLetter(s[i]) || IsUpperLetter(s[i]) ==>
              33 <= s[i] <= 126 && IsLowerLetter(s[i]) != IsUpperLetter(s[i])
  {
    var t, t' := s[..i], s[..i + 1];
    assert t' == t + [s[i]];
    if HasLower(t) {
      var k :| 0 <= k < |t| && IsLowerLetter(t[k]);
      assert IsLowerLetter(t'[k]);
    }
    if HasUpper(t) {
      var k :| 0 <= k < |t| && IsUpperLetter(t[k]);
      assert IsUpperLetter(t'[k]);
    }
    assert t'[i] == s[i];
    assert forall k :: 0 <= k < i ==> t'[k] == t[k];
  }

  // ---------------------------------------------------------------- the checksum of a string

  /** The high bits of every character, a zero, and the low bits. */
  function ExpandHRP(hrp: seq<bv8>): (r: seq<bv8>)
    ensures |r| == 2 * |hrp| + 1 && r[|hrp|] == 0
    ensures forall i :: 0 <= i < |hrp| ==> r[i] == hrp[i] / 32 && r[i + |hrp| + 1] == hrp[i] & 0x1f
  {
    seq(|hrp|, i requires 0 <= i < |hrp| => hrp[i] / 32) + [0] + seq(|hrp|, i requires 0 <= i < |hrp| => hrp[i] & 0x1f)
  }

  lemma ExpandedIsFive(hrp: seq<bv8>)
    ensures Five(ExpandHRP(hrp))
  {
    forall i | 0 <= i < |ExpandHRP(hrp)| ensures ExpandHRP(hrp)[i] < 32 {
      if i < |hrp| {
        HighBits(hrp[i]);
      } else if i > |hrp| {
        HighBits(hrp[i - |hrp| - 1]);
      }
    }
  }

  /** Printable parts can be told from the data after them: nothing else is checked as the same symbols. */
  lemma ExpandedUniquely(hrp: seq<bv8>, v: seq<bv8>, hrp': seq<bv8>, v': seq<bv8>)
    requires Printable(hrp) && Printable(hrp') && ExpandHRP(hrp) + v == ExpandHRP(hrp') + v'
    ensures hrp == hrp' && v == v'
  {
    var all, n := ExpandHRP(hrp) + v, |hrp|;
    FirstZero(hrp, v);
    FirstZero(hrp', v');
    assert |hrp| == |hrp'|;
    forall i | 0 <= i < n ensures hrp[i] == hrp'[i] {
      assert all[i] == hrp[i] / 32 && all[i + n + 1] == hrp[i] & 0x1f;
      assert all[i] == hrp'[i] / 32 && all[i + n + 1] == hrp'[i] & 0x1f;
      FromBothHalves(hrp[i], hrp'[i]);
    }
    assert v == all[2 * n + 1..] && v' == all[2 * n + 1..];
  }

  lemma FirstZero(hrp: seq<bv8>, v: seq<bv8>)
    requires Printable(hrp)
    ensures var all := ExpandHRP(hrp) + v;
            all[|hrp|] == 0 && forall i :: 0 <= i < |hrp| ==> all[i] != 0
  {
    forall i | 0 <= i < |hrp| ensures (ExpandHRP(hrp) + v)[i] != 0 {
      assert (ExpandHRP(hrp) + v)[i] == hrp[i] / 32;
      PrintableHigh(hrp[i]);
    }
  }

  lemma PrintableHigh(c: bv8)
    requires 33 <= c <= 126
    ensures c / 32 != 0
  {
  }

  lemma FromBothHalves(c: bv8, d: bv8)
    requires c / 32 == d / 32 && c & 0x1f == d & 0x1f
    ensures c == d
  {
  }

  lemma HighBits(c: bv8)
    ensures c / 32 < 32 && c & 0x1f < 32
  {
  }

  function Checksum(e: Encoding, hrp: seq<bv8>, values: seq<bv8>): (c: seq<bv8>)
    ensures |c| == 6
  {
    Unpack(Xor(PolyMod(ExpandHRP(hrp) + values + Zeroes(6)), Constant(e)))
  }

  lemma ConstantsDiffer()
    ensures Constant(BECH32) != Constant(BECH32M) && Constant(BECH32) < 0x40000000 && Constant(BECH32M) < 0x40000000
  {
  }

  lemma XorBelow(a: bv32, b: bv32)
    requires a < 0x40000000 && b < 0x40000000
    ensures Xor(a, b) < 0x40000000
  {
  }

  lemma XorTwice(a: bv32, b: bv32)
    ensures Xor(a, Xor(a, b)) == b
  {
  }

  lemma XorSolve(a: bv32, b: bv32, c: bv32)
    ensures Xor(a, b) == c <==> b == Xor(a, c)
  {
    hide Xor;
    XorTwice(a, b);
    XorTwice(a, c);
  }

  /** Six symbols make the checksum right exactly when they are the ones computed. */
  lemma ChecksumIsTheOnlyOne(e: Encoding, hrp: seq<bv8>, values: seq<bv8>, c: seq<bv8>)
    requires |c| == 6 && Five(c)
    ensures PolyMod(ExpandHRP(hrp) + values + c) == Constant(e) <==> c == Checksum(e, hrp, values)
    ensures Five(Checksum(e, hrp, values))
  {
    hide PolyModFrom, Xor, Unpack, Packed, Constant, Five;
    var v := ExpandHRP(hrp) + values;
    LastSix(v, c);
    var zero := PolyMod(v + Zeroes(6));
    PolyInRange(1, v + Zeroes(6));
    ConstantsDiffer();
    XorBelow(zero, Constant(e));
    var m := Xor(zero, Constant(e));
    UnpackPacks(m);
    PackedOnce(c);
    XorSolve(zero, Packed(c), Constant(e));
  }

  function Encoded(e: Encoding, hrp: seq<bv8>, values: seq<bv8>): seq<bv8> {
    hrp + [SEPARATOR] + Chars(values + Checksum(e, hrp, values))
  }

  // ---------------------------------------------------------------- encoding and decoding

  /** The loop over the symbols, with a test for each bit of the leading coefficient. */
  method RunPolyMod(v: seq<bv8>) returns (c: bv32)
    ensures c == PolyMod(v)
  {
    c := 1;
    for i := 0 to |v|
      invariant c == PolyModFrom(1, v[..i])
    {
      hide Step;
      assert v[..i + 1][..i] == v[..i];
      c := RunStep(c, v[i]);
    }
    assert v[..|v|] == v;
  }

  /** The body of that loop. */
  method RunStep(before: bv32, v: bv8) returns (c: bv32)
    ensures c == Step(before, v)
  {
    hide Xor, Step;
    var c0 := before >> 25;
    StepInTests(before, v);
    c := Shift(before, v);
    hide Shift;
    c := AddIf(c, c0 & 1 != 0, 0x3b6a57b2);
    c := AddIf(c, c0 & 2 != 0, 0x26508e6d);
    c := AddIf(c, c0 & 4 != 0, 0x1ea119fa);
    c := AddIf(c, c0 & 8 != 0, 0x3d4233dd);
    c := AddIf(c, c0 & 16 != 0, 0x2a1462b3);
  }

  /** A constant is added if a bit is set. */
  method AddIf(before: bv32, on: bool, k: bv32) returns (c: bv32)
    ensures c == Xor(before, On(on, k))
  {
    c := before;
    if on {
      c := c ^ k;
    }
    XorWithZero(before);
  }

  function On(on: bool, k: bv32): bv32 { if on then k else 0 }

  lemma StepInTests(c: bv32, v: bv8)
    ensures var c0 := c >> 25;
            Step(c, v) == Xor(Xor(Xor(Xor(Xor(Shift(c, v), On(c0 & 1 != 0, 0x3b6a57b2)), On(c0 & 2 != 0, 0x26508e6d)),
              On(c0 & 4 != 0, 0x1ea119fa)), On(c0 & 8 != 0, 0x3d4233dd)), On(c0 & 16 != 0, 0x2a1462b3))
  {
    var c0 := c >> 25;
    var t1, t2, t4, t8, t16 := On(c0 & 1 != 0, 0x3b6a57b2), On(c0 & 2 != 0, 0x26508e6d), On(c0 & 4 != 0, 0x1ea119fa),
                               On(c0 & 8 != 0, 0x3d4233dd), On(c0 & 16 != 0, 0x2a1462b3);
    ReduceInTests(c);
    hide Xor, Shift, Reduce, On;
    var s := Shift(c, v);
    XorAssociates(s, t1, t2);
    XorAssociates(s, Xor(t1, t2), t4);
    XorAssociates(s, Xor(Xor(t1, t2), t4), t8);
    XorAssociates(s, Xor(Xor(Xor(t1, t2), t4), t8), t16);
  }

  lemma ReduceInTests(c: bv32)
    ensures var c0 := c >> 25;
            Reduce(c) == Xor(Xor(Xor(Xor(On(c0 & 1 != 0, 0x3b6a57b2), On(c0 & 2 != 0, 0x26508e6d)),
              On(c0 & 4 != 0, 0x1ea119fa)), On(c0 & 8 != 0, 0x3d4233dd)), On(c0 & 16 != 0, 0x2a1462b3))
  {
  }

  /** Six symbols that make the checksum right, whatever they are appended to. */
  method CreateChecksum(e: Encoding, hrp: seq<bv8>, values: seq<bv8>) returns (ret: seq<bv8>)
    ensures |ret| == 6 && Five(ret) && PolyMod(ExpandHRP(hrp) + values + ret) == Constant(e)
  {
    hide PolyModFrom, Xor, Constant, Unpack;
    var enc := ExpandHRP(hrp) + values + Zeroes(6);
    var p := RunPolyMod(enc);
    ret := Unpack(Xor(p, Constant(e)));
    ChecksumIsTheOnlyOne(e, hrp, values, Zeroes(6));
    ChecksumIsTheOnlyOne(e, hrp, values, ret);
  }

  /** The human-readable part must not contain upper case letters, and data are five-bit symbols. */
  method Encode(e: Encoding, hrp: seq<bv8>, values: seq<bv8>) returns (ret: seq<bv8>)
    requires !HasUpper(hrp) && Five(values)
    ensures ret == Encoded(e, hrp, values)
  {
    hide Checksum;
    var checksum := CreateChecksum(e, hrp, values);
    ChecksumIsTheOnlyOne(e, hrp, values, checksum);
    var combined := values + checksum;
    ret := hrp + [SEPARATOR];
    for i := 0 to |combined|
      invariant ret == hrp + [SEPARATOR] + Chars(combined[..i])
    {
      assert Chars(combined[..i + 1]) == Chars(combined[..i]) + [CharOf(combined[i])];
      ret := ret + [CharOf(combined[i])];
    }
    assert combined[..|combined|] == combined;
  }

  /** A string is an encoding of these data, in one letter case. */
  ghost predicate Accepts(str: seq<bv8>, r: Decoded) {
    && Wellformed(str) && |str| <= 90 && r.hrp != [] && Five(r.data)
    && Lowered(str) == Encoded(r.encoding, r.hrp, r.data)
  }

  method LastSeparator(str: seq<bv8>) returns (pos: int)
    ensures -1 <= pos < |str| && (pos >= 0 ==> str[pos] == SEPARATOR)
    ensures forall i :: pos < i < |str| ==> str[i] != SEPARATOR
  {
    pos := |str| - 1;
    while pos >= 0 && str[pos] != SEPARATOR
      invariant -1 <= pos < |str| && forall i :: pos < i < |str| ==> str[i] != SEPARATOR
    {
      pos := pos - 1;
    }
  }

  /** The data follow the last separator. */
  lemma SeparatorPlace(str: seq<bv8>, r: Decoded, pos: int)
    requires Accepts(str, r) && -1 <= pos < |str| && (pos >= 0 ==> str[pos] == SEPARATOR)
    requires forall i :: pos < i < |str| ==> str[i] != SEPARATOR
    ensures pos == |r.hrp| && pos >= 1 && pos + 7 + |r.data| == |str|
    ensures r.hrp == Lowered(str[..pos])
    ensures forall i :: pos < i < |str| ==>
              Lower(str[i]) == CharOf((r.data + Checksum(r.encoding, r.hrp, r.data))[i - pos - 1])
  {
    hide Checksum, CharOf, Lower, Wellformed;
    var n, all := |r.hrp|, r.data + Checksum(r.encoding, r.hrp, r.data);
    var low := Lowered(str);
    assert low[n] == SEPARATOR;
    LowerFacts(str[n]);
    FiveChecksum(r);
    forall i | n < i < |str| ensures str[i] != SEPARATOR && Lower(str[i]) == CharOf(all[i - n - 1]) {
      assert low[i] == Chars(all)[i - n - 1];
      CharsetIsInverse(all[i - n - 1]);
      LowerFacts(str[i]);
    }
    assert pos == n;
    assert low[..n] == r.hrp;
    assert Lowered(str[..n]) == low[..n];
  }

  lemma FiveChecksum(r: Decoded)
    requires Five(r.data)
    ensures Five(r.data + Checksum(r.encoding, r.hrp, r.data))
  {
    var c := Zeroes(6);
    assert Five(c);
    ChecksumIsTheOnlyOne(r.encoding, r.hrp, r.data, c);
    hide Checksum;
    var d, all := Checksum(r.encoding, r.hrp, r.data), r.data + Checksum(r.encoding, r.hrp, r.data);
    forall i | 0 <= i < |all| ensures all[i] < 32 {
      assert i >= |r.data| ==> all[i] == d[i - |r.data|];
    }
  }

  method VerifyChecksum(hrp: seq<bv8>, values: seq<bv8>) returns (r: Option<Encoding>)
    ensures forall e :: r == Some(e) <==> PolyMod(ExpandHRP(hrp) + values) == Constant(e)
  {
    hide PolyModFrom;
    var check := RunPolyMod(ExpandHRP(hrp) + values);
    ConstantsDiffer();
    if check == Constant(BECH32) {
      return Some(BECH32);
    }
    if check == Constant(BECH32M) {
      return Some(BECH32M);
    }
    return None;
  }

  /** The symbols after the separator, if all characters have one. */
  method ReadSymbols(str: seq<bv8>, pos: nat) returns (r: Option<seq<bv8>>)
    requires pos < |str|
    ensures r.Some? ==> |r.value| == |str| - 1 - pos && Five(r.value) && Chars(r.value) == Lowered(str[pos + 1..])
    ensures r.None? ==> exists i :: pos < i < |str| && Rev(str[i]) == NO_SYMBOL
  {
    hide Rev, CharOf, Lower;
    var values := [];
    for i := pos + 1 to |str|
      invariant |values| == i - pos - 1
      invariant forall k :: 0 <= k < |values| ==> values[k] < 32 && CharOf(values[k]) == Lower(str[pos + 1 + k])
    {
      var rev := Rev(str[i]);
      if rev == NO_SYMBOL {
        return None;
      }
      CharsetCovers(str[i]);
      values := values + [rev];
    }
    return Some(values);
  }

  lemma SymbolsOf(str: seq<bv8>, r: Decoded, pos: nat)
    requires Accepts(str, r) && pos < |str| && str[pos] == SEPARATOR
    requires forall i :: pos < i < |str| ==> str[i] != SEPARATOR
    ensures forall i :: pos < i < |str| ==> Rev(str[i]) != NO_SYMBOL
    ensures Lowered(str[pos + 1..]) == Chars(r.data + Checksum(r.encoding, r.hrp, r.data))
  {
    SeparatorPlace(str, r, pos);
    FiveChecksum(r);
    hide Checksum, CharOf, Lower, Rev, Accepts;
    var all := r.data + Checksum(r.encoding, r.hrp, r.data);
    forall i | pos < i < |str| ensures Rev(str[i]) != NO_SYMBOL {
      CharsetIsInverse(all[i - pos - 1]);
      LowerFacts(str[i]);
    }
    var tail := str[pos + 1..];
    forall i | 0 <= i < |tail| ensures Lowered(tail)[i] == Chars(all)[i] {
      assert tail[i] == str[pos + 1 + i];
    }
  }

  lemma SameChars(u: seq<bv8>, w: seq<bv8>)
    requires Five(u) && Five(w) && Chars(u) == Chars(w)
    ensures u == w
  {
    hide CharOf;
    forall i | 0 <= i < |u| ensures u[i] == w[i] {
      assert Chars(u)[i] == Chars(w)[i];
      CharsetIsInverse(u[i]);
      CharsetIsInverse(w[i]);
    }
  }

  /** What is read after the separator is accepted exactly when its checksum is right. */
  lemma AcceptedByChecksum(str: seq<bv8>, pos: nat, values: seq<bv8>, e: Encoding)
    requires Wellformed(str) && |str| <= 90 && 1 <= pos && pos + 7 <= |str| && str[pos] == SEPARATOR
    requires |values| == |str| - 1 - pos && Five(values) && Chars(values) == Lowered(str[pos + 1..])
    ensures var n := |values| - 6;
            PolyMod(ExpandHRP(Lowered(str[..pos])) + values) == Constant(e) <==>
            Accepts(str, Decoded(e, Lowered(str[..pos]), values[..n]))
  {
    hide PolyModFrom, Wellformed, Lower, CharOf, Constant;
    var n, hrp := |values| - 6, Lowered(str[..pos]);
    var data, c := values[..n], values[n..];
    assert values == data + c && Five(data) && Five(c);
    ChecksumIsTheOnlyOne(e, hrp, data, c);
    hide Checksum;
    assert ExpandHRP(hrp) + values == ExpandHRP(hrp) + data + c;
    LowerFacts(SEPARATOR);
    var sum := Checksum(e, hrp, data);
    LoweredParts(str, pos);
    if c == sum {
      assert Encoded(e, hrp, data) == hrp + [SEPARATOR] + Chars(values);
    }
    if Lowered(str) == Encoded(e, hrp, data) {
      assert Chars(data + sum) == Encoded(e, hrp, data)[pos + 1..];
      assert Five(data + sum);
      SameChars(data + sum, values);
      assert (data + sum)[n..] == sum;
    }
  }

  lemma LoweredParts(str: seq<bv8>, pos: nat)
    requires pos < |str| && str[pos] == SEPARATOR
    ensures Lowered(str) == Lowered(str[..pos]) + [SEPARATOR] + Lowered(str[pos + 1..])
    ensures Lowered(str)[pos + 1..] == Lowered(str[pos + 1..])
  {
    LowerFacts(SEPARATOR);
    hide Lower;
  }

  /** Decoding accepts exactly the encodings, and returns what they encode. */
  method Decode(str: seq<bv8>) returns (r: Option<Decoded>)
    ensures r.Some? ==> Accepts(str, r.value)
    ensures r.None? ==> forall x :: !Accepts(str, x)
  {
    hide Accepts, Wellformed, Rev, Lower, CharOf, PolyModFrom, Constant;
    var errors := CheckCharacters(str);
    MustBeWellformed(str);
    if errors != [] {
      return None;
    }
    var pos := LastSeparator(str);
    PlaceOfAll(str, pos);
    if |str| > 90 || pos == -1 || pos == 0 || pos + 7 > |str| {
      return None;
    }
    var values := ReadSymbols(str, pos);
    SymbolsOfAll(str, pos);
    if values.None? {
      return None;
    }
    var hrp := Lowered(str[..pos]);
    var result := VerifyChecksum(hrp, values.value);
    AllByChecksum(str, pos, values.value);
    if result.None? {
      return None;
    }
    AcceptedByChecksum(str, pos, values.value, result.value);
    return Some(Decoded(result.value, hrp, values.value[..|values.value| - 6]));
  }

  lemma MustBeWellformed(str: seq<bv8>)
    ensures forall x :: Accepts(str, x) ==> Wellformed(str)
  {
  }

  lemma PlaceOfAll(str: seq<bv8>, pos: int)
    requires -1 <= pos < |str| && (pos >= 0 ==> str[pos] == SEPARATOR)
    requires forall i :: pos < i < |str| ==> str[i] != SEPARATOR
    ensures forall x :: Accepts(str, x) ==> |str| <= 90 && pos >= 1 && pos + 7 <= |str|
  {
    forall x | Accepts(str, x) ensures |str| <= 90 && pos >= 1 && pos + 7 <= |str| {
      SeparatorPlace(str, x, pos);
    }
  }

  lemma SymbolsOfAll(str: seq<bv8>, pos: nat)
    requires pos < |str| && str[pos] == SEPARATOR && forall i :: pos < i < |str| ==> str[i] != SEPARATOR
    ensures forall x :: Accepts(str, x) ==> forall i :: pos < i < |str| ==> Rev(str[i]) != NO_SYMBOL
  {
    hide Accepts, Rev;
    forall x | Accepts(str, x) ensures forall i :: pos < i < |str| ==> Rev(str[i]) != NO_SYMBOL {
      SymbolsOf(str, x, pos);
    }
  }

  lemma AllByChecksum(str: seq<bv8>, pos: nat, values: seq<bv8>)
    requires pos < |str| && str[pos] == SEPARATOR && forall i :: pos < i < |str| ==> str[i] != SEPARATOR
    requires Five(values) && Chars(values) == Lowered(str[pos + 1..])
    ensures forall x :: Accepts(str, x) ==>
              x.hrp == Lowered(str[..pos]) && PolyMod(ExpandHRP(x.hrp) + values) == Constant(x.encoding)
  {
    hide Accepts, Lower, CharOf, PolyModFrom, Constant;
    forall x | Accepts(str, x)
      ensures x.hrp == Lowered(str[..pos]) && PolyMod(ExpandHRP(x.hrp) + values) == Constant(x.encoding)
    {
      ReadAs(str, pos, values, x);
      RightChecksum(x);
      assert ExpandHRP(x.hrp) + values == ExpandHRP(x.hrp) + x.data + Checksum(x.encoding, x.hrp, x.data);
    }
  }

  lemma ReadAs(str: seq<bv8>, pos: nat, values: seq<bv8>, x: Decoded)
    requires Accepts(str, x) && pos < |str| && str[pos] == SEPARATOR
    requires forall i :: pos < i < |str| ==> str[i] != SEPARATOR
    requires Five(values) && Chars(values) == Lowered(str[pos + 1..])
    ensures x.hrp == Lowered(str[..pos]) && values == x.data + Checksum(x.encoding, x.hrp, x.data) && Five(x.data)
  {
    hide Lower, CharOf, Wellformed, Checksum;
    SeparatorPlace(str, x, pos);
    SymbolsOf(str, x, pos);
    FiveChecksum(x);
    SameChars(values, x.data + Checksum(x.encoding, x.hrp, x.data));
  }

  lemma RightChecksum(x: Decoded)
    requires Five(x.data)
    ensures PolyMod(ExpandHRP(x.hrp) + x.data + Checksum(x.encoding, x.hrp, x.data)) == Constant(x.encoding)
  {
    hide PolyModFrom, Constant, Checksum;
    var c := Checksum(x.encoding, x.hrp, x.data);
    FiveChecksum(x);
    FiveSlice(x.data + c, |x.data|, |x.data| + 6);
    assert (x.data + c)[|x.data|..|x.data| + 6] == c;
    ChecksumIsTheOnlyOne(x.encoding, x.hrp, x.data, c);
  }

  // ---------------------------------------------------------------- the inverses

  /** A string encodes at most one thing. */
  lemma AcceptsOnce(str: seq<bv8>, x: Decoded, y: Decoded, pos: nat, values: seq<bv8>)
    requires Accepts(str, x) && Accepts(str, y)
    requires pos < |str| && str[pos] == SEPARATOR && forall i :: pos < i < |str| ==> str[i] != SEPARATOR
    requires Five(values) && Chars(values) == Lowered(str[pos + 1..])
    ensures x == y
  {
    hide Accepts, Checksum, PolyModFrom, Lower, CharOf;
    ReadAs(str, pos, values, x);
    ReadAs(str, pos, values, y);
    RightChecksum(x);
    RightChecksum(y);
    var n := |values| - 6;
    assert x.data == values[..n] && y.data == values[..n];
    assert ExpandHRP(x.hrp) + x.data + Checksum(x.encoding, x.hrp, x.data) == ExpandHRP(x.hrp) + values;
    assert ExpandHRP(y.hrp) + y.data + Checksum(y.encoding, y.hrp, y.data) == ExpandHRP(y.hrp) + values;
    ConstantsDiffer();
  }

  /** What the encoder writes is accepted exactly when the human-readable part is there and
      printable and the whole fits ninety characters. */
  lemma EncodedIsAccepted(x: Decoded)
    requires !HasUpper(x.hrp) && Five(x.data)
    ensures Accepts(Encoded(x.encoding, x.hrp, x.data), x) <==>
              x.hrp != [] && Printable(x.hrp) && |x.hrp| + 7 + |x.data| <= 90
  {
    hide Checksum, CharOf, Lower;
    var all, str := x.data + Checksum(x.encoding, x.hrp, x.data), Encoded(x.encoding, x.hrp, x.data);
    FiveChecksum(x);
    forall i | 0 <= i < |str|
      ensures Lower(str[i]) == str[i] && !IsUpperLetter(str[i]) && (i >= |x.hrp| ==> 33 <= str[i] <= 126)
    {
      if i < |x.hrp| {
        assert str[i] == x.hrp[i];
        assert !IsUpperLetter(x.hrp[i]);
        LowerFacts(str[i]);
      } else if i == |x.hrp| {
        assert str[i] == SEPARATOR;
        LowerFacts(SEPARATOR);
      } else {
        assert str[i] == CharOf(all[i - |x.hrp| - 1]);
        CharsetIsInverse(all[i - |x.hrp| - 1]);
      }
    }
    assert Lowered(str) == str && !HasUpper(str);
    assert Printable(str) <==> Printable(x.hrp) by {
      assert forall i :: 0 <= i < |x.hrp| ==> str[i] == x.hrp[i];
    }
  }

  /** Decoding undoes encoding for every input that fits. */
  method EncodeThenDecode(x: Decoded) returns (r: Option<Decoded>)
    requires !HasUpper(x.hrp) && Five(x.data)
    ensures r == Some(x) <==> x.hrp != [] && Printable(x.hrp) && |x.hrp| + 7 + |x.data| <= 90
  {
    hide Accepts, Encoded, HasUpper, Printable, Five;
    var str := Encode(x.encoding, x.hrp, x.data);
    r := Decode(str);
    EncodedIsAccepted(x);
    if r.Some? {
      AcceptedAlike(str, x, r.value);
    }
  }

  /** Two readings of one string are the same. */
  lemma AcceptedAlike(str: seq<bv8>, x: Decoded, y: Decoded)
    requires Accepts(str, y)
    ensures Accepts(str, x) ==> x == y
  {
    hide Wellformed, Lower, CharOf, Checksum;
    if Accepts(str, x) {
      var n := |x.hrp|;
      var all := x.data + Checksum(x.encoding, x.hrp, x.data);
      FiveChecksum(x);
      EncodingParts(str, x);
      AcceptsOnce(str, x, y, n, all);
    }
  }

  lemma EncodingParts(str: seq<bv8>, x: Decoded)
    requires Accepts(str, x)
    ensures var (n, all) := (|x.hrp|, x.data + Checksum(x.encoding, x.hrp, x.data));
            && n < |str| && str[n] == SEPARATOR && (forall i :: n < i < |str| ==> str[i] != SEPARATOR)
            && Chars(all) == Lowered(str[n + 1..])
  {
    hide Wellformed, Lower, CharOf, Checksum;
    var n, all, low := |x.hrp|, x.data + Checksum(x.encoding, x.hrp, x.data), Lowered(str);
    FiveChecksum(x);
    assert low[n] == SEPARATOR;
    LowerFacts(str[n]);
    forall i | n < i < |str| ensures str[i] != SEPARATOR {
      assert low[i] == CharOf(all[i - n - 1]);
      CharsetIsInverse(all[i - n - 1]);
      LowerFacts(str[i]);
    }
    assert low[n + 1..] == Chars(all);
    LoweredParts(str, n);
  }

  /** Encoding undoes decoding: it gives back the string in lower case. */
  method DecodeThenEncode(str: seq<bv8>) returns (r: Option<seq<bv8>>)
    ensures r.Some? ==> r.value == Lowered(str)
    ensures r.None? <==> forall x :: !Accepts(str, x)
  {
    hide Wellformed, Lower, CharOf, Checksum;
    var d := Decode(str);
    if d.None? {
      return None;
    }
    LowerHrp(str, d.value);
    var text := Encode(d.value.encoding, d.value.hrp, d.value.data);
    return Some(text);
  }

  lemma LowerHrp(str: seq<bv8>, x: Decoded)
    requires Accepts(str, x)
    ensures !HasUpper(x.hrp)
  {
    hide Wellformed, Lower, CharOf, Checksum;
    forall i | 0 <= i < |x.hrp| ensures !IsUpperLetter(x.hrp[i]) {
      assert x.hrp[i] == Lowered(str)[i];
      LowerFacts(str[i]);
    }
  }

  // ---------------------------------------------------------------- corrupted strings

  /** The symbols a string is checked by. */
  function Checked(x: Decoded): seq<bv8> {
    ExpandHRP(x.hrp) + (x.data + Checksum(x.encoding, x.hrp, x.data))
  }

  lemma CheckedFacts(x: Decoded)
    requires Five(x.data)
    ensures Five(Checked(x)) && PolyMod(Checked(x)) == Constant(x.encoding)
  {
    hide PolyModFrom, Constant, Checksum;
    ExpandedIsFive(x.hrp);
    FiveChecksum(x);
    RightChecksum(x);
    assert Checked(x) == ExpandHRP(x.hrp) + x.data + Checksum(x.encoding, x.hrp, x.data);
  }

  /** A character of the data and its symbol. */
  lemma CheckedAt(str: seq<bv8>, x: Decoded, l: int)
    requires Accepts(str, x) && |x.hrp| < l < |str|
    ensures |Checked(x)| == |x.hrp| + |str| && Checked(x)[|x.hrp| + l] < 32
    ensures Lower(str[l]) == CharOf(Checked(x)[|x.hrp| + l])
  {
    hide Checksum, CharOf, Lower, Wellformed;
    var all := x.data + Checksum(x.encoding, x.hrp, x.data);
    FiveChecksum(x);
    assert Lowered(str)[l] == Chars(all)[l - |x.hrp| - 1];
    assert Checked(x)[|x.hrp| + l] == all[l - |x.hrp| - 1];
  }

  lemma CheckedLength(str: seq<bv8>, x: Decoded)
    requires Accepts(str, x)
    ensures |Checked(x)| == |x.hrp| + |str| && |x.hrp| + 7 <= |str| <= 90
  {
    hide Checksum, CharOf, Lower, Wellformed;
    assert |Lowered(str)| == |str|;
  }

  /** Two accepted strings with one human-readable part have a symbol in common wherever they have
      a character in common. */
  lemma SameSymbol(str: seq<bv8>, x: Decoded, str': seq<bv8>, y: Decoded, l: int)
    requires Accepts(str, x) && Accepts(str', y) && x.hrp == y.hrp && |str| == |str'| && |x.hrp| < l < |str|
    ensures |Checked(x)| == |Checked(y)| == |x.hrp| + |str|
    ensures Lower(str[l]) == Lower(str'[l]) <==> Checked(x)[|x.hrp| + l] == Checked(y)[|x.hrp| + l]
  {
    hide Checksum, CharOf, Lower, Accepts, Checked;
    CheckedAt(str, x, l);
    CheckedAt(str', y, l);
    CharsetIsInverse(Checked(x)[|x.hrp| + l]);
    CharsetIsInverse(Checked(y)[|x.hrp| + l]);
  }

  lemma SameFront(x: Decoded, y: Decoded, l: int)
    requires x.hrp == y.hrp && 0 <= l <= 2 * |x.hrp|
    ensures l < |Checked(x)| && l < |Checked(y)| && Checked(x)[l] == Checked(y)[l]
  {
    hide Checksum;
  }

  /** Strings that encode the same symbols are the same, case aside. */
  lemma SameChecked(str: seq<bv8>, x: Decoded, str': seq<bv8>, y: Decoded)
    requires Accepts(str, x) && Accepts(str', y) && x.hrp == y.hrp && |str| == |str'| && Checked(x) == Checked(y)
    ensures Lowered(str) == Lowered(str')
  {
    hide Checksum, CharOf, Lower, Checked, Wellformed;
    forall l | 0 <= l < |str| ensures Lower(str[l]) == Lower(str'[l]) {
      if l <= |x.hrp| {
        assert Lowered(str)[l] == (x.hrp + [SEPARATOR])[l] && Lowered(str')[l] == (x.hrp + [SEPARATOR])[l];
      } else {
        SameSymbol(str, x, str', y, l);
      }
    }
  }

  /** No string differs from an accepted one in up to three characters of its data and is accepted
      as the same encoding with the same human-readable part. */
  lemma ThreeErrorsAreRefused(str: seq<bv8>, x: Decoded, str': seq<bv8>, y: Decoded, i: nat, j: nat, k: nat)
    requires Accepts(str, x) && Accepts(str', y) && x.hrp == y.hrp && x.encoding == y.encoding && |str| == |str'|
    requires |x.hrp| < i < j < k < |str|
    requires forall l :: |x.hrp| < l < |str| && l != i && l != j && l != k ==> Lower(str[l]) == Lower(str'[l])
    ensures Lowered(str) == Lowered(str')
  {
    hide Checksum, CharOf, Lower, Checked, Wellformed, PolyModFrom, Constant;
    var n := |x.hrp|;
    CheckedFacts(x);
    CheckedFacts(y);
    CheckedLength(str, x);
    CheckedLength(str', y);
    forall l | 0 <= l < n + |str| && l != n + i && l != n + j && l != n + k ensures Checked(x)[l] == Checked(y)[l] {
      if l <= 2 * n {
        SameFront(x, y, l);
      } else {
        SameSymbol(str, x, str', y, l - n);
      }
    }
    if Checked(x) != Checked(y) {
      ThreeErrorsAreDetected(Checked(x), Checked(y), n + i, n + j, n + k);
    } else {
      SameChecked(str, x, str', y);
    }
  }

  /** Nor in any number of characters of its data within six consecutive ones. */
  lemma BurstIsRefused(str: seq<bv8>, x: Decoded, str': seq<bv8>, y: Decoded, k: nat)
    requires Accepts(str, x) && Accepts(str', y) && x.hrp == y.hrp && x.encoding == y.encoding && |str| == |str'|
    requires |x.hrp| < k < |str|
    requires forall l :: |x.hrp| < l < |str| && (l < k || l >= k + 6) ==> Lower(str[l]) == Lower(str'[l])
    ensures Lowered(str) == Lowered(str')
  {
    hide Checksum, CharOf, Lower, Checked, Wellformed, PolyModFrom, Constant;
    var n := |x.hrp|;
    CheckedFacts(x);
    CheckedFacts(y);
    CheckedLength(str, x);
    CheckedLength(str', y);
    forall l | 0 <= l < n + |str| && (l < n + k || l >= n + k + 6) ensures Checked(x)[l] == Checked(y)[l] {
      if l <= 2 * n {
        SameFront(x, y, l);
      } else {
        SameSymbol(str, x, str', y, l - n);
      }
    }
    if Checked(x) != Checked(y) {
      BurstIsDetected(Checked(x), Checked(y), n + k);
    } else {
      SameChecked(str, x, str', y);
    }
  }

  /** When a corrupted string is accepted, and as which encoding: the errors must account for the
      difference of the constants. */
  lemma CorruptedIsAccepted(str: seq<bv8>, x: Decoded, str': seq<bv8>, values: seq<bv8>, e: Encoding)
    requires Accepts(str, x) && Wellformed(str') && |str'| == |str|
    requires var n := |x.hrp|;
             && n < |str'| && str'[n] == SEPARATOR && Lowered(str'[..n]) == x.hrp
             && |values| == |str'| - 1 - n && Five(values) && Chars(values) == Lowered(str'[n + 1..])
    ensures |values| == |x.data| + 6
    ensures var errors := Diff(x.data + Checksum(x.encoding, x.hrp, x.data), values);
            Accepts(str', Decoded(e, x.hrp, values[..|values| - 6])) <==>
            PolyModFrom(0, errors) == Xor(Constant(x.encoding), Constant(e))
  {
    hide Checksum, CharOf, Lower, Wellformed, PolyModFrom, Constant, Xor;
    var n, u := |x.hrp|, x.data + Checksum(x.encoding, x.hrp, x.data);
    CheckedLength(str, x);
    CheckedFacts(x);
    AcceptedByChecksum(str', n, values, e);
    PolyAppend(1, ExpandHRP(x.hrp), u);
    PolyAppend(1, ExpandHRP(x.hrp), values);
    var c := PolyMod(ExpandHRP(x.hrp));
    PolyLinear(c, c, u, values);
    XorTwice(c, 0);
    XorIsZero(c, c);
    XorSolve(Constant(x.encoding), PolyMod(ExpandHRP(x.hrp) + values), PolyModFrom(0, Diff(u, values)));
    XorSolve(Constant(x.encoding), Constant(e), PolyModFrom(0, Diff(u, values)));
  }
}
