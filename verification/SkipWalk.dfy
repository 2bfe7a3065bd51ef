/**
 The heights that blocks of the index skip back to, and how many steps a walk over skips takes: at
 most the square of the number of bits of the height it starts from.
 */
module SkipWalk {
  import opened ArithModel

  // ---------------------------------------------------------------- the skip heights

  /** Bitwise and. */
  function And(x: nat, y: nat): (r: nat)
    ensures r <= x && r <= y
  {
    if x == 0 || y == 0 then 0 else 2 * And(x / 2, y / 2) + (if x % 2 == 1 && y % 2 == 1 then 1 else 0)
  }

  /** Turns the lowest one bit of a number into a zero. */
  function InvertLowestOne(n: nat): (r: nat)
    ensures n > 0 ==> r < n
    ensures n == 0 ==> r == 0
  {
    if n == 0 then 0 else And(n, n - 1)
  }

  lemma {:induction false} AndItself(n: nat)
    ensures And(n, n) == n
  {
    if n > 0 {
      AndItself(n / 2);
    }
  }

  /** A number is an odd multiple of some power of two; that power is taken away. */
  lemma {:induction false} InvertedLowestOne(n: nat) returns (q: nat, k: nat)
    requires n > 0
    ensures n == (2 * q + 1) * Pow2(k) && InvertLowestOne(n) == 2 * q * Pow2(k)
  {
    if n % 2 == 1 {
      q, k := n / 2, 0;
      AndItself(n / 2);
      assert (n - 1) / 2 == n / 2;
      assert And(n, n - 1) == 2 * And(n / 2, n / 2);
    } else {
      q, k := InvertedLowestOne(n / 2);
      assert (n - 1) / 2 == n / 2 - 1;
      assert And(n, n - 1) == 2 * And(n / 2, n / 2 - 1);
      k := k + 1;
      Doubled(n / 2, 2 * q + 1, k);
      Doubled(InvertLowestOne(n / 2), 2 * q, k);
    }
  }

  lemma Doubled(m: nat, f: nat, k: nat)
    requires k > 0 && m == f * Pow2(k - 1)
    ensures 2 * m == f * Pow2(k)
  {
    assert f * Pow2(k) == f * (2 * Pow2(k - 1));
  }

  /** Every skip goes strictly back. */
  function GetSkipHeight(height: nat): (r: nat)
    ensures height > 0 ==> r < height
  {
    if height < 2 then 0
    else if height % 2 == 1 then InvertLowestOne(InvertLowestOne(height - 1)) + 1
    else InvertLowestOne(height)
  }

  // ---------------------------------------------------------------- the bits of a height

  function Ones(n: nat): nat {
    if n == 0 then 0 else n % 2 + Ones(n / 2)
  }

  lemma LowestOfEven(n: nat)
    ensures InvertLowestOne(2 * n) == 2 * InvertLowestOne(n)
  {
    if n > 0 {
      assert (2 * n) / 2 == n && (2 * n - 1) / 2 == n - 1;
      assert And(2 * n, 2 * n - 1) == 2 * And(n, n - 1);
    }
  }

  lemma LowestOfOdd(n: nat)
    ensures InvertLowestOne(2 * n + 1) == 2 * n
  {
    AndItself(n);
    assert (2 * n + 1) / 2 == n && (2 * n) / 2 == n;
  }

  lemma OnesOfDouble(n: nat)
    ensures Ones(2 * n) == Ones(n) && Ones(2 * n + 1) == Ones(n) + 1
  {
  }

  lemma {:induction false} OneLess(n: nat)
    requires n > 0
    ensures Ones(InvertLowestOne(n)) == Ones(n) - 1
  {
    hide And, InvertLowestOne, Ones;
    var m := n / 2;
    OnesOfDouble(m);
    if n % 2 == 1 {
      assert n == 2 * m + 1;
      LowestOfOdd(m);
    } else {
      assert n == 2 * m;
      OneLess(m);
      LowestOfEven(m);
      OnesOfDouble(InvertLowestOne(m));
    }
  }

  /** A multiple of a power of two. */
  function Multiple(a: nat, p: nat): nat { a * Pow2(p) }

  lemma MultipleHalf(a: nat, p: nat)
    requires p > 0
    ensures Multiple(a, p) == 2 * Multiple(a, p - 1) == Multiple(2 * a, p - 1) && Pow2(p) == 2 * Pow2(p - 1)
  {
    assert a * (2 * Pow2(p - 1)) == 2 * (a * Pow2(p - 1)) == (2 * a) * Pow2(p - 1);
  }

  lemma MultipleNext(a: nat, p: nat)
    ensures Multiple(a + 1, p) == Multiple(a, p) + Pow2(p) && Multiple(a, 0) == a && Multiple(0, p) == 0
  {
    assert (a + 1) * Pow2(p) == a * Pow2(p) + Pow2(p);
  }

  lemma {:induction false} OnesSplit(a: nat, p: nat, b: nat)
    requires b < Pow2(p)
    ensures Ones(Multiple(a, p) + b) == Ones(a) + Ones(b) && Ones(b) <= p
  {
    MultipleNext(a, p);
    if p == 0 {
      assert b == 0 && Ones(0) == 0;
    } else {
      hide Multiple, Ones;
      MultipleHalf(a, p);
      var n, c := Multiple(a, p - 1), b / 2;
      OnesSplit(a, p - 1, c);
      OnesOfDouble(n + c);
      OnesOfDouble(c);
      if b % 2 == 0 {
        assert b == 2 * c;
      } else {
        assert b == 2 * c + 1;
      }
    }
  }

  /** The lowest one below a multiple of a power of two. */
  lemma {:induction false} LowestBelow(a: nat, p: nat, b: nat)
    requires 0 < b < Pow2(p)
    ensures InvertLowestOne(Multiple(a, p) + b) == Multiple(a, p) + InvertLowestOne(b)
  {
    assert p > 0;
    MultipleHalf(a, p);
    hide And, InvertLowestOne, Multiple, Pow2;
    var n, c := Multiple(a, p - 1), b / 2;
    if b % 2 == 1 {
      assert b == 2 * c + 1 && Multiple(a, p) + b == 2 * (n + c) + 1;
      LowestOfOdd(n + c);
      LowestOfOdd(c);
    } else {
      assert b == 2 * c && Multiple(a, p) + b == 2 * (n + c);
      LowestBelow(a, p - 1, c);
      LowestOfEven(n + c);
      LowestOfEven(c);
    }
  }

  // ---------------------------------------------------------------- the walk

  /** Where a walk goes next: back over the skip, unless that of the predecessor is better. */
  function NextHeight(w: nat, t: nat): (r: nat)
    requires t < w
    ensures t <= r < w
  {
    var skip, prev := GetSkipHeight(w), GetSkipHeight(w - 1);
    if skip == t || (skip > t && !(prev < skip - 2 && prev >= t)) then skip else w - 1
  }

  function Steps(w: nat, t: nat): nat
    requires t <= w
    decreases w
  {
    if w == t then 0 else 1 + Steps(NextHeight(w, t), t)
  }

  /** The skips of an odd and of an even height. */
  lemma SkipOfOdd(m: nat)
    ensures m > 0 ==> GetSkipHeight(2 * m + 1) == 2 * InvertLowestOne(InvertLowestOne(m)) + 1
    ensures GetSkipHeight(2 * m) == 2 * InvertLowestOne(m)
  {
    hide And, InvertLowestOne;
    LowestOfEven(m);
    LowestOfEven(InvertLowestOne(m));
    NoLowest();
  }

  lemma NoLowest()
    ensures InvertLowestOne(0) == 0
  {
  }

  /** From an odd height the skip is followed if it does not go too far, and clears a one. */
  lemma FromOdd(m: nat)
    ensures !(GetSkipHeight(2 * m) < GetSkipHeight(2 * m + 1) - 2)
    ensures Ones(GetSkipHeight(2 * m + 1)) <= Ones(2 * m + 1) - 1
  {
    hide And, InvertLowestOne, Ones, GetSkipHeight;
    SkipOfOdd(m);
    OnesOfDouble(m);
    if m > 0 {
      TwoLess(m);
      OnesOfDouble(InvertLowestOne(InvertLowestOne(m)));
    } else {
      SkipOfOne();
    }
  }

  lemma SkipOfOne()
    ensures GetSkipHeight(1) == 0 && Ones(0) == 0
  {
  }

  lemma TwoLess(m: nat)
    requires m > 0
    ensures Ones(InvertLowestOne(InvertLowestOne(m))) <= Ones(m) - 1
  {
    OneLess(m);
    var once := InvertLowestOne(m);
    if once > 0 {
      OneLess(once);
    }
  }

  /** From an even height the predecessor is better only if its skip clears a one as well; the
      skip of the predecessor is then followed. */
  lemma FromEven(m: nat)
    requires m > 0 && GetSkipHeight(2 * m - 1) < GetSkipHeight(2 * m) - 2
    ensures Ones(GetSkipHeight(2 * m - 1)) <= Ones(2 * m) - 1
  {
    hide GetSkipHeight, Ones, InvertLowestOne, And;
    var n := m / 2;
    if m % 2 == 1 {
      assert 2 * m - 1 == 4 * n + 1 && 2 * m == 4 * n + 2;
      FromTwo(n);
    } else if n % 2 == 1 {
      assert 2 * m - 1 == 8 * (n / 2) + 3 && 2 * m == 8 * (n / 2) + 4;
      FromFour(n / 2);
    } else {
      assert 2 * m - 1 == 8 * (n / 2) - 1 && 2 * m == 8 * (n / 2);
      FromEight(n / 2);
      assert false;
    }
  }

  lemma SkipsAtTwo(n: nat)
    ensures n > 0 ==> GetSkipHeight(4 * n + 1) == 4 * InvertLowestOne(InvertLowestOne(n)) + 1
    ensures GetSkipHeight(4 * n + 2) == 4 * n
  {
    hide GetSkipHeight, InvertLowestOne, And;
    SkipOfOdd(2 * n);
    SkipOfOdd(2 * n + 1);
    LowestOfOdd(n);
    LowestOfEven(n);
    LowestOfEven(InvertLowestOne(n));
  }

  lemma OnesAtTwo(n: nat)
    ensures Ones(4 * n + 1) == Ones(n) + 1 && Ones(4 * n + 2) == Ones(n) + 1
  {
    hide Ones;
    OnesOfDouble(2 * n);
    OnesOfDouble(2 * n + 1);
    OnesOfDouble(n);
  }

  lemma FromTwo(n: nat)
    requires GetSkipHeight(4 * n + 1) < GetSkipHeight(4 * n + 2) - 2
    ensures Ones(GetSkipHeight(4 * n + 1)) <= Ones(4 * n + 2) - 1
  {
    hide GetSkipHeight, InvertLowestOne, And, Ones;
    SkipsAtTwo(n);
    assert n > 0;
    OnesAtTwo(n);
    OnesAtTwo(InvertLowestOne(InvertLowestOne(n)));
    TwoLess(n);
  }

  lemma SkipsAtFour(n: nat)
    ensures GetSkipHeight(8 * n + 3) == 8 * InvertLowestOne(n) + 1 && GetSkipHeight(8 * n + 4) == 8 * n
  {
    hide GetSkipHeight, InvertLowestOne, And;
    SkipOfOdd(4 * n + 1);
    SkipOfOdd(4 * n + 2);
    LowestOfOdd(2 * n);
    LowestOfEven(2 * n + 1);
    LowestOfOdd(n);
    LowestOfEven(2 * n);
    LowestOfEven(n);
  }

  lemma OnesAtFour(n: nat)
    ensures Ones(8 * n + 1) == Ones(n) + 1 && Ones(8 * n + 4) == Ones(n) + 1
  {
    hide Ones;
    OnesAtTwo(2 * n);
    OnesOfDouble(4 * n + 2);
    OnesAtTwo(n);
    OnesOfDouble(n);
  }

  lemma FromFour(n: nat)
    requires GetSkipHeight(8 * n + 3) < GetSkipHeight(8 * n + 4) - 2
    ensures Ones(GetSkipHeight(8 * n + 3)) <= Ones(8 * n + 4) - 1
  {
    hide GetSkipHeight, InvertLowestOne, And, Ones;
    SkipsAtFour(n);
    assert n > 0;
    OnesAtFour(n);
    OnesAtFour(InvertLowestOne(n));
    OneLess(n);
  }

  lemma FromEight(n: nat)
    requires n > 0
    ensures GetSkipHeight(8 * n - 1) > GetSkipHeight(8 * n)
  {
    hide GetSkipHeight, InvertLowestOne, And;
    SkipOfOdd(4 * n - 1);
    SkipOfOdd(4 * n);
    LowestOfOdd(2 * n - 1);
    LowestOfEven(2 * n - 1);
    LowestOfOdd(n - 1);
    LowestOfEven(2 * n);
    LowestOfEven(n);
  }

  lemma Squares(p: nat)
    requires p > 0
    ensures (p - 1) * (p - 1) + 1 + 2 * (p - 1) == p * p && (p - 1) * (p - 1) <= p * p
  {
    assert (p - 1) * (p - 1) == p * p - 2 * p + 1;
  }

  /** A walk within a block of heights of the size of a power of two. */
  lemma {:induction false} WithinBlock(p: nat, a: nat, w: nat, t: nat)
    requires Multiple(a, p) <= t <= w < Multiple(a + 1, p)
    ensures Steps(w, t) <= p * p
    decreases p, 0, w, 0
  {
    hide Multiple, Steps, Ones;
    if p == 0 {
      MultipleNext(a, 0);
      MultipleNext(a + 1, 0);
      NoSteps(w);
    } else {
      MultipleHalf(a, p);
      MultipleHalf(a + 1, p);
      MultipleNext(2 * a, p - 1);
      MultipleNext(2 * a + 1, p - 1);
      Squares(p);
      var middle := Multiple(2 * a + 1, p - 1);
      if w < middle {
        WithinBlock(p - 1, 2 * a, w, t);
      } else if t >= middle {
        WithinBlock(p - 1, 2 * a + 1, w, t);
      } else {
        AcrossTheMiddle(p - 1, a, w, t);
        OnesSplit(0, p - 1, w - middle);
      }
    }
  }

  lemma NoSteps(w: nat)
    ensures Steps(w, w) == 0
  {
  }

  lemma OneStep(w: nat, t: nat)
    requires t < w
    ensures Steps(w, t) == 1 + Steps(NextHeight(w, t), t)
  {
  }

  /** Ones are cleared below the middle. */
  lemma OnesBelow(p: nat, a: nat, w: nat, x: nat)
    requires Multiple(a, p) <= x < Multiple(a + 1, p) && Multiple(a, p) <= w < Multiple(a + 1, p)
    requires Ones(x) <= Ones(w) - 1
    ensures Ones(x - Multiple(a, p)) <= Ones(w - Multiple(a, p)) - 1
  {
    MultipleNext(a, p);
    hide Multiple, Ones;
    OnesSplit(a, p, x - Multiple(a, p));
    OnesSplit(a, p, w - Multiple(a, p));
  }

  /** A walk from the upper half of such a block to the lower one: a one is cleared at least every
      second step, until the middle is passed. */
  lemma {:induction false} AcrossTheMiddle(p: nat, a: nat, w: nat, t: nat)
    requires Multiple(2 * a, p) <= t < Multiple(2 * a + 1, p) <= w < Multiple(2 * a + 2, p)
    ensures Steps(w, t) <= p * p + 1 + 2 * Ones(w - Multiple(2 * a + 1, p))
    decreases p, 1, w, 0
  {
    hide Multiple, Steps, Ones, NextHeight, GetSkipHeight;
    var base, next := Multiple(2 * a + 1, p), NextHeight(w, t);
    OneStep(w, t);
    if w == base {
      WithinBlock(p, 2 * a, next, t);
    } else if w % 2 == 0 && next != GetSkipHeight(w) {
      MultipleNext(2 * a + 1, p);
      var prev := TwoSteps(p, 2 * a + 1, w, t);
      OneStep(w - 1, t);
      OnesPositive(w - base);
      Landed(p, a, w, prev, t);
    } else {
      ClearsAOne(w, t);
      Landed(p, a, w, next, t);
    }
  }

  /** The predecessor is visited only to follow its skip. */
  lemma TwoSteps(p: nat, a: nat, w: nat, t: nat) returns (prev: nat)
    requires t < Multiple(a, p) < w < Multiple(a, p) + Pow2(p) && w % 2 == 0 && NextHeight(w, t) != GetSkipHeight(w)
    ensures NextHeight(w, t) == w - 1 > t && NextHeight(w - 1, t) == prev && Ones(prev) <= Ones(w) - 1
  {
    hide Multiple, InvertLowestOne, And, Ones, GetSkipHeight;
    LowestBelow(a, p, w - Multiple(a, p));
    var m := w / 2;
    assert w == 2 * m;
    SkipOfOdd(m);
    LowestOfEven(m);
    assert GetSkipHeight(w) == InvertLowestOne(w) >= Multiple(a, p);
    prev := GetSkipHeight(w - 1);
    FromEven(m);
    FromOdd(m - 1);
    assert w - 1 == 2 * (m - 1) + 1 && w - 2 == 2 * (m - 1);
  }

  lemma OnesPositive(n: nat)
    requires n > 0
    ensures Ones(n) > 0
  {
    OneLess(n);
  }

  /** Every other step clears a one. */
  lemma ClearsAOne(w: nat, t: nat)
    requires t < w && (w % 2 == 1 || NextHeight(w, t) == GetSkipHeight(w))
    ensures Ones(NextHeight(w, t)) <= Ones(w) - 1
  {
    var m := w / 2;
    if w % 2 == 1 {
      assert w == 2 * m + 1;
      FromOdd(m);
      OnesOfDouble(m);
      hide GetSkipHeight, InvertLowestOne, And, Ones;
    } else {
      assert w == 2 * m;
      SkipOfOdd(m);
      LowestOfEven(m);
      hide GetSkipHeight, InvertLowestOne, And, Ones;
      OneLess(w);
    }
  }

  lemma {:induction false} Landed(p: nat, a: nat, w: nat, x: nat, t: nat)
    requires Multiple(2 * a, p) <= t < Multiple(2 * a + 1, p) <= w < Multiple(2 * a + 2, p)
    requires t <= x < w && Ones(x) <= Ones(w) - 1
    ensures x < Multiple(2 * a + 1, p) ==> Steps(x, t) <= p * p
    ensures x >= Multiple(2 * a + 1, p) ==> Steps(x, t) <= p * p - 1 + 2 * Ones(w - Multiple(2 * a + 1, p))
    decreases p, 1, x, 1
  {
    hide Multiple, Steps, Ones;
    if x < Multiple(2 * a + 1, p) {
      WithinBlock(p, 2 * a, x, t);
    } else {
      OnesBelow(p, 2 * a + 1, w, x);
      AcrossTheMiddle(p, a, x, t);
    }
  }

  /** From any height to any lower one. */
  lemma StepsAreFew(w: nat, t: nat)
    requires t <= w
    ensures Steps(w, t) <= (Log2(w) + 1) * (Log2(w) + 1)
  {
    var p := Log2(w) + 1;
    MultipleNext(0, p);
    hide Multiple, Steps;
    WithinBlock(p, 0, w, t);
  }
}
