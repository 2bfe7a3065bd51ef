/**
 The block index: a tree of blocks linked to their predecessors, with skip pointers, and the
 chain of one tip. Fast walking is proved equal to plain walking.
 */
module BlockChain {
  import opened ArithModel
  import opened SkipWalk

  // ---------------------------------------------------------------- the index

  class BlockIndex {
    const pprev: BlockIndex?
    const nHeight: nat
    var pskip: BlockIndex?

    constructor (pprev: BlockIndex?)
      requires pprev != null ==> Rooted(pprev)
      ensures this.pprev == pprev && Rooted(this) && pskip == null
    {
      this.pprev := pprev;
      nHeight := if pprev == null then 0 else pprev.nHeight + 1;
      pskip := null;
    }

    /** The ancestor at a height, by the skip list; the source's assertion that there is a
        predecessor always holds. Once skips are built it takes few steps. */
    method GetAncestor(height: int) returns (r: BlockIndex?, ghost steps: nat)
      requires Rooted(this) && SkipsOk(this)
      ensures r == if 0 <= height <= nHeight then Ancestor(this, nHeight - height) else null
      ensures r != null ==> Rooted(r) && SkipsOk(r) && r.nHeight == height
      ensures SkipsBuilt(this) ==> steps <= (Log2(nHeight) + 1) * (Log2(nHeight) + 1)
    {
      hide GetSkipHeight, Steps;
      steps := 0;
      if height > nHeight || height < 0 {
        return null, 0;
      }
      StepsAreFew(nHeight, height);
      var walk: BlockIndex := this;
      var heightWalk := nHeight;
      while heightWalk > height
        invariant height <= heightWalk <= nHeight && heightWalk == walk.nHeight && Rooted(walk) && SkipsOk(walk)
        invariant walk == Ancestor(this, nHeight - heightWalk)
        invariant SkipsBuilt(this) ==> SkipsBuilt(walk) && steps + Steps(heightWalk, height) == Steps(nHeight, height)
      {
        OneStep(heightWalk, height);
        steps := steps + 1;
        var heightSkip := GetSkipHeight(heightWalk);
        var heightSkipPrev := GetSkipHeight(heightWalk - 1);
        if walk.pskip != null &&
           (heightSkip == height ||
            (heightSkip > height && !(heightSkipPrev < heightSkip - 2 && heightSkipPrev >= height))) {
          AncestorTwice(this, nHeight - heightWalk, heightWalk - heightSkip);
          AncestorRooted(walk, heightWalk - heightSkip);
          AncestorSkipsOk(walk, heightWalk - heightSkip);
          if SkipsBuilt(this) {
            AncestorSkipsBuilt(walk, heightWalk - heightSkip);
          }
          walk := walk.pskip;
          heightWalk := heightSkip;
        } else {
          assert walk.pprev != null;
          AncestorTwice(this, nHeight - heightWalk, 1);
          walk := walk.pprev;
          heightWalk := heightWalk - 1;
        }
      }
      return walk, steps;
    }

    method BuildSkip()
      requires Rooted(this) && (pprev != null ==> SkipsOk(pprev))
      modifies this`pskip
      ensures pprev != null ==> SkipsOk(this) && pskip != null && (old(SkipsBuilt(pprev)) ==> SkipsBuilt(this))
      ensures pprev == null ==> pskip == old(pskip)
    {
      if pprev != null {
        LineAllocated(pprev);
        var skip;
        ghost var steps;
        skip, steps := pprev.GetAncestor(GetSkipHeight(nHeight));
        NotInOwnLine(this);
        AncestorRooted(pprev, pprev.nHeight - GetSkipHeight(nHeight));
        assert skip == Ancestor(this, nHeight - GetSkipHeight(nHeight));
        pskip := skip;
        assert SkipsOk(pprev);
      }
    }
  }

  /** A block enters the index: whatever tree is built this way, skip pointers are there and right. */
  method AddToIndex(parent: BlockIndex?) returns (b: BlockIndex)
    requires parent != null ==> Rooted(parent) && SkipsOk(parent)
    ensures fresh(b) && b.pprev == parent && Rooted(b) && SkipsOk(b) && (parent != null ==> b.pskip != null)
    ensures (parent == null || old(SkipsBuilt(parent))) ==> SkipsBuilt(b)
  {
    if parent != null {
      LineAllocated(parent);
    }
    b := new BlockIndex(parent);
    b.BuildSkip();
  }

  /** Heights count the way to the genesis block. */
  ghost predicate Rooted(b: BlockIndex)
    decreases b.nHeight
  {
    (b.pprev == null <==> b.nHeight == 0) &&
    (b.pprev != null ==> b.pprev.nHeight + 1 == b.nHeight && Rooted(b.pprev))
  }

  /** Plain walking. */
  function Ancestor(b: BlockIndex, steps: nat): BlockIndex?
    decreases steps
  {
    if steps == 0 then b else if b.pprev == null then null else Ancestor(b.pprev, steps - 1)
  }

  /** A block and all its predecessors. */
  ghost function Line(b: BlockIndex): set<BlockIndex>
    requires Rooted(b)
    decreases b.nHeight
  {
    {b} + if b.pprev == null then {} else Line(b.pprev)
  }

  /** Every skip pointer on the way leads to the ancestor it should. */
  ghost predicate SkipsOk(b: BlockIndex)
    requires Rooted(b)
    reads Line(b)
    decreases b.nHeight
  {
    && (b.pskip != null ==> b.pprev != null && b.pskip == Ancestor(b, b.nHeight - GetSkipHeight(b.nHeight)))
    && (b.pprev != null ==> SkipsOk(b.pprev))
  }

  /** Every block on the way but the first has its skip pointer. */
  ghost predicate SkipsBuilt(b: BlockIndex)
    requires Rooted(b)
    reads Line(b)
    decreases b.nHeight
  {
    b.pprev != null ==> b.pskip != null && SkipsBuilt(b.pprev)
  }

  lemma {:induction false} AncestorTwice(b: BlockIndex, m: nat, n: nat)
    requires Ancestor(b, m) != null
    ensures Ancestor(Ancestor(b, m), n) == Ancestor(b, m + n)
    decreases m
  {
    if m > 0 {
      AncestorTwice(b.pprev, m - 1, n);
    }
  }

  lemma {:induction false} AncestorRooted(b: BlockIndex, n: nat)
    requires Rooted(b)
    ensures n <= b.nHeight <==> Ancestor(b, n) != null
    ensures n <= b.nHeight ==> Rooted(Ancestor(b, n)) && Ancestor(b, n).nHeight == b.nHeight - n
    decreases n
  {
    if n > 0 && b.pprev != null {
      AncestorRooted(b.pprev, n - 1);
    }
  }

  lemma {:induction false} AncestorSkipsOk(b: BlockIndex, n: nat)
    requires Rooted(b) && SkipsOk(b) && n <= b.nHeight
    ensures Ancestor(b, n) != null && Rooted(Ancestor(b, n)) && SkipsOk(Ancestor(b, n))
    decreases n
  {
    AncestorRooted(b, n);
    if n > 0 {
      AncestorSkipsOk(b.pprev, n - 1);
    }
  }

  lemma {:induction false} AncestorSkipsBuilt(b: BlockIndex, n: nat)
    requires Rooted(b) && SkipsBuilt(b) && n <= b.nHeight
    ensures Ancestor(b, n) != null && Rooted(Ancestor(b, n)) && SkipsBuilt(Ancestor(b, n))
    decreases n
  {
    AncestorRooted(b, n);
    if n > 0 {
      AncestorSkipsBuilt(b.pprev, n - 1);
    }
  }

  lemma {:induction false} LineIsLower(b: BlockIndex, c: BlockIndex)
    requires Rooted(b) && c in Line(b)
    ensures c.nHeight <= b.nHeight
    decreases b.nHeight
  {
    if c != b {
      LineIsLower(b.pprev, c);
    }
  }

  lemma {:induction false} LineAllocated(b: BlockIndex)
    requires Rooted(b)
    ensures forall c :: c in Line(b) ==> allocated(c)
    decreases b.nHeight
  {
    if b.pprev != null {
      LineAllocated(b.pprev);
    }
  }

  lemma NotInOwnLine(b: BlockIndex)
    requires Rooted(b) && b.pprev != null
    ensures b !in Line(b.pprev)
  {
    if b in Line(b.pprev) {
      LineIsLower(b.pprev, b);
    }
  }

  // ---------------------------------------------------------------- the chain of a tip

  /** The ancestor at a height. */
  function At(b: BlockIndex, height: nat): BlockIndex?
  {
    if height <= b.nHeight then Ancestor(b, b.nHeight - height) else null
  }

  /** A vector of blocks in which each follows its predecessor, from the genesis block on. */
  ghost predicate Linked(v: seq<BlockIndex?>) {
    forall i :: 0 <= i < |v| ==> InPlace(v, i)
  }

  ghost predicate InPlace(v: seq<BlockIndex?>, i: nat)
    requires i < |v|
  {
    v[i] != null && v[i].nHeight == i && v[i].pprev == if i == 0 then null else v[i - 1]
  }

  /** Such a vector is the path of its last block. */
  lemma {:induction false} LinkedIsThePath(v: seq<BlockIndex?>, i: nat)
    requires Linked(v) && i < |v|
    ensures v[|v| - 1] != null && Rooted(v[|v| - 1]) && At(v[|v| - 1], i) == v[i]
    decreases |v|
  {
    var n := |v| - 1;
    assert InPlace(v, n);
    if n > 0 {
      forall j | 0 <= j < n ensures InPlace(v[..n], j) {
        assert InPlace(v, j);
      }
      LinkedIsThePath(v[..n], if i < n then i else n - 1);
      assert InPlace(v, n - 1);
      assert v[n].pprev == v[..n][n - 1];
      assert Ancestor(v[n], n - i) == if i == n then v[n] else Ancestor(v[n].pprev, n - 1 - i);
    }
  }

  class CChain {
    var vChain: seq<BlockIndex?>

    ghost predicate Valid()
      reads this
    {
      Linked(vChain)
    }

    constructor ()
      ensures Valid() && vChain == []
    {
      vChain := [];
    }

    function Tip(): (r: BlockIndex?)
      reads this
    {
      if |vChain| > 0 then vChain[|vChain| - 1] else null
    }

    function Height(): int
      reads this
    {
      |vChain| - 1
    }

    predicate Contains(b: BlockIndex)
      reads this
    {
      b.nHeight < |vChain| && vChain[b.nHeight] == b
    }

    /** The early stop is sound: below a block that is already in place everything is. */
    method SetTip(block: BlockIndex)
      requires Valid() && Rooted(block)
      modifies this
      ensures Valid() && Tip() == block && Height() == block.nHeight
      ensures forall i: nat :: i <= block.nHeight ==> vChain[i] == At(block, i)
    {
      ghost var v := vChain;
      vChain := Resized(vChain, block.nHeight + 1);
      var index: BlockIndex? := block;
      ghost var h: int := block.nHeight;
      while index != null && vChain[index.nHeight] != index
        invariant |vChain| == block.nHeight + 1 && -1 <= h <= block.nHeight
        invariant if index == null then h == -1 else Rooted(index) && h == index.nHeight
        invariant forall i :: 0 <= i <= h ==> vChain[i] == if i < |v| then v[i] else null
        invariant forall i :: h + 1 < i <= block.nHeight ==> InPlace(vChain, i)
        invariant h < block.nHeight ==> vChain[h + 1] != null && vChain[h + 1].nHeight == h + 1
        invariant h < block.nHeight ==> vChain[h + 1].pprev == index
        invariant h < block.nHeight ==> vChain[block.nHeight] == block
        invariant h == block.nHeight ==> index == block
        decreases h
      {
        ghost var v1 := vChain;
        vChain := vChain[index.nHeight := index];
        forall i | h < i <= block.nHeight ensures InPlace(vChain, i) {
          assert i > h + 1 ==> InPlace(v1, i);
        }
        index := index.pprev;
        h := h - 1;
      }
      forall i | 0 <= i < |vChain| ensures InPlace(vChain, i) {
        if i <= h {
          assert h < |v| && InPlace(v, i);
        }
      }
      forall i: nat | i <= block.nHeight ensures vChain[i] == At(block, i) {
        LinkedIsThePath(vChain, i);
      }
    }
  }

  function Resized(v: seq<BlockIndex?>, n: nat): (r: seq<BlockIndex?>)
    ensures |r| == n && forall i :: 0 <= i < n ==> r[i] == if i < |v| then v[i] else null
  {
    if n <= |v| then v[..n] else v + seq(n - |v|, _ => null)
  }

  // ---------------------------------------------------------------- forks

  lemma AtIsAncestor(b: BlockIndex, height: nat)
    requires Rooted(b)
    ensures height <= b.nHeight <==> At(b, height) != null
    ensures height <= b.nHeight ==> Rooted(At(b, height)) && At(b, height).nHeight == height
  {
    if height <= b.nHeight {
      AncestorRooted(b, b.nHeight - height);
    }
  }

  /** Ancestors of an ancestor. */
  lemma AtOfAt(b: BlockIndex, h: nat, k: nat)
    requires Rooted(b) && k <= h <= b.nHeight
    ensures At(b, h) != null && At(At(b, h), k) == At(b, k)
  {
    AtIsAncestor(b, h);
    AncestorTwice(b, b.nHeight - h, h - k);
  }

  /** Two blocks that share an ancestor share all ancestors below it. */
  lemma SharedBelow(a: BlockIndex, b: BlockIndex, h: nat, k: nat)
    requires Rooted(a) && Rooted(b) && k <= h && At(a, h) != null && At(a, h) == At(b, h)
    ensures At(a, k) == At(b, k)
  {
    AtIsAncestor(a, h);
    AtIsAncestor(b, h);
    AtOfAt(a, h, k);
    AtOfAt(b, h, k);
  }

  /** Below their highest common ancestor two blocks have the same ancestors. */
  lemma SharedUpTo(a: BlockIndex, b: BlockIndex, r: BlockIndex?)
    requires Rooted(a) && Rooted(b) && HighestCommon(a, b, r)
    ensures r != null ==> forall k: nat :: k <= r.nHeight ==> At(a, k) == At(b, k)
  {
    if r != null {
      forall k: nat | k <= r.nHeight ensures At(a, k) == At(b, k) {
        SharedBelow(a, b, r.nHeight, k);
      }
    }
  }

  /** The highest block that two blocks descend from, if any. */
  ghost predicate HighestCommon(a: BlockIndex, b: BlockIndex, r: BlockIndex?) {
    if r == null then forall h: nat :: At(a, h) != null ==> At(a, h) != At(b, h)
    else
      && At(a, r.nHeight) == r && At(b, r.nHeight) == r
      && forall h: nat :: At(a, h) != null && At(a, h) == At(b, h) ==> h <= r.nHeight
  }

  /** One step back along the ancestors. */
  lemma StepBack(b: BlockIndex, h: nat)
    requires Rooted(b) && h <= b.nHeight
    ensures At(b, h) != null && At(b, h).nHeight == h && At(b, h).pprev == if h == 0 then null else At(b, h - 1)
  {
    AtIsAncestor(b, h);
    if h > 0 {
      AtOfAt(b, h, h - 1);
      var c: BlockIndex := At(b, h);
      assert Ancestor(c, 1) == c.pprev;
    }
  }

  /** No common ancestor above a height. */
  ghost predicate ApartAbove(a: BlockIndex, b: BlockIndex, h: int) {
    forall k: nat :: k > h && At(a, k) != null ==> At(a, k) != At(b, k)
  }

  lemma ApartFrom(a: BlockIndex, b: BlockIndex, h: nat)
    requires Rooted(a) && Rooted(b) && (h == a.nHeight || h == b.nHeight)
    ensures ApartAbove(a, b, h)
  {
    forall k: nat | k > h && At(a, k) != null ensures At(a, k) != At(b, k) {
      AtIsAncestor(a, k);
      AtIsAncestor(b, k);
    }
  }

  lemma ApartMore(a: BlockIndex, b: BlockIndex, h: nat)
    requires ApartAbove(a, b, h) && At(a, h) != At(b, h)
    ensures ApartAbove(a, b, h - 1)
  {
  }

  /** Where a search that comes down from above ends. */
  lemma Met(a: BlockIndex, b: BlockIndex, h: int)
    requires ApartAbove(a, b, h) && h >= -1
    requires (h >= 0 ==> At(a, h) != null && At(a, h) == At(b, h) && At(a, h).nHeight == h)
    ensures HighestCommon(a, b, if h == -1 then null else At(a, h))
  {
  }

  method LastCommonAncestor(pa: BlockIndex, pb: BlockIndex) returns (r: BlockIndex?)
    requires Rooted(pa) && SkipsOk(pa) && Rooted(pb) && SkipsOk(pb)
    ensures HighestCommon(pa, pb, r)
    ensures r != null ==> forall k: nat :: k <= r.nHeight ==> At(pa, k) == At(pb, k)
    ensures At(pa, 0) == At(pb, 0) ==> r != null
  {
    hide At, Rooted, HighestCommon, ApartAbove;
    var a: BlockIndex?, b: BlockIndex? := pa, pb;
    ghost var steps;
    LineAllocated(pa);
    LineAllocated(pb);
    AtItself(pa);
    AtItself(pb);
    if pa.nHeight > pb.nHeight {
      a, steps := pa.GetAncestor(pb.nHeight);
      AtIs(pa, pb.nHeight);
    } else if pb.nHeight > pa.nHeight {
      b, steps := pb.GetAncestor(pa.nHeight);
      AtIs(pb, pa.nHeight);
    }
    ghost var h: int := if pa.nHeight < pb.nHeight then pa.nHeight else pb.nHeight;
    ApartFrom(pa, pb, h);
    StepBack(pa, h);
    StepBack(pb, h);
    while a != b && a != null && b != null
      invariant -1 <= h <= pa.nHeight && h <= pb.nHeight && ApartAbove(pa, pb, h)
      invariant if h == -1 then a == null && b == null else a == At(pa, h) && b == At(pb, h) && a != null && b != null
      decreases h
    {
      ApartMore(pa, pb, h);
      StepBack(pa, h);
      StepBack(pb, h);
      a := a.pprev;
      b := b.pprev;
      h := h - 1;
      if h >= 0 {
        StepBack(pa, h);
        StepBack(pb, h);
      }
    }
    assert a == b;
    if h >= 0 {
      StepBack(pa, h);
    }
    Met(pa, pb, h);
    StepBack(pa, 0);
    MeetAtGenesis(pa, pb, a);
    SharedUpTo(pa, pb, a);
    return a;
  }

  lemma MeetAtGenesis(a: BlockIndex, b: BlockIndex, r: BlockIndex?)
    requires HighestCommon(a, b, r) && At(a, 0) != null
    ensures At(a, 0) == At(b, 0) ==> r != null
  {
  }

  lemma AtItself(b: BlockIndex)
    ensures At(b, b.nHeight) == b
  {
  }

  lemma AtIs(b: BlockIndex, h: nat)
    requires h <= b.nHeight
    ensures At(b, h) == Ancestor(b, b.nHeight - h)
  {
  }

  /** A block is in the chain exactly when it is the tip's ancestor at its height. */
  lemma ContainsIsAncestor(v: seq<BlockIndex?>, b: BlockIndex)
    requires Linked(v) && v != []
    ensures v[|v| - 1] != null && Rooted(v[|v| - 1])
    ensures (b.nHeight < |v| && v[b.nHeight] == b) <==> At(v[|v| - 1], b.nHeight) == b
  {
    LinkedIsThePath(v, 0);
    if b.nHeight < |v| {
      LinkedIsThePath(v, b.nHeight);
    } else {
      AtIsAncestor(v[|v| - 1], b.nHeight);
      assert InPlace(v, |v| - 1);
    }
  }

  /** The last block of the chain that a block descends from. */
  method FindFork(chain: CChain, index: BlockIndex?) returns (r: BlockIndex?)
    requires chain.Valid() && (index != null ==> Rooted(index) && SkipsOk(index))
    ensures index == null || chain.Tip() == null ==> r == null
    ensures index != null && chain.Tip() != null ==> HighestCommon(index, chain.Tip(), r)
  {
    hide At, Rooted, HighestCommon, ApartAbove;
    if index == null {
      return null;
    }
    r := index;
    LineAllocated(index);
    AtItself(index);
    if index.nHeight > chain.Height() {
      ghost var steps;
      r, steps := index.GetAncestor(chain.Height());
    }
    if chain.vChain == [] {
      return;
    }
    ghost var top := |chain.vChain| - 1;
    assert InPlace(chain.vChain, top);
    LinkedIsThePath(chain.vChain, 0);
    ghost var tip: BlockIndex := chain.vChain[top];
    ghost var h: int := if index.nHeight < top then index.nHeight else top;
    AtIs(index, h);
    ApartFrom(index, tip, h);
    StepBack(index, h);
    while r != null && !chain.Contains(r)
      invariant -1 <= h <= index.nHeight && h <= top && ApartAbove(index, tip, h)
      invariant if h == -1 then r == null else r == At(index, h) && r != null && r.nHeight == h
      decreases h
    {
      ContainsIsAncestor(chain.vChain, r);
      ApartMore(index, tip, h);
      StepBack(index, h);
      r := r.pprev;
      h := h - 1;
      if h >= 0 {
        StepBack(index, h);
      }
    }
    if r != null {
      ContainsIsAncestor(chain.vChain, r);
    }
    Met(index, tip, h);
  }

  // ---------------------------------------------------------------- locators

  /** How far back entry k of a locator is: eleven single steps, then doubling ones. */
  function Back(k: nat): nat {
    if k <= 11 then k else 9 + Pow2(k - 10)
  }

  lemma BackGrows(k: nat)
    ensures Back(k + 1) == Back(k) + Step(k) && Step(k + 1) == if k >= 10 then 2 * Step(k) else Step(k)
  {
    assert Pow2(2) == 4 && Pow2(1) == 2 && Pow2(0) == 1;
  }

  /** Blocks that go strictly back from a block, all of them its ancestors. */
  ghost predicate Locates(index: BlockIndex, have: seq<BlockIndex>) {
    && (have != [] ==> have[0] == index)
    && (forall i :: 0 <= i < |have| ==> At(index, have[i].nHeight) == have[i])
    && (forall i :: 0 < i < |have| ==> have[i].nHeight < have[i - 1].nHeight)
  }

  lemma LocatesMore(index: BlockIndex, have: seq<BlockIndex>, b: BlockIndex)
    requires Locates(index, have) && At(index, b.nHeight) == b
    requires if have == [] then b == index else b.nHeight < have[|have| - 1].nHeight
    ensures Locates(index, have + [b])
  {
  }

  /** The entries go strictly back from the block to the genesis block, and there are at most
      twelve more than the logarithm of the height. */
  method LocatorEntries(index: BlockIndex?) returns (have: seq<BlockIndex>)
    requires index != null ==> Rooted(index) && SkipsOk(index)
    ensures index == null <==> have == []
    ensures index != null ==> Locates(index, have) && have[|have| - 1].nHeight == 0
    ensures index != null ==> |have| <= 12 + Log2(index.nHeight)
  {
    hide Locates, At, Back, Pow2;
    have := [];
    if index == null {
      return;
    }
    var step := 1;
    var walk: BlockIndex := index;
    LineAllocated(index);
    LocatorStarts(index);
    while true
      invariant Rooted(walk) && SkipsOk(walk) && walk == At(index, walk.nHeight)
      invariant step == Step(|have|)
      invariant walk.nHeight == if index.nHeight > Back(|have|) then index.nHeight - Back(|have|) else 0
      invariant Locates(index, have) && (if have == [] then walk == index else walk.nHeight < have[|have| - 1].nHeight)
      invariant |have| > 0 ==> index.nHeight > Back(|have| - 1)
      decreases walk.nHeight
    {
      LocatesMore(index, have, walk);
      have := have + [walk];
      if walk.nHeight == 0 {
        break;
      }
      var height := if walk.nHeight - step > 0 then walk.nHeight - step else 0;
      Onward(index, walk, height);
      LineAllocated(walk);
      BackGrows(|have| - 1);
      ghost var steps;
      walk, steps := walk.GetAncestor(height);
      if |have| > 10 {
        step := step * 2;
      }
    }
    LocatorIsShort(index.nHeight, |have|);
  }

  /** The step after so many entries. */
  function Step(count: nat): nat {
    if count <= 10 then 1 else Pow2(count - 10)
  }

  lemma LocatorStarts(index: BlockIndex)
    ensures At(index, index.nHeight) == index && Back(0) == 0 && Locates(index, [])
  {
  }

  lemma Onward(index: BlockIndex, walk: BlockIndex, height: nat)
    requires Rooted(index) && walk == At(index, walk.nHeight) && height <= walk.nHeight <= index.nHeight
    ensures Ancestor(walk, walk.nHeight - height) == At(index, height) != null
  {
    AtOfAt(index, walk.nHeight, height);
    AtIsAncestor(index, height);
  }

  lemma LocatorIsShort(height: nat, count: nat)
    requires count >= 1 && (count >= 2 ==> height > Back(count - 2))
    ensures count <= 12 + Log2(height)
  {
    var log := Log2(height);
    if count > 12 + log {
      Pow2Monotone(log + 1, count - 12);
    }
  }
}
